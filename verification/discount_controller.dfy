/** The request handlers of backend/src/controllers/diskonController.ts.
    Handlers that write are methods on the database; each `$transaction`
    (and each single `create`/`update`/`delete`) is the block of field
    assignments at the end of the method, after every check has passed.
    Read-only listings are functions of a snapshot of the tables. */
module DiscountController {
  import opened Wrappers
  import opened Seqs
  import opened Tables
  import opened DiscountRules
  import opened OrderedMaps
  import Text

  // ------------------------------------------------------------ pivot rows

  /** The rows `menu_diskon.createMany` adds: one per id of `ids`, in that
      order, all pointing at discount `idDiskon`, numbered from `firstId`. */
  function NewPivots(firstId: int, ids: seq<int>, idDiskon: int): (r: seq<MenuDiskon>)
    ensures |r| == |ids|
    ensures forall i :: 0 <= i < |ids| ==> r[i] == MenuDiskon(firstId + i, ids[i], idDiskon)
  {
    seq(|ids|, i requires 0 <= i < |ids| => MenuDiskon(firstId + i, ids[i], idDiskon))
  }

  /** The menus already linked to discount `idDiskon`. */
  function LinkedMenus(ps: seq<MenuDiskon>, idDiskon: int): set<int> {
    set i | 0 <= i < |ps| && ps[i].idDiskon == idDiskon :: ps[i].idMenu
  }

  function NotIn(s: set<int>): int -> bool {
    (x: int) => x !in s
  }

  function NotForDiskon(idDiskon: int): MenuDiskon -> bool {
    (p: MenuDiskon) => p.idDiskon != idDiskon
  }

  function NotPivot(id: int): MenuDiskon -> bool {
    (p: MenuDiskon) => p.id != id
  }

  /** The pivot rows whose menu belongs to stand `stan`. */
  function OfStan(menus: map<int, Menu>, stan: int): MenuDiskon -> bool {
    (p: MenuDiskon) => p.idMenu in menus && menus[p.idMenu].idStan == stan
  }

  /** Appending fresh rows for menus not yet linked to a discount keeps the
      pivot table consistent. */
  lemma AppendNewPivots(ps: seq<MenuDiskon>, menus: map<int, Menu>, diskons: map<int, Diskon>,
                        diskons': map<int, Diskon>, next: int, ids: seq<int>, d: int)
    requires PivotsOk(ps, menus, diskons, next)
    requires diskons.Keys <= diskons'.Keys && d in diskons'
    requires Distinct(ids) && forall i :: 0 <= i < |ids| ==> ids[i] in menus
    requires forall i :: 0 <= i < |ids| ==> ids[i] !in LinkedMenus(ps, d)
    ensures PivotsOk(ps + NewPivots(next, ids, d), menus, diskons', next + |ids|)
  {
    var r := ps + NewPivots(next, ids, d);
    forall i, j | 0 <= i < j < |r| ensures r[i].idMenu != r[j].idMenu || r[i].idDiskon != r[j].idDiskon {
      if i < |ps| && |ps| <= j && r[i].idDiskon == d {
        assert r[i].idMenu in LinkedMenus(ps, d);
        assert r[j].idMenu == ids[j - |ps|];
      } else if |ps| <= i {
        assert r[i].idMenu == ids[i - |ps|] && r[j].idMenu == ids[j - |ps|];
      }
    }
  }

  /** The ids of a request that name menus of stand `stan`, each once:
      what the `findMany(...).length !== ids.length` check lets through
      (see OwnedCountSpec). */
  predicate IdsOwned(menus: map<int, Menu>, stan: int, ids: seq<int>) {
    Distinct(ids) && forall i :: 0 <= i < |ids| ==> ids[i] in menus && menus[ids[i]].idStan == stan
  }

  // ------------------------------------------------------------ tambahDiskon

  /** The body of `POST /diskon/tambah`, each field as parsed. */
  datatype NewDiskon = NewDiskon(nama: string, persen: Option<real>, awal: Option<int>, akhir: Option<int>, menuIds: IdsInput)

  /** Everything `tambahDiskon` requires once the caller's stand is known. */
  predicate NewDiskonAccepted(menus: map<int, Menu>, stan: int, req: NewDiskon) {
    NormaliseIds(req.menuIds) != [] && PercentAccepted(req.persen) &&
    req.awal.Some? && req.akhir.Some? && WindowOrdered(req.awal.value, req.akhir.value) &&
    IdsOwned(menus, stan, NormaliseIds(req.menuIds))
  }

  /** The database after `tambahDiskon` stored discount `d` and linked it
      to the menus `ids`. */
  function WithDiskon(s: State, d: Diskon, ids: seq<int>): State {
    s.(diskons := s.diskons[d.id := d],
       menuDiskon := s.menuDiskon + NewPivots(s.nextPivotId, ids, d.id),
       nextDiskonId := s.nextDiskonId + 1,
       nextPivotId := s.nextPivotId + |ids|)
  }

  /** Storing a well-formed discount under the next id, linked to distinct
      existing menus, keeps the database consistent. */
  lemma WithDiskonConsistent(s: State, d: Diskon, ids: seq<int>)
    requires Consistent(s) && d.id == s.nextDiskonId && DiskonWellFormed(d)
    requires Distinct(ids) && forall i :: 0 <= i < |ids| ==> ids[i] in s.menus
    ensures Consistent(WithDiskon(s, d, ids))
  {
    // the new id is above every stored one, so no pivot row points at it yet
    assert LinkedMenus(s.menuDiskon, d.id) == {};
    AppendNewPivots(s.menuDiskon, s.menus, s.diskons, s.diskons[d.id := d], s.nextPivotId, ids, d.id);
  }

  /** `tambahDiskon`: creates a discount and links it to menus of the
      caller's stand, or changes nothing. */
  method TambahDiskon(db: Db, user: Option<int>, req: NewDiskon) returns (r: Reply<Diskon>)
    requires db.Valid()
    modifies db
    ensures db.Valid()
    ensures !SignedIn(user) ==> r == Fail(UNAUTHORIZED)
    ensures SignedIn(user) && user.value !in old(db.stanOfUser) ==> r == Fail(FORBIDDEN)
    ensures SignedIn(user) && user.value in old(db.stanOfUser) && r.Fail? ==> r.code == BAD_REQUEST
    ensures r.Fail? ==> r.code in {UNAUTHORIZED, FORBIDDEN, BAD_REQUEST} && db.Snapshot() == old(db.Snapshot())
    ensures r.Ok? <==> (SignedIn(user) && user.value in old(db.stanOfUser) &&
      NewDiskonAccepted(old(db.menus), old(db.stanOfUser)[user.value], req))
    ensures r.Ok? ==>
      r.code == CREATED &&
      r.body == Diskon(old(db.nextDiskonId), req.nama, req.persen.value, req.awal.value, req.akhir.value) &&
      db.Snapshot() == old(db.Snapshot()).(
        diskons := old(db.diskons)[r.body.id := r.body],
        menuDiskon := old(db.menuDiskon) + NewPivots(old(db.nextPivotId), NormaliseIds(req.menuIds), r.body.id),
        nextDiskonId := old(db.nextDiskonId) + 1,
        nextPivotId := old(db.nextPivotId) + |NormaliseIds(req.menuIds)|)
  {
    if !SignedIn(user) {
      return Fail(UNAUTHORIZED);
    }
    if user.value !in db.stanOfUser {
      return Fail(FORBIDDEN);
    }
    var stan := db.stanOfUser[user.value];
    var ids := NormaliseIds(req.menuIds);
    if |ids| == 0 {
      return Fail(BAD_REQUEST);
    }
    if !PercentAccepted(req.persen) {
      return Fail(BAD_REQUEST);
    }
    if req.awal.None? || req.akhir.None? {
      return Fail(BAD_REQUEST);
    }
    if !WindowOrdered(req.awal.value, req.akhir.value) {
      return Fail(BAD_REQUEST);
    }
    OwnedCountSpec(db.menus, stan, ids);
    if OwnedCount(db.menus, stan, ids) != |ids| {
      return Fail(BAD_REQUEST);
    }
    var d := Diskon(db.nextDiskonId, req.nama, req.persen.value, req.awal.value, req.akhir.value);
    WithDiskonConsistent(db.Snapshot(), d, ids);
    db.diskons := db.diskons[d.id := d];
    db.menuDiskon := db.menuDiskon + NewPivots(db.nextPivotId, ids, d.id);
    db.nextDiskonId := db.nextDiskonId + 1;
    db.nextPivotId := db.nextPivotId + |ids|;
    r := Ok(CREATED, d);
    assert db.Snapshot() == WithDiskon(old(db.Snapshot()), d, ids);
  }

  // ----------------------------------------------------------- updateDiskon

  /** `updateDiskon`: the caller's stand must have a menu linked to the
      discount; then the supplied fields replace the stored ones. */
  method UpdateDiskon(db: Db, id: Option<int>, user: Option<int>, patch: DiskonPatch) returns (r: Reply<Diskon>)
    requires db.Valid()
    modifies db
    ensures db.Valid()
    ensures id.None? ==> r == Fail(BAD_REQUEST)
    ensures id.Some? && !SignedIn(user) ==> r == Fail(UNAUTHORIZED)
    ensures id.Some? && SignedIn(user) && user.value !in old(db.stanOfUser) ==> r == Fail(FORBIDDEN)
    ensures id.Some? && SignedIn(user) && user.value in old(db.stanOfUser) && id.value !in old(db.diskons) ==>
      r == Fail(NOT_FOUND)
    ensures (id.Some? && SignedIn(user) && user.value in old(db.stanOfUser) && id.value in old(db.diskons) &&
             !LinkedToStan(old(db.menuDiskon), old(db.menus), id.value, old(db.stanOfUser)[user.value])) ==>
      r == Fail(FORBIDDEN)
    ensures (id.Some? && SignedIn(user) && user.value in old(db.stanOfUser) && id.value in old(db.diskons) &&
             LinkedToStan(old(db.menuDiskon), old(db.menus), id.value, old(db.stanOfUser)[user.value]) &&
             !PatchAccepted(old(db.diskons)[id.value], patch)) ==>
      r == Fail(BAD_REQUEST)
    ensures r.Fail? ==> db.Snapshot() == old(db.Snapshot())
    ensures r.Ok? <==> (id.Some? && SignedIn(user) && user.value in old(db.stanOfUser) && id.value in old(db.diskons) &&
      LinkedToStan(old(db.menuDiskon), old(db.menus), id.value, old(db.stanOfUser)[user.value]) &&
      PatchAccepted(old(db.diskons)[id.value], patch))
    ensures PatchEmpty(patch) ==> r.Fail?
    ensures r.Ok? ==>
      r.code == OK && r.body == ApplyPatch(old(db.diskons)[id.value], patch) &&
      db.Snapshot() == old(db.Snapshot()).(diskons := old(db.diskons)[id.value := r.body])
  {
    if id.None? {
      return Fail(BAD_REQUEST);
    }
    if !SignedIn(user) {
      return Fail(UNAUTHORIZED);
    }
    if user.value !in db.stanOfUser {
      return Fail(FORBIDDEN);
    }
    var stan := db.stanOfUser[user.value];
    if id.value !in db.diskons {
      return Fail(NOT_FOUND);
    }
    if !LinkedToStan(db.menuDiskon, db.menus, id.value, stan) {
      return Fail(FORBIDDEN);
    }
    var existing := db.diskons[id.value];
    if !PatchAccepted(existing, patch) {
      return Fail(BAD_REQUEST);
    }
    ApplyPatchSound(existing, patch);
    var updated := ApplyPatch(existing, patch);
    db.diskons := db.diskons[id.value := updated];
    r := Ok(OK, updated);
  }

  // ----------------------------------------------------------- deleteDiskon

  /** `deleteDiskon`: removes a discount linked to the caller's stand
      together with every pivot row pointing at it. */
  method DeleteDiskon(db: Db, id: Option<int>, user: Option<int>) returns (r: Reply<int>)
    requires db.Valid()
    modifies db
    ensures db.Valid()
    ensures id.None? ==> r == Fail(BAD_REQUEST)
    ensures id.Some? && !SignedIn(user) ==> r == Fail(UNAUTHORIZED)
    ensures id.Some? && SignedIn(user) && user.value !in old(db.stanOfUser) ==> r == Fail(FORBIDDEN)
    ensures id.Some? && SignedIn(user) && user.value in old(db.stanOfUser) && id.value !in old(db.diskons) ==>
      r == Fail(NOT_FOUND)
    ensures (id.Some? && SignedIn(user) && user.value in old(db.stanOfUser) && id.value in old(db.diskons) &&
             !LinkedToStan(old(db.menuDiskon), old(db.menus), id.value, old(db.stanOfUser)[user.value])) ==>
      r == Fail(FORBIDDEN)
    ensures r.Fail? ==> r.code in {BAD_REQUEST, UNAUTHORIZED, FORBIDDEN, NOT_FOUND} && db.Snapshot() == old(db.Snapshot())
    ensures r.Ok? <==> (id.Some? && SignedIn(user) && user.value in old(db.stanOfUser) && id.value in old(db.diskons) &&
      LinkedToStan(old(db.menuDiskon), old(db.menus), id.value, old(db.stanOfUser)[user.value]))
    ensures r.Ok? ==>
      r == Ok(OK, id.value) &&
      db.Snapshot() == old(db.Snapshot()).(
        diskons := old(db.diskons) - {id.value},
        menuDiskon := Filter(old(db.menuDiskon), NotForDiskon(id.value)))
    ensures r.Ok? ==> forall i :: 0 <= i < |db.menuDiskon| ==> db.menuDiskon[i].idDiskon != id.value
  {
    if id.None? {
      return Fail(BAD_REQUEST);
    }
    if !SignedIn(user) {
      return Fail(UNAUTHORIZED);
    }
    if user.value !in db.stanOfUser {
      return Fail(FORBIDDEN);
    }
    var stan := db.stanOfUser[user.value];
    if id.value !in db.diskons {
      return Fail(NOT_FOUND);
    }
    if !LinkedToStan(db.menuDiskon, db.menus, id.value, stan) {
      return Fail(FORBIDDEN);
    }
    var kept := Filter(db.menuDiskon, NotForDiskon(id.value));
    FilterPivots(db.menuDiskon, NotForDiskon(id.value), db.menus, db.diskons, db.diskons - {id.value}, db.nextPivotId);
    forall i | 0 <= i < |kept| ensures kept[i].idDiskon != id.value {
      FilterMember(db.menuDiskon, NotForDiskon(id.value), kept[i]);
    }
    db.menuDiskon := kept;
    db.diskons := db.diskons - {id.value};
    r := Ok(OK, id.value);
  }

  // ------------------------------------------------------- insertMenuDiskon

  /** The ids `insertMenuDiskon` links: the requested ones not linked to
      discount `d` yet (`menuIds.filter(id => !alreadyMenuIds.has(id))`). */
  function ToInsert(ps: seq<MenuDiskon>, d: int, ids: seq<int>): seq<int> {
    Filter(ids, NotIn(LinkedMenus(ps, d)))
  }

  /** `req.body.id_diskon` as `insertMenuDiskon` tests it: a falsy value
      (left out, `null`, `false`, `0` or `""`), refused before it is parsed,
      or a truthy one with what `Number` makes of it (`None` for NaN).  A
      truthy value may still parse to 0, as the string `"0"` does. */
  datatype BodyId = Falsy | Truthy(parsed: Option<int>)

  /** Everything `insertMenuDiskon` requires before it writes. */
  predicate InsertAccepted(s: State, user: Option<int>, idDiskon: BodyId, idMenu: IdsInput) {
    SignedIn(user) && user.value in s.stanOfUser &&
    idDiskon.Truthy? && idDiskon.parsed.Some? && idDiskon.parsed.value in s.diskons &&
    NormaliseIds(idMenu) != [] && IdsOwned(s.menus, s.stanOfUser[user.value], NormaliseIds(idMenu)) &&
    ToInsert(s.menuDiskon, idDiskon.parsed.value, NormaliseIds(idMenu)) != []
  }

  /** The status `insertMenuDiskon` refuses a request with, checking in its
      order: sign-in, stand, discount id, menu ids, the discount, ownership
      of the menus, and that something is left to link. */
  function InsertRefusal(s: State, user: Option<int>, idDiskon: BodyId, idMenu: IdsInput): Option<int> {
    if !SignedIn(user) then Some(UNAUTHORIZED)
    else if user.value !in s.stanOfUser then Some(FORBIDDEN)
    else if idDiskon.Falsy? || idDiskon.parsed.None? then Some(BAD_REQUEST)
    else if NormaliseIds(idMenu) == [] then Some(BAD_REQUEST)
    else if idDiskon.parsed.value !in s.diskons then Some(NOT_FOUND)
    else if OwnedCount(s.menus, s.stanOfUser[user.value], NormaliseIds(idMenu)) != |NormaliseIds(idMenu)| then
      Some(BAD_REQUEST)
    else if ToInsert(s.menuDiskon, idDiskon.parsed.value, NormaliseIds(idMenu)) == [] then Some(BAD_REQUEST)
    else None
  }

  /** A request is refused exactly when one of the requirements fails: a
      caller who is not signed in gets 401, one without a stand 403, a
      falsy or non-numeric `id_diskon` 400, a numeric one naming no stored
      discount 404 (once some menu id was sent), and every other failing
      check 400. */
  lemma InsertRefusalSpec(s: State, user: Option<int>, idDiskon: BodyId, idMenu: IdsInput)
    ensures InsertRefusal(s, user, idDiskon, idMenu).None? <==> InsertAccepted(s, user, idDiskon, idMenu)
    ensures InsertRefusal(s, user, idDiskon, idMenu).Some? ==>
      InsertRefusal(s, user, idDiskon, idMenu).value in {BAD_REQUEST, UNAUTHORIZED, FORBIDDEN, NOT_FOUND}
    ensures !SignedIn(user) ==> InsertRefusal(s, user, idDiskon, idMenu) == Some(UNAUTHORIZED)
    ensures SignedIn(user) && user.value !in s.stanOfUser ==> InsertRefusal(s, user, idDiskon, idMenu) == Some(FORBIDDEN)
    ensures SignedIn(user) && user.value in s.stanOfUser && (idDiskon.Falsy? || idDiskon.parsed.None?) ==>
      InsertRefusal(s, user, idDiskon, idMenu) == Some(BAD_REQUEST)
    ensures InsertRefusal(s, user, idDiskon, idMenu) == Some(NOT_FOUND) <==>
      (SignedIn(user) && user.value in s.stanOfUser && idDiskon.Truthy? && idDiskon.parsed.Some? &&
       NormaliseIds(idMenu) != [] && idDiskon.parsed.value !in s.diskons)
  {
    var refusal := InsertRefusal(s, user, idDiskon, idMenu);
    if !SignedIn(user) || user.value !in s.stanOfUser {
      assert refusal.Some? && !InsertAccepted(s, user, idDiskon, idMenu);
    } else {
      var stan := s.stanOfUser[user.value];
      var ids := NormaliseIds(idMenu);
      OwnedCountSpec(s.menus, stan, ids);
      assert OwnedCount(s.menus, stan, ids) == |ids| <==> IdsOwned(s.menus, stan, ids);
    }
  }

  /** `insertMenuDiskon`: links an existing discount to further menus of
      the caller's stand, skipping those already linked to it. */
  method InsertMenuDiskon(db: Db, user: Option<int>, idDiskon: BodyId, idMenu: IdsInput) returns (r: Reply<seq<int>>)
    requires db.Valid()
    modifies db
    ensures db.Valid()
    ensures r.Fail? <==> InsertRefusal(old(db.Snapshot()), user, idDiskon, idMenu).Some?
    ensures r.Fail? ==>
      r.code == InsertRefusal(old(db.Snapshot()), user, idDiskon, idMenu).value && db.Snapshot() == old(db.Snapshot())
    ensures r.Ok? ==> r.code == CREATED && r.body == ToInsert(old(db.menuDiskon), idDiskon.parsed.value, NormaliseIds(idMenu))
    ensures r.Ok? ==>
      db.Snapshot() == old(db.Snapshot()).(
        menuDiskon := old(db.menuDiskon) + NewPivots(old(db.nextPivotId), r.body, idDiskon.parsed.value),
        nextPivotId := old(db.nextPivotId) + |r.body|)
  {
    var refusal := InsertRefusal(db.Snapshot(), user, idDiskon, idMenu);
    if refusal.Some? {
      return Fail(refusal.value);
    }
    assert InsertAccepted(db.Snapshot(), user, idDiskon, idMenu) by {
      InsertRefusalSpec(db.Snapshot(), user, idDiskon, idMenu);
    }
    var stan := db.stanOfUser[user.value];
    var d := idDiskon.parsed.value;
    var ids := NormaliseIds(idMenu);
    var toInsert := ToInsert(db.menuDiskon, d, ids);
    ghost var s0 := db.Snapshot();
    ghost var s1 := s0.(menuDiskon := s0.menuDiskon + NewPivots(s0.nextPivotId, toInsert, d),
                        nextPivotId := s0.nextPivotId + |toInsert|);
    assert Consistent(s1) by {
      ToInsertFacts(s0, stan, d, ids);
    }
    db.menuDiskon := db.menuDiskon + NewPivots(db.nextPivotId, toInsert, d);
    db.nextPivotId := db.nextPivotId + |toInsert|;
    r := Ok(CREATED, toInsert);
    assert db.Snapshot() == s1;
  }

  /** The set difference of `insertMenuDiskon`: the ids kept are the
      requested ones not yet linked; none are kept exactly when all are
      linked already; adding rows for them keeps the pivot table consistent
      and leaves every requested menu linked, so no (menu, discount) pair
      is ever stored twice. */
  lemma ToInsertFacts(s: State, stan: int, d: int, ids: seq<int>)
    requires Consistent(s) && d in s.diskons && IdsOwned(s.menus, stan, ids)
    ensures forall m :: m in ToInsert(s.menuDiskon, d, ids) <==> m in ids && m !in LinkedMenus(s.menuDiskon, d)
    ensures ToInsert(s.menuDiskon, d, ids) == [] <==> ToSet(ids) <= LinkedMenus(s.menuDiskon, d)
    ensures PivotsOk(s.menuDiskon + NewPivots(s.nextPivotId, ToInsert(s.menuDiskon, d, ids), d),
                     s.menus, s.diskons, s.nextPivotId + |ToInsert(s.menuDiskon, d, ids)|)
    ensures LinkedMenus(s.menuDiskon + NewPivots(s.nextPivotId, ToInsert(s.menuDiskon, d, ids), d), d) ==
            LinkedMenus(s.menuDiskon, d) + ToSet(ids)
  {
    var already := LinkedMenus(s.menuDiskon, d);
    var toInsert := ToInsert(s.menuDiskon, d, ids);
    forall m ensures m in toInsert <==> m in ids && m !in already {
      FilterMember(ids, NotIn(already), m);
    }
    if toInsert == [] {
      assert ToSet(ids) <= already;
    } else {
      assert toInsert[0] in ids;
    }
    FilterDistinct(ids, NotIn(already));
    forall i | 0 <= i < |toInsert| ensures toInsert[i] in s.menus && toInsert[i] !in already {
      assert toInsert[i] in toInsert;
    }
    AppendNewPivots(s.menuDiskon, s.menus, s.diskons, s.diskons, s.nextPivotId, toInsert, d);
    LinkedAfterAppend(s.menuDiskon, NewPivots(s.nextPivotId, toInsert, d), d, toInsert, ids);
  }

  /** After appending the rows for `toInsert`, the menus linked to the
      discount are the old ones plus every requested one. */
  lemma LinkedAfterAppend(ps: seq<MenuDiskon>, added: seq<MenuDiskon>, d: int, toInsert: seq<int>, ids: seq<int>)
    requires |added| == |toInsert| && forall i :: 0 <= i < |added| ==> added[i].idMenu == toInsert[i] && added[i].idDiskon == d
    requires forall m :: m in toInsert <==> m in ids && m !in LinkedMenus(ps, d)
    ensures LinkedMenus(ps + added, d) == LinkedMenus(ps, d) + ToSet(ids)
  {
    var r := ps + added;
    forall m | m in LinkedMenus(r, d) ensures m in LinkedMenus(ps, d) + ToSet(ids) {
      var i :| 0 <= i < |r| && r[i].idDiskon == d && r[i].idMenu == m;
      if i < |ps| {
        assert ps[i] == r[i];
      } else {
        assert toInsert[i - |ps|] in toInsert;
      }
    }
    forall m | m in LinkedMenus(ps, d) + ToSet(ids) ensures m in LinkedMenus(r, d) {
      if m in LinkedMenus(ps, d) {
        var i :| 0 <= i < |ps| && ps[i].idDiskon == d && ps[i].idMenu == m;
        assert r[i] == ps[i];
      } else {
        assert m in toInsert;
        var k :| 0 <= k < |toInsert| && toInsert[k] == m;
        assert r[|ps| + k] == added[k];
      }
    }
  }

  // ------------------------------------------------------- updateMenuDiskon

  /** `menu_diskon.findUnique({ where: { id } })`: the position of the row. */
  function FindPivot(ps: seq<MenuDiskon>, id: int): (r: Option<nat>)
    ensures r.Some? ==> r.value < |ps| && ps[r.value].id == id
    ensures r.None? ==> forall i :: 0 <= i < |ps| ==> ps[i].id != id
  {
    if ps == [] then None
    else if ps[|ps| - 1].id == id then Some(|ps| - 1)
    else FindPivot(ps[..|ps| - 1], id)
  }

  /** A value supplied in the body replaces the stored one; otherwise the
      stored one is kept. */
  function MergedId(stored: int, x: Input<int>): int {
    if x.Supplied? && x.parsed.Some? then x.parsed.value else stored
  }

  /** Some row other than row `id` already links `idMenu` to `idDiskon`. */
  predicate DuplicateElsewhere(ps: seq<MenuDiskon>, idMenu: int, idDiskon: int, id: int) {
    exists j :: 0 <= j < |ps| && ps[j].idMenu == idMenu && ps[j].idDiskon == idDiskon && ps[j].id != id
  }

  /** What `updateMenuDiskon` requires of the new values once the row and
      the caller's ownership of it are established. */
  predicate RelinkAccepted(s: State, stan: int, p: MenuDiskon, idDiskon: Input<int>, idMenu: Input<int>) {
    !(idDiskon.Undefined? && idMenu.Undefined?) &&
    (idDiskon.Supplied? ==> idDiskon.parsed.Some?) &&
    (idMenu.Supplied? ==> idMenu.parsed.Some?) &&
    MergedId(p.idDiskon, idDiskon) in s.diskons &&
    MergedId(p.idMenu, idMenu) in s.menus && s.menus[MergedId(p.idMenu, idMenu)].idStan == stan &&
    !DuplicateElsewhere(s.menuDiskon, MergedId(p.idMenu, idMenu), MergedId(p.idDiskon, idDiskon), p.id)
  }

  /** The one new value `updateMenuDiskon` refuses with 404: the fields
      sent parse, but the discount they select is not stored. */
  predicate RelinkDiskonMissing(diskons: map<int, Diskon>, p: MenuDiskon, idDiskon: Input<int>, idMenu: Input<int>) {
    !(idDiskon.Undefined? && idMenu.Undefined?) &&
    (idDiskon.Supplied? ==> idDiskon.parsed.Some?) &&
    (idMenu.Supplied? ==> idMenu.parsed.Some?) &&
    MergedId(p.idDiskon, idDiskon) !in diskons
  }

  /** `updateMenuDiskon`: repoints one pivot row of the caller's stand to
      another discount and/or another of the stand's menus. */
  method UpdateMenuDiskon(db: Db, pivotId: Option<int>, user: Option<int>, idDiskon: Input<int>, idMenu: Input<int>)
    returns (r: Reply<MenuDiskon>)
    requires db.Valid()
    modifies db
    ensures db.Valid()
    ensures pivotId.None? ==> r == Fail(BAD_REQUEST)
    ensures pivotId.Some? && !SignedIn(user) ==> r == Fail(UNAUTHORIZED)
    ensures pivotId.Some? && SignedIn(user) && user.value !in old(db.stanOfUser) ==> r == Fail(FORBIDDEN)
    ensures (pivotId.Some? && SignedIn(user) && user.value in old(db.stanOfUser) &&
             FindPivot(old(db.menuDiskon), pivotId.value).None?) ==> r == Fail(NOT_FOUND)
    ensures (pivotId.Some? && SignedIn(user) && user.value in old(db.stanOfUser) &&
             FindPivot(old(db.menuDiskon), pivotId.value).Some? &&
             var p := old(db.menuDiskon)[FindPivot(old(db.menuDiskon), pivotId.value).value];
             !(p.idMenu in old(db.menus) && old(db.menus)[p.idMenu].idStan == old(db.stanOfUser)[user.value])) ==>
      r == Fail(FORBIDDEN)
    ensures (pivotId.Some? && SignedIn(user) && user.value in old(db.stanOfUser) &&
             FindPivot(old(db.menuDiskon), pivotId.value).Some? &&
             var p := old(db.menuDiskon)[FindPivot(old(db.menuDiskon), pivotId.value).value];
             p.idMenu in old(db.menus) && old(db.menus)[p.idMenu].idStan == old(db.stanOfUser)[user.value] &&
             r.Fail?) ==>
      r.code == (if RelinkDiskonMissing(old(db.diskons), old(db.menuDiskon)[FindPivot(old(db.menuDiskon), pivotId.value).value],
                                        idDiskon, idMenu)
                 then NOT_FOUND else BAD_REQUEST)
    ensures r.Fail? ==> r.code in {BAD_REQUEST, UNAUTHORIZED, FORBIDDEN, NOT_FOUND} && db.Snapshot() == old(db.Snapshot())
    ensures r.Ok? <==> (pivotId.Some? && SignedIn(user) && user.value in old(db.stanOfUser) &&
      FindPivot(old(db.menuDiskon), pivotId.value).Some? &&
      var p := old(db.menuDiskon)[FindPivot(old(db.menuDiskon), pivotId.value).value];
      p.idMenu in old(db.menus) && old(db.menus)[p.idMenu].idStan == old(db.stanOfUser)[user.value] &&
      RelinkAccepted(old(db.Snapshot()), old(db.stanOfUser)[user.value], p, idDiskon, idMenu))
    ensures r.Ok? ==>
      var i := FindPivot(old(db.menuDiskon), pivotId.value).value;
      var p := old(db.menuDiskon)[i];
      r.code == OK &&
      r.body == MenuDiskon(pivotId.value, MergedId(p.idMenu, idMenu), MergedId(p.idDiskon, idDiskon)) &&
      db.Snapshot() == old(db.Snapshot()).(menuDiskon := old(db.menuDiskon)[i := r.body])
  {
    if pivotId.None? {
      return Fail(BAD_REQUEST);
    }
    if !SignedIn(user) {
      return Fail(UNAUTHORIZED);
    }
    if user.value !in db.stanOfUser {
      return Fail(FORBIDDEN);
    }
    var stan := db.stanOfUser[user.value];
    var found := FindPivot(db.menuDiskon, pivotId.value);
    if found.None? {
      return Fail(NOT_FOUND);
    }
    var i := found.value;
    var p := db.menuDiskon[i];
    if p.idMenu !in db.menus || db.menus[p.idMenu].idStan != stan {
      return Fail(FORBIDDEN);
    }
    if idDiskon.Undefined? && idMenu.Undefined? {
      return Fail(BAD_REQUEST);
    }
    var newDiskonId := p.idDiskon;
    var newMenuId := p.idMenu;
    if idDiskon.Supplied? {
      if idDiskon.parsed.None? {
        return Fail(BAD_REQUEST);
      }
      newDiskonId := idDiskon.parsed.value;
    }
    if idMenu.Supplied? {
      if idMenu.parsed.None? {
        return Fail(BAD_REQUEST);
      }
      newMenuId := idMenu.parsed.value;
    }
    if newDiskonId !in db.diskons {
      return Fail(NOT_FOUND);
    }
    if newMenuId !in db.menus || db.menus[newMenuId].idStan != stan {
      return Fail(BAD_REQUEST);
    }
    if DuplicateElsewhere(db.menuDiskon, newMenuId, newDiskonId, pivotId.value) {
      return Fail(BAD_REQUEST);
    }
    var updated := MenuDiskon(pivotId.value, newMenuId, newDiskonId);
    RelinkKeepsPivots(db.menuDiskon, db.menus, db.diskons, db.nextPivotId, i, updated);
    db.menuDiskon := db.menuDiskon[i := updated];
    r := Ok(OK, updated);
  }

  /** Replacing row `i` by a row with the same id whose pair occurs in no
      other row keeps the pivot table consistent. */
  lemma RelinkKeepsPivots(ps: seq<MenuDiskon>, menus: map<int, Menu>, diskons: map<int, Diskon>, next: int,
                          i: nat, q: MenuDiskon)
    requires PivotsOk(ps, menus, diskons, next)
    requires i < |ps| && q.id == ps[i].id && q.idMenu in menus && q.idDiskon in diskons
    requires !DuplicateElsewhere(ps, q.idMenu, q.idDiskon, q.id)
    ensures PivotsOk(ps[i := q], menus, diskons, next)
  {
    var r := ps[i := q];
    forall a, b | 0 <= a < b < |r| ensures r[a].idMenu != r[b].idMenu || r[a].idDiskon != r[b].idDiskon {
      if a == i {
        assert ps[b].id != q.id;
      } else if b == i {
        assert ps[a].id != q.id;
      }
    }
  }

  // ------------------------------------------------------- deleteMenuDiskon

  /** `deleteMenuDiskon`: removes one pivot row whose menu belongs to the
      caller's stand.  `id` is `None` when `Number(id)` is not an integer. */
  method DeleteMenuDiskon(db: Db, id: Option<int>, user: Option<int>) returns (r: Reply<MenuDiskon>)
    requires db.Valid()
    modifies db
    ensures db.Valid()
    ensures id.None? || id.value <= 0 ==> r == Fail(BAD_REQUEST)
    ensures id.Some? && id.value > 0 && !SignedIn(user) ==> r == Fail(UNAUTHORIZED)
    ensures id.Some? && id.value > 0 && SignedIn(user) && FindPivot(old(db.menuDiskon), id.value).None? ==>
      r == Fail(NOT_FOUND)
    ensures (id.Some? && id.value > 0 && SignedIn(user) && FindPivot(old(db.menuDiskon), id.value).Some? &&
             var p := old(db.menuDiskon)[FindPivot(old(db.menuDiskon), id.value).value];
             !(p.idMenu in old(db.menus) && user.value in old(db.stanOfUser) &&
               old(db.stanOfUser)[user.value] == old(db.menus)[p.idMenu].idStan)) ==>
      r == Fail(FORBIDDEN)
    ensures r.Fail? ==> r.code in {BAD_REQUEST, UNAUTHORIZED, FORBIDDEN, NOT_FOUND} && db.Snapshot() == old(db.Snapshot())
    ensures r.Ok? <==> (id.Some? && id.value > 0 && SignedIn(user) &&
      FindPivot(old(db.menuDiskon), id.value).Some? &&
      var p := old(db.menuDiskon)[FindPivot(old(db.menuDiskon), id.value).value];
      p.idMenu in old(db.menus) && user.value in old(db.stanOfUser) &&
      old(db.stanOfUser)[user.value] == old(db.menus)[p.idMenu].idStan)
    ensures r.Ok? ==>
      r.code == OK && r.body in old(db.menuDiskon) && r.body.id == id.value &&
      db.Snapshot() == old(db.Snapshot()).(menuDiskon := Filter(old(db.menuDiskon), NotPivot(id.value)))
    ensures r.Ok? ==> forall q :: q in db.menuDiskon <==> q in old(db.menuDiskon) && q.id != id.value
  {
    if id.None? || id.value <= 0 {
      return Fail(BAD_REQUEST);
    }
    if !SignedIn(user) {
      return Fail(UNAUTHORIZED);
    }
    var found := FindPivot(db.menuDiskon, id.value);
    if found.None? {
      return Fail(NOT_FOUND);
    }
    var p := db.menuDiskon[found.value];
    if p.idMenu !in db.menus || user.value !in db.stanOfUser || db.stanOfUser[user.value] != db.menus[p.idMenu].idStan {
      return Fail(FORBIDDEN);
    }
    FilterPivots(db.menuDiskon, NotPivot(id.value), db.menus, db.diskons, db.diskons, db.nextPivotId);
    forall q ensures q in Filter(db.menuDiskon, NotPivot(id.value)) <==> q in db.menuDiskon && q.id != id.value {
      FilterMember(db.menuDiskon, NotPivot(id.value), q);
    }
    db.menuDiskon := Filter(db.menuDiskon, NotPivot(id.value));
    r := Ok(OK, p);
  }

  // -------------------------------------------------------- getDiskonByStan

  /** The (discount id, discount) pair each row gives `map.set`. */
  function DiskonPairs(ps: seq<MenuDiskon>, diskons: map<int, Diskon>): (e: seq<(int, Diskon)>)
    requires forall i :: 0 <= i < |ps| ==> ps[i].idDiskon in diskons
    ensures |e| == |ps|
    ensures forall i :: 0 <= i < |ps| ==> e[i] == (ps[i].idDiskon, diskons[ps[i].idDiskon])
  {
    seq(|ps|, i requires 0 <= i < |ps| && ps[i].idDiskon in diskons => (ps[i].idDiskon, diskons[ps[i].idDiskon]))
  }

  /** The discounts of stand `stan`, one per id, in the order their first
      linking row is listed. */
  function StanDiskons(s: State, stan: int): seq<Diskon>
    requires Consistent(s)
  {
    FilterPivots(s.menuDiskon, OfStan(s.menus, stan), s.menus, s.diskons, s.diskons, s.nextPivotId);
    MapValues(DiskonPairs(Filter(s.menuDiskon, OfStan(s.menus, stan)), s.diskons))
  }

  /** Some row of `ps` links discount `k`. */
  predicate LinksDiskon(ps: seq<MenuDiskon>, k: int) {
    exists i :: 0 <= i < |ps| && ps[i].idDiskon == k
  }

  /** Every pair `map.set` receives holds the discount stored under its
      key, so whichever pair wins, the map holds the stored discount. */
  lemma {:induction false} DiskonPairsLast(ps: seq<MenuDiskon>, diskons: map<int, Diskon>)
    requires forall i :: 0 <= i < |ps| ==> ps[i].idDiskon in diskons
    ensures forall k :: k in LastMap(DiskonPairs(ps, diskons)) ==>
      k in diskons && LastMap(DiskonPairs(ps, diskons))[k] == diskons[k]
  {
    var e := DiskonPairs(ps, diskons);
    forall k | k in LastMap(e) ensures k in diskons && LastMap(e)[k] == diskons[k] {
      LastWins(e, k);
      var j :| IsLastFor(e, k, j) && LastMap(e)[k] == e[j].1;
    }
  }

  /** Position `i` of the de-duplicated list holds the stored discount of
      the `i`-th key. */
  lemma DiskonDedupValues(ps: seq<MenuDiskon>, diskons: map<int, Diskon>)
    requires forall i :: 0 <= i < |ps| ==> ps[i].idDiskon in diskons
    requires forall k :: k in diskons ==> diskons[k].id == k
    ensures var ks := KeyOrder(DiskonPairs(ps, diskons)); var vs := MapValues(DiskonPairs(ps, diskons));
      |vs| == |ks| &&
      forall i :: 0 <= i < |vs| ==> ks[i] in diskons && vs[i] == diskons[ks[i]] && vs[i].id == ks[i]
  {
    var e := DiskonPairs(ps, diskons);
    var ks := KeyOrder(e);
    KeyOrderFacts(e);
    KeyOrderInMap(e);
    DiskonPairsLast(ps, diskons);
  }

  /** Every listed discount is stored under its id and linked by a row. */
  lemma DiskonDedupSound(ps: seq<MenuDiskon>, diskons: map<int, Diskon>, d: Diskon)
    requires forall i :: 0 <= i < |ps| ==> ps[i].idDiskon in diskons
    requires forall k :: k in diskons ==> diskons[k].id == k
    requires d in MapValues(DiskonPairs(ps, diskons))
    ensures d.id in diskons && diskons[d.id] == d && LinksDiskon(ps, d.id)
  {
    var e := DiskonPairs(ps, diskons);
    var vs := MapValues(e);
    var ks := KeyOrder(e);
    KeyOrderFacts(e);
    DiskonDedupValues(ps, diskons);
    var i :| 0 <= i < |vs| && vs[i] == d;
    assert ks[i] in ks;
    assert ks[i] in KeysOf(e);
    var j :| 0 <= j < |e| && e[j].0 == ks[i];
    assert ps[j].idDiskon == d.id;
  }

  /** Every stored discount linked by a row is listed. */
  lemma DiskonDedupComplete(ps: seq<MenuDiskon>, diskons: map<int, Diskon>, d: Diskon)
    requires forall i :: 0 <= i < |ps| ==> ps[i].idDiskon in diskons
    requires forall k :: k in diskons ==> diskons[k].id == k
    requires d.id in diskons && diskons[d.id] == d && LinksDiskon(ps, d.id)
    ensures d in MapValues(DiskonPairs(ps, diskons))
  {
    var e := DiskonPairs(ps, diskons);
    var vs := MapValues(e);
    var ks := KeyOrder(e);
    KeyOrderFacts(e);
    DiskonDedupValues(ps, diskons);
    var j :| 0 <= j < |ps| && ps[j].idDiskon == d.id;
    assert e[j].0 == d.id;
    assert d.id in KeysOf(e);
    var i :| 0 <= i < |ks| && ks[i] == d.id;
    assert vs[i] == d;
  }

  /** The de-duplicated list holds each discount linked by some row exactly
      once, and nothing else. */
  lemma DiskonDedup(ps: seq<MenuDiskon>, diskons: map<int, Diskon>)
    requires forall i :: 0 <= i < |ps| ==> ps[i].idDiskon in diskons
    requires forall k :: k in diskons ==> diskons[k].id == k
    ensures var vs := MapValues(DiskonPairs(ps, diskons));
      (forall i, j :: 0 <= i < j < |vs| ==> vs[i].id != vs[j].id) &&
      (forall d :: d in vs <==> d.id in diskons && diskons[d.id] == d && LinksDiskon(ps, d.id))
  {
    var e := DiskonPairs(ps, diskons);
    KeyOrderFacts(e);
    DiskonDedupValues(ps, diskons);
    forall d: Diskon | d in MapValues(e) ensures d.id in diskons && diskons[d.id] == d && LinksDiskon(ps, d.id) {
      DiskonDedupSound(ps, diskons, d);
    }
    forall d: Diskon | d.id in diskons && diskons[d.id] == d && LinksDiskon(ps, d.id) ensures d in MapValues(e) {
      DiskonDedupComplete(ps, diskons, d);
    }
  }

  /** `getDiskonByStan`: the discounts linked to menus of the caller's
      stand, de-duplicated through a `Map` filled in a loop. */
  method GetDiskonByStan(s: State, user: Option<int>) returns (r: Reply<seq<Diskon>>)
    requires Consistent(s)
    ensures !SignedIn(user) ==> r == Fail(UNAUTHORIZED)
    ensures SignedIn(user) && user.value !in s.stanOfUser ==> r == Fail(FORBIDDEN)
    ensures SignedIn(user) && user.value in s.stanOfUser ==> r == Ok(OK, StanDiskons(s, s.stanOfUser[user.value]))
  {
    if !SignedIn(user) {
      return Fail(UNAUTHORIZED);
    }
    if user.value !in s.stanOfUser {
      return Fail(FORBIDDEN);
    }
    var stan := s.stanOfUser[user.value];
    var relasi := Filter(s.menuDiskon, OfStan(s.menus, stan));
    FilterPivots(s.menuDiskon, OfStan(s.menus, stan), s.menus, s.diskons, s.diskons, s.nextPivotId);
    ghost var e := DiskonPairs(relasi, s.diskons);
    var m := new OrderedMap<Diskon>();
    for i := 0 to |relasi|
      invariant m.Valid()
      invariant m.keys == KeyOrder(e[..i]) && m.entries == LastMap(e[..i])
    {
      assert e[..i + 1] == e[..i] + [e[i]];
      StepSet(e[..i], relasi[i].idDiskon, s.diskons[relasi[i].idDiskon]);
      m.Set(relasi[i].idDiskon, s.diskons[relasi[i].idDiskon]);
    }
    assert e[..|relasi|] == e;
    r := Ok(OK, m.Values());
  }

  /** What the stand's discount list holds: each discount linked to a menu
      of the stand, once. */
  lemma StanDiskonsSpec(s: State, stan: int)
    requires Consistent(s)
    ensures var vs := StanDiskons(s, stan);
      (forall i, j :: 0 <= i < j < |vs| ==> vs[i].id != vs[j].id) &&
      (forall d :: d in vs <==> d.id in s.diskons && s.diskons[d.id] == d &&
                                LinksDiskon(Filter(s.menuDiskon, OfStan(s.menus, stan)), d.id))
  {
    FilterPivots(s.menuDiskon, OfStan(s.menus, stan), s.menus, s.diskons, s.diskons, s.nextPivotId);
    DiskonDedup(Filter(s.menuDiskon, OfStan(s.menus, stan)), s.diskons);
  }

  // --------------------------------------- getMenuDiskonByStan / ...Siswa

  /** One entry of a discount listing. */
  datatype PivotRow = PivotRow(id: int, menu: Menu, diskon: Diskon, hargaSetelahDiskon: real, status: DiscountStatus)

  /** The listing entry of a pivot row: price after the discount and the
      discount's label at time `now`. */
  function RowOf(p: MenuDiskon, menus: map<int, Menu>, diskons: map<int, Diskon>, now: int): PivotRow
    requires p.idMenu in menus && p.idDiskon in diskons
  {
    var m := menus[p.idMenu];
    var d := diskons[p.idDiskon];
    PivotRow(p.id, m, d, PriceAfterDiscount(m.harga, d.persen), Classify(d, now))
  }

  /** `relasi.map(...)`. */
  function Rows(ps: seq<MenuDiskon>, menus: map<int, Menu>, diskons: map<int, Diskon>, now: int): (rows: seq<PivotRow>)
    requires PivotsReference(ps, menus, diskons)
    ensures |rows| == |ps|
    ensures forall i :: 0 <= i < |ps| ==> rows[i] == RowOf(ps[i], menus, diskons, now)
  {
    seq(|ps|, i requires 0 <= i < |ps| && ps[i].idMenu in menus && ps[i].idDiskon in diskons =>
      RowOf(ps[i], menus, diskons, now))
  }

  /** The rows of `ps` that pass `keep`, listed by id descending
      (`findMany({ where, orderBy: { id: "desc" } })` then `map`). */
  function Listing(s: State, keep: MenuDiskon -> bool, now: int): seq<PivotRow>
    requires Consistent(s)
  {
    FilterPivots(s.menuDiskon, keep, s.menus, s.diskons, s.diskons, s.nextPivotId);
    Rows(Reverse(Filter(s.menuDiskon, keep)), s.menus, s.diskons, now)
  }

  /** `row` is the entry of pivot row `p`, which passes `keep`. */
  predicate RowFrom(s: State, keep: MenuDiskon -> bool, now: int, row: PivotRow, p: MenuDiskon) {
    p in s.menuDiskon && keep(p) && p.idMenu in s.menus && p.idDiskon in s.diskons &&
    row == RowOf(p, s.menus, s.diskons, now)
  }

  predicate IdsDescending(rows: seq<PivotRow>) {
    forall i, j :: 0 <= i < j < |rows| ==> rows[i].id > rows[j].id
  }

  /** `row` is the entry of some pivot row passing `keep`. */
  ghost predicate HasSource(s: State, keep: MenuDiskon -> bool, now: int, row: PivotRow) {
    exists p :: RowFrom(s, keep, now, row, p)
  }

  /** Every entry is that of a pivot row passing `keep`. */
  ghost predicate ListingSound(s: State, keep: MenuDiskon -> bool, now: int, rows: seq<PivotRow>) {
    forall i :: 0 <= i < |rows| ==> HasSource(s, keep, now, rows[i])
  }

  /** Every pivot row passing `keep` has its entry. */
  predicate ListingComplete(s: State, keep: MenuDiskon -> bool, now: int, rows: seq<PivotRow>) {
    forall p :: p in s.menuDiskon && keep(p) ==>
      (p.idMenu in s.menus && p.idDiskon in s.diskons && RowOf(p, s.menus, s.diskons, now) in rows)
  }

  /** A listing is ordered by strictly descending pivot id and holds an
      entry for exactly the rows that pass the filter. */
  lemma ListingSpec(s: State, keep: MenuDiskon -> bool, now: int)
    requires Consistent(s)
    ensures IdsDescending(Listing(s, keep, now))
    ensures ListingSound(s, keep, now, Listing(s, keep, now))
    ensures ListingComplete(s, keep, now, Listing(s, keep, now))
  {
    var f := Filter(s.menuDiskon, keep);
    FilterPivots(s.menuDiskon, keep, s.menus, s.diskons, s.diskons, s.nextPivotId);
    var rev := Reverse(f);
    var rows := Listing(s, keep, now);
    assert rows == Rows(rev, s.menus, s.diskons, now);
    forall i | 0 <= i < |rows| ensures HasSource(s, keep, now, rows[i]) {
      assert f[|f| - 1 - i] in f;
      FilterMember(s.menuDiskon, keep, f[|f| - 1 - i]);
      assert RowFrom(s, keep, now, rows[i], f[|f| - 1 - i]);
    }
    assert ListingSound(s, keep, now, rows);
    forall p | p in s.menuDiskon && keep(p)
      ensures p.idMenu in s.menus && p.idDiskon in s.diskons && RowOf(p, s.menus, s.diskons, now) in rows
    {
      FilterMember(s.menuDiskon, keep, p);
      var k :| 0 <= k < |f| && f[k] == p;
      assert rev[|f| - 1 - k] == p;
      assert rows[|f| - 1 - k] == RowOf(p, s.menus, s.diskons, now);
    }
  }

  /** `getMenuDiskonByStan`: every pivot row of the caller's stand with its
      price after discount and its label. */
  function GetMenuDiskonByStan(s: State, user: Option<int>, now: int): Reply<seq<PivotRow>>
    requires Consistent(s)
  {
    if !SignedIn(user) then Fail(UNAUTHORIZED)
    else if user.value !in s.stanOfUser then Fail(FORBIDDEN)
    else Ok(OK, Listing(s, OfStan(s.menus, s.stanOfUser[user.value]), now))
  }

  /** The stand listing: by descending pivot id, only the caller's stand's
      rows and all of them, each labelled by its discount's window. */
  lemma MenuDiskonByStanSpec(s: State, user: Option<int>, now: int)
    requires Consistent(s)
    ensures !SignedIn(user) ==> GetMenuDiskonByStan(s, user, now) == Fail(UNAUTHORIZED)
    ensures SignedIn(user) && user.value !in s.stanOfUser ==> GetMenuDiskonByStan(s, user, now) == Fail(FORBIDDEN)
    ensures GetMenuDiskonByStan(s, user, now).Ok? ==>
      var rows := GetMenuDiskonByStan(s, user, now).body;
      var stan := s.stanOfUser[user.value];
      IdsDescending(rows) && ListingComplete(s, OfStan(s.menus, stan), now, rows) &&
      forall i :: 0 <= i < |rows| ==>
        rows[i].menu.idStan == stan && (rows[i].status == Aktif <==> IsActive(rows[i].diskon, now))
  {
    if SignedIn(user) && user.value in s.stanOfUser {
      var stan := s.stanOfUser[user.value];
      var rows := Listing(s, OfStan(s.menus, stan), now);
      ListingSpec(s, OfStan(s.menus, stan), now);
      forall i | 0 <= i < |rows| ensures rows[i].menu.idStan == stan {
        assert HasSource(s, OfStan(s.menus, stan), now, rows[i]);
        var p :| RowFrom(s, OfStan(s.menus, stan), now, rows[i], p);
      }
    }
  }

  /** The query string of `getMenuDiskonSiswa`.  `stanId` is `Undefined`
      when `stan_id` is absent or empty; `jenis` and `search` are `None`
      when absent. */
  datatype SiswaQuery = SiswaQuery(stanId: Input<int>, jenis: Option<string>, search: Option<string>)

  function JenisName(j: Jenis): string {
    match j
    case Makanan => "makanan"
    case Minuman => "minuman"
  }

  /** The search term after `trim()`; empty when absent. */
  function SearchTerm(q: SiswaQuery): string {
    if q.search.Some? then Text.Trim(q.search.value) else ""
  }

  /** The menu conditions of the query: the stand, the kind, and a name
      containing the search term as written (`contains` without a mode). */
  predicate MenuMatches(m: Menu, q: SiswaQuery) {
    (q.stanId.Supplied? && q.stanId.parsed.Some? ==> m.idStan == q.stanId.parsed.value) &&
    (q.jenis.Some? && q.jenis.value != "" ==> JenisName(m.jenis) == q.jenis.value) &&
    (SearchTerm(q) != "" ==> Text.Contains(m.nama, SearchTerm(q)))
  }

  /** The rows a student sees: the discount is active at `now` and the
      menu matches the query. */
  function SiswaSees(s: State, q: SiswaQuery, now: int): MenuDiskon -> bool {
    (p: MenuDiskon) => p.idDiskon in s.diskons && IsActive(s.diskons[p.idDiskon], now) &&
         p.idMenu in s.menus && MenuMatches(s.menus[p.idMenu], q)
  }

  /** `getMenuDiskonSiswa`: the active discounted menus, filtered by the
      query. */
  function GetMenuDiskonSiswa(s: State, q: SiswaQuery, now: int): Reply<seq<PivotRow>>
    requires Consistent(s)
  {
    if q.stanId.Supplied? && (q.stanId.parsed.None? || q.stanId.parsed.value <= 0) then Fail(BAD_REQUEST)
    else if q.jenis.Some? && q.jenis.value != "" && q.jenis.value != "makanan" && q.jenis.value != "minuman" then
      Fail(BAD_REQUEST)
    else Ok(OK, Listing(s, SiswaSees(s, q, now), now))
  }

  /** The student listing rejects a bad stand id or kind; otherwise it
      shows, by descending pivot id, exactly the matching rows whose
      discount is active, every one of which the stand listing labels
      `aktif` and prices no higher than the menu. */
  lemma MenuDiskonSiswaSpec(s: State, q: SiswaQuery, now: int)
    requires Consistent(s)
    ensures GetMenuDiskonSiswa(s, q, now).Fail? <==>
      (q.stanId.Supplied? && (q.stanId.parsed.None? || q.stanId.parsed.value <= 0)) ||
      (q.jenis.Some? && q.jenis.value !in {"", "makanan", "minuman"})
    ensures GetMenuDiskonSiswa(s, q, now).Ok? ==>
      var rows := GetMenuDiskonSiswa(s, q, now).body;
      IdsDescending(rows) && ListingComplete(s, SiswaSees(s, q, now), now, rows) &&
      forall i :: 0 <= i < |rows| ==>
        rows[i].status == Aktif && MenuMatches(rows[i].menu, q) &&
        (0.0 <= rows[i].menu.harga ==> rows[i].hargaSetelahDiskon <= rows[i].menu.harga)
  {
    if GetMenuDiskonSiswa(s, q, now).Ok? {
      var keep := SiswaSees(s, q, now);
      var rows := Listing(s, keep, now);
      ListingSpec(s, keep, now);
      forall i | 0 <= i < |rows|
        ensures rows[i].status == Aktif && MenuMatches(rows[i].menu, q)
        ensures 0.0 <= rows[i].menu.harga ==> rows[i].hargaSetelahDiskon <= rows[i].menu.harga
      {
        assert HasSource(s, keep, now, rows[i]);
        var p :| RowFrom(s, keep, now, rows[i], p);
        assert DiskonWellFormed(s.diskons[p.idDiskon]);
        if 0.0 <= rows[i].menu.harga {
          PriceAfterDiscountBounds(rows[i].menu.harga, rows[i].diskon.persen);
        }
      }
    }
  }
}
