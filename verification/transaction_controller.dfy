/** `createTransaksiSiswa` of backend/src/controllers/transaksiController.ts:
    a student orders menus of one stand; each line is priced with the
    largest discount active at `now`, the grand total is accumulated line by
    line, and the order header and its detail rows are written in one
    database transaction. */
module TransactionController {
  import opened Wrappers
  import opened Seqs
  import opened Tables
  import opened DiscountRules

  // ------------------------------------------------------------- request

  /** The `id_menu` of an item as it arrives in the JSON body: a number, or
      some other value (a string, null, ...) together with what `Number(..)`
      makes of it (`None` for NaN). */
  datatype RawId = Num(n: int) | Other(parsed: Option<int>)

  /** `Number(it.id_menu)`. */
  function NumberOf(x: RawId): Option<int> {
    match x
    case Num(n) => Some(n)
    case Other(p) => p
  }

  datatype Item = Item(idMenu: RawId, qty: int)

  /** `items.map((it) => Number(it.id_menu))`. */
  function MenuIds(items: seq<Item>): (ids: seq<Option<int>>)
    ensures |ids| == |items|
    ensures forall i :: 0 <= i < |items| ==> ids[i] == NumberOf(items[i].idMenu)
  {
    seq(|items|, i requires 0 <= i < |items| => NumberOf(items[i].idMenu))
  }

  /** The ids of the menu table, as the values `Number(..)` produces. */
  function MenuKeys(menus: map<int, Menu>): set<Option<int>> {
    set k | k in menus :: Some(k)
  }

  lemma MenuKeysMember(menus: map<int, Menu>, o: Option<int>)
    requires o.Some? && o.value in menus
    ensures o in MenuKeys(menus)
  {
    var k := o.value;
    assert Some(k) in MenuKeys(menus);
  }

  /** `menus.length` after `findMany({ where: { id: { in: menuIds } } })`:
      each stored menu whose id is requested is found once. */
  function FoundCount(menus: map<int, Menu>, ids: seq<Option<int>>): int {
    |ToSet(ids) * MenuKeys(menus)|
  }

  /** Every requested id is a number naming a stored menu. */
  predicate AllFound(menus: map<int, Menu>, ids: seq<Option<int>>) {
    forall i :: 0 <= i < |ids| ==> ids[i].Some? && ids[i].value in menus
  }

  /** The count check passes exactly when the ids are pairwise distinct
      and each names a stored menu: an unknown or non-numeric id, and a
      repeated id, are all rejected; repeated ids are not merged. */
  lemma FoundCountSpec(menus: map<int, Menu>, ids: seq<Option<int>>)
    ensures FoundCount(menus, ids) == |ids| <==> Distinct(ids) && AllFound(menus, ids)
  {
    CountFound(ids, MenuKeys(menus));
    if ToSet(ids) <= MenuKeys(menus) {
      forall i | 0 <= i < |ids| ensures ids[i].Some? && ids[i].value in menus {
        assert ids[i] in ToSet(ids);
      }
    }
    if AllFound(menus, ids) {
      forall o | o in ToSet(ids) ensures o in MenuKeys(menus) {
        var i :| 0 <= i < |ids| && ids[i] == o;
        MenuKeysMember(menus, o);
      }
    }
  }

  /** The stand of the menu an id names, if it names one. */
  function StanOf(menus: map<int, Menu>, id: Option<int>): Option<int> {
    if id.Some? && id.value in menus then Some(menus[id.value].idStan) else None
  }

  /** `!menus.some((m) => m.id_stan !== firstStanId)`: all found menus come
      from one stand. */
  predicate SameStan(menus: map<int, Menu>, ids: seq<Option<int>>) {
    forall i, j :: 0 <= i < |ids| && 0 <= j < |ids| ==> StanOf(menus, ids[i]) == StanOf(menus, ids[j])
  }

  /** The order is priced with `menus.find((m) => m.id === item.id_menu)`,
      which compares without conversion: it finds a menu only for an id
      sent as a number. */
  predicate AllNumbers(items: seq<Item>) {
    forall i :: 0 <= i < |items| ==> items[i].idMenu.Num?
  }

  /** The status `createTransaksiSiswa` refuses a request with, checking in
      its order; `None` when the order is placed.  `items` is `None` when
      the field is missing or not an array.  An id that is found but was
      not sent as a number makes the pricing loop dereference `undefined`,
      which the handler's `catch` turns into 500. */
  function OrderRefusal(s: State, user: Option<int>, items: Option<seq<Item>>): Option<int> {
    if !SignedIn(user) then Some(UNAUTHORIZED)
    else if user.value !in s.siswaOfUser then Some(FORBIDDEN)
    else if items.None? || items.value == [] then Some(BAD_REQUEST)
    else if FoundCount(s.menus, MenuIds(items.value)) != |items.value| then Some(BAD_REQUEST)
    else if !SameStan(s.menus, MenuIds(items.value)) then Some(BAD_REQUEST)
    else if !AllNumbers(items.value) then Some(SERVER_ERROR)
    else None
  }

  /** What an order must satisfy to be placed. */
  predicate OrderAccepted(s: State, user: Option<int>, items: Option<seq<Item>>) {
    SignedIn(user) && user.value in s.siswaOfUser &&
    items.Some? && items.value != [] &&
    AllNumbers(items.value) && AllFound(s.menus, MenuIds(items.value)) &&
    Distinct(MenuIds(items.value)) && SameStan(s.menus, MenuIds(items.value))
  }

  /** An order is placed exactly when the caller is a signed-in student,
      the list is non-empty, every id is a distinct number naming a stored
      menu, and all those menus belong to one stand; a caller who is not
      signed in gets 401, one without a student record 403. */
  lemma OrderRefusalSpec(s: State, user: Option<int>, items: Option<seq<Item>>)
    ensures OrderRefusal(s, user, items).None? <==> OrderAccepted(s, user, items)
    ensures OrderRefusal(s, user, items).Some? ==>
      OrderRefusal(s, user, items).value in {UNAUTHORIZED, FORBIDDEN, BAD_REQUEST, SERVER_ERROR}
    ensures OrderRefusal(s, user, items) == Some(SERVER_ERROR) ==>
      AllFound(s.menus, MenuIds(items.value)) && !AllNumbers(items.value)
  {
    if items.Some? {
      FoundCountSpec(s.menus, MenuIds(items.value));
    }
  }

  /** `firstStanId`: the stand of the first menu ordered. */
  function OrderStan(s: State, items: seq<Item>): int
    requires items != [] && AllFound(s.menus, MenuIds(items))
  {
    s.menus[NumberOf(items[0].idMenu).value].idStan
  }

  /** The stand recorded on an accepted order is the stand of every menu in
      it. */
  lemma OrderStanSpec(s: State, user: Option<int>, items: Option<seq<Item>>)
    requires OrderAccepted(s, user, items)
    ensures forall i :: 0 <= i < |items.value| ==>
      s.menus[NumberOf(items.value[i].idMenu).value].idStan == OrderStan(s, items.value)
  {
    var ids := MenuIds(items.value);
    forall i | 0 <= i < |items.value|
      ensures s.menus[NumberOf(items.value[i].idMenu).value].idStan == OrderStan(s, items.value)
    {
      assert StanOf(s.menus, ids[i]) == StanOf(s.menus, ids[0]);
    }
  }

  // ------------------------------------------------------- discount choice

  /** The percentages of the discounts linked to menu `m` that are active at
      `now`, in pivot order (`menu.menu_diskon.filter(..)`). */
  function ActivePercents(ps: seq<MenuDiskon>, diskons: map<int, Diskon>, m: int, now: int): seq<real> {
    if ps == [] then []
    else
      var rest := ActivePercents(ps[1..], diskons, m, now);
      if ActiveLink(ps[0], diskons, m, now) then [diskons[ps[0].idDiskon].persen] + rest else rest
  }

  /** Pivot row `p` links menu `m` to a discount active at `now`. */
  predicate ActiveLink(p: MenuDiskon, diskons: map<int, Diskon>, m: int, now: int) {
    p.idMenu == m && p.idDiskon in diskons && IsActive(diskons[p.idDiskon], now)
  }

  /** The percentage of some discount linked to `m` and active at `now`. */
  ghost predicate ActivePercent(ps: seq<MenuDiskon>, diskons: map<int, Diskon>, m: int, now: int, x: real) {
    exists i :: 0 <= i < |ps| && ActiveLink(ps[i], diskons, m, now) && diskons[ps[i].idDiskon].persen == x
  }

  /** The list holds the percentage of every active linked discount and
      nothing else. */
  lemma {:induction false} ActivePercentsSpec(ps: seq<MenuDiskon>, diskons: map<int, Diskon>, m: int, now: int)
    ensures forall x :: x in ActivePercents(ps, diskons, m, now) <==> ActivePercent(ps, diskons, m, now, x)
  {
    if ps != [] {
      ActivePercentsSpec(ps[1..], diskons, m, now);
      forall x | ActivePercent(ps[1..], diskons, m, now, x) ensures ActivePercent(ps, diskons, m, now, x) {
        var i :| 0 <= i < |ps[1..]| && ActiveLink(ps[1..][i], diskons, m, now) && diskons[ps[1..][i].idDiskon].persen == x;
        assert ps[i + 1] == ps[1..][i];
      }
      forall x | ActivePercent(ps, diskons, m, now, x) ensures x in ActivePercents(ps, diskons, m, now) {
        var i :| 0 <= i < |ps| && ActiveLink(ps[i], diskons, m, now) && diskons[ps[i].idDiskon].persen == x;
        if i > 0 {
          assert ps[1..][i - 1] == ps[i];
          assert ActivePercent(ps[1..], diskons, m, now, x);
        }
      }
    }
  }

  /** `diskonAktif.sort((a, b) => b.persen - a.persen)[0]`, or 0 when no
      discount is active: the largest percentage. */
  function BestPercent(xs: seq<real>): real {
    if xs == [] then 0.0
    else
      var rest := BestPercent(xs[1..]);
      if xs[1..] == [] || rest < xs[0] then xs[0] else rest
  }

  /** The chosen percentage is one of the active ones and at least as large
      as each of them; with none active it is 0. */
  lemma {:induction false} BestPercentSpec(xs: seq<real>)
    ensures xs == [] ==> BestPercent(xs) == 0.0
    ensures xs != [] ==> BestPercent(xs) in xs
    ensures forall x :: x in xs ==> x <= BestPercent(xs)
  {
    if xs != [] {
      BestPercentSpec(xs[1..]);
      assert xs == [xs[0]] + xs[1..];
    }
  }

  /** The discount percentage applied to menu `m` on an order at `now`. */
  function AppliedPercent(s: State, m: int, now: int): real {
    BestPercent(ActivePercents(s.menuDiskon, s.diskons, m, now))
  }

  /** In a consistent database the applied percentage is 0 exactly when no
      linked discount is active; otherwise it is the percentage of an
      active linked discount and no active linked discount is larger. */
  lemma AppliedPercentSpec(s: State, m: int, now: int)
    requires Consistent(s)
    ensures 0.0 <= AppliedPercent(s, m, now) <= 100.0
    ensures AppliedPercent(s, m, now) == 0.0 <==>
      forall i :: 0 <= i < |s.menuDiskon| ==> !ActiveLink(s.menuDiskon[i], s.diskons, m, now)
    ensures AppliedPercent(s, m, now) != 0.0 ==> ActivePercent(s.menuDiskon, s.diskons, m, now, AppliedPercent(s, m, now))
    ensures forall i :: 0 <= i < |s.menuDiskon| && ActiveLink(s.menuDiskon[i], s.diskons, m, now) ==>
      s.diskons[s.menuDiskon[i].idDiskon].persen <= AppliedPercent(s, m, now)
  {
    var xs := ActivePercents(s.menuDiskon, s.diskons, m, now);
    ActivePercentsSpec(s.menuDiskon, s.diskons, m, now);
    BestPercentSpec(xs);
    forall i | 0 <= i < |s.menuDiskon| && ActiveLink(s.menuDiskon[i], s.diskons, m, now)
      ensures s.diskons[s.menuDiskon[i].idDiskon].persen in xs
    {
      assert ActivePercent(s.menuDiskon, s.diskons, m, now, s.diskons[s.menuDiskon[i].idDiskon].persen);
    }
    if xs != [] {
      var x := BestPercent(xs);
      assert ActivePercent(s.menuDiskon, s.diskons, m, now, x);
      var i :| 0 <= i < |s.menuDiskon| && ActiveLink(s.menuDiskon[i], s.diskons, m, now) &&
               s.diskons[s.menuDiskon[i].idDiskon].persen == x;
      assert DiskonWellFormed(s.diskons[s.menuDiskon[i].idDiskon]);
    }
  }

  // ---------------------------------------------------------------- price

  /** `persenDiskon > 0 ? hargaAsli - hargaAsli * (persenDiskon / 100) : hargaAsli`. */
  function UnitPrice(harga: real, persen: real): real {
    if persen > 0.0 then PriceAfterDiscount(harga, persen) else harga
  }

  /** For a price that is not negative and a percentage of at most 100 the
      unit price lies between 0 and the list price, and a larger discount
      never gives a higher price. */
  lemma UnitPriceSpec(harga: real, p: real, q: real)
    requires 0.0 <= harga && p <= q <= 100.0
    ensures 0.0 <= UnitPrice(harga, q) <= harga
    ensures p <= 0.0 ==> UnitPrice(harga, p) == harga
    ensures UnitPrice(harga, q) <= UnitPrice(harga, p)
  {
    if q > 0.0 {
      PriceAfterDiscountBounds(harga, q);
      if p > 0.0 {
        MulMonotone(harga, p / 100.0, q / 100.0);
      }
    }
  }

  /** The unit price of menu `m` on an order at `now`. */
  function LinePrice(s: State, m: int, now: int): real
    requires m in s.menus
  {
    UnitPrice(s.menus[m].harga, AppliedPercent(s, m, now))
  }

  /** The line price is never above the list price nor below 0, equals the
      list price when no discount is active, and is the lowest price any
      active linked discount would give. */
  lemma LinePriceSpec(s: State, m: int, now: int)
    requires Consistent(s) && m in s.menus && 0.0 <= s.menus[m].harga
    ensures 0.0 <= LinePrice(s, m, now) <= s.menus[m].harga
    ensures (forall i :: 0 <= i < |s.menuDiskon| ==> !ActiveLink(s.menuDiskon[i], s.diskons, m, now)) ==>
      LinePrice(s, m, now) == s.menus[m].harga
    ensures forall i :: 0 <= i < |s.menuDiskon| && ActiveLink(s.menuDiskon[i], s.diskons, m, now) ==>
      LinePrice(s, m, now) <= UnitPrice(s.menus[m].harga, s.diskons[s.menuDiskon[i].idDiskon].persen)
  {
    AppliedPercentSpec(s, m, now);
    var a := AppliedPercent(s, m, now);
    UnitPriceSpec(s.menus[m].harga, 0.0, a);
    forall i | 0 <= i < |s.menuDiskon| && ActiveLink(s.menuDiskon[i], s.diskons, m, now)
      ensures LinePrice(s, m, now) <= UnitPrice(s.menus[m].harga, s.diskons[s.menuDiskon[i].idDiskon].persen)
    {
      UnitPriceSpec(s.menus[m].harga, s.diskons[s.menuDiskon[i].idDiskon].persen, a);
    }
  }

  // ---------------------------------------------------------------- lines

  /** An element of `detailData`: a detail row before it is given its
      transaction id. */
  datatype Line = Line(idMenu: int, qty: int, hargaBeli: real)

  /** The lines an accepted order produces, one per item, in item order. */
  function OrderLines(s: State, items: seq<Item>, now: int): (ls: seq<Line>)
    requires AllFound(s.menus, MenuIds(items))
    ensures |ls| == |items|
  {
    seq(|items|, i requires 0 <= i < |items| && AllFound(s.menus, MenuIds(items)) =>
      var m := NumberOf(items[i].idMenu).value;
      Line(m, items[i].qty, LinePrice(s, m, now)))
  }

  /** `hargaSetelahDiskon * item.qty` for each line. */
  function Subtotals(ls: seq<Line>): (xs: seq<real>)
    ensures |xs| == |ls|
  {
    seq(|ls|, i requires 0 <= i < |ls| => ls[i].hargaBeli * ls[i].qty as real)
  }

  function GrandTotal(ls: seq<Line>): real {
    Sum(Subtotals(ls))
  }

  /** Adding a line adds its subtotal to the grand total. */
  lemma GrandTotalSnoc(ls: seq<Line>, l: Line)
    ensures GrandTotal(ls + [l]) == GrandTotal(ls) + l.hargaBeli * l.qty as real
  {
    var xs := Subtotals(ls + [l]);
    assert xs[..|ls|] == Subtotals(ls) by {
      forall i | 0 <= i < |ls| ensures xs[i] == Subtotals(ls)[i] {
        assert (ls + [l])[i] == ls[i];
      }
    }
  }

  /** The `items.map(..)` callback run over every item, with `grandTotal`
      accumulated as it goes.  It reaches the end of the list exactly when
      every id was sent as a number; otherwise `menus.find` yields
      `undefined` and the handler fails. */
  method PriceItems(s: State, items: seq<Item>, now: int) returns (r: Option<(seq<Line>, real)>)
    requires AllFound(s.menus, MenuIds(items))
    ensures r.Some? <==> AllNumbers(items)
    ensures r.Some? ==> r.value.0 == OrderLines(s, items, now) && r.value.1 == GrandTotal(r.value.0)
  {
    var lines: seq<Line> := [];
    var grandTotal := 0.0;
    for i := 0 to |items|
      invariant forall j :: 0 <= j < i ==> items[j].idMenu.Num?
      invariant lines == OrderLines(s, items, now)[..i]
      invariant grandTotal == GrandTotal(lines)
    {
      var item := items[i];
      if item.idMenu.Other? {
        return None;
      }
      assert MenuIds(items)[i] == Some(item.idMenu.n);
      var menu := s.menus[item.idMenu.n];
      var persen := AppliedPercent(s, item.idMenu.n, now);
      var hargaSetelahDiskon := UnitPrice(menu.harga, persen);
      GrandTotalSnoc(lines, Line(item.idMenu.n, item.qty, hargaSetelahDiskon));
      grandTotal := grandTotal + hargaSetelahDiskon * item.qty as real;
      lines := lines + [Line(item.idMenu.n, item.qty, hargaSetelahDiskon)];
    }
    return Some((lines, grandTotal));
  }

  // --------------------------------------------------------------- handler

  /** The detail rows written for the lines of transaction `idTransaksi`
      (`detailData.map((d) => ({ ...d, id_transaksi: transaksi.id }))`). */
  function Attach(idTransaksi: int, ls: seq<Line>): (ds: seq<Detail>)
    ensures |ds| == |ls|
  {
    seq(|ls|, i requires 0 <= i < |ls| => Detail(idTransaksi, ls[i].idMenu, ls[i].qty, ls[i].hargaBeli))
  }

  /** The database right after an accepted order stored header `t` and the
      detail rows of `lines`. */
  function AfterOrder(s: State, t: Transaksi, lines: seq<Line>): State {
    s.(transaksi := s.transaksi[t.id := t],
       details := s.details + Attach(t.id, lines),
       nextTransaksiId := s.nextTransaksiId + 1)
  }

  /** Storing a fresh header with rows for existing menus keeps the
      database consistent. */
  lemma AfterOrderConsistent(s: State, t: Transaksi, lines: seq<Line>)
    requires Consistent(s) && t.id == s.nextTransaksiId
    requires forall i :: 0 <= i < |lines| ==> lines[i].idMenu in s.menus
    ensures Consistent(AfterOrder(s, t, lines))
  {
    var added := Attach(t.id, lines);
    var s' := AfterOrder(s, t, lines);
    assert DetailsReference(s'.details, s'.transaksi, s'.menus) by {
      forall i | 0 <= i < |s'.details| ensures s'.details[i].idTransaksi in s'.transaksi && s'.details[i].idMenu in s'.menus {
        if i >= |s.details| {
          assert s'.details[i] == added[i - |s.details|];
        }
      }
    }
  }

  /** The body of the 201 reply: the stored header, `total` and `detail`. */
  datatype Placed = Placed(transaksi: Transaksi, total: real, detail: seq<Line>)

  /** `createTransaksiSiswa`.  `now` is the clock reading that selects the
      active discounts and `tanggal` the one stored on the header (the source
      reads the clock twice). */
  method CreateTransaksiSiswa(db: Db, user: Option<int>, items: Option<seq<Item>>, now: int, tanggal: int)
    returns (r: Reply<Placed>)
    requires db.Valid()
    modifies db
    ensures db.Valid()
    ensures r.Fail? <==> OrderRefusal(old(db.Snapshot()), user, items).Some?
    ensures r.Fail? ==>
      r.code == OrderRefusal(old(db.Snapshot()), user, items).value && db.Snapshot() == old(db.Snapshot())
    ensures r.Ok? ==> r.code == CREATED && OrderAccepted(old(db.Snapshot()), user, items)
    ensures r.Ok? ==>
      r.body.transaksi == Transaksi(old(db.nextTransaksiId), tanggal, OrderStan(old(db.Snapshot()), items.value),
                                    old(db.siswaOfUser)[user.value], BelumDikonfirm)
    ensures r.Ok? ==>
      r.body.detail == OrderLines(old(db.Snapshot()), items.value, now) && r.body.total == GrandTotal(r.body.detail)
    ensures r.Ok? ==>
      db.Snapshot() == old(db.Snapshot()).(
        transaksi := old(db.transaksi)[r.body.transaksi.id := r.body.transaksi],
        details := old(db.details) + Attach(r.body.transaksi.id, r.body.detail),
        nextTransaksiId := old(db.nextTransaksiId) + 1)
  {
    OrderRefusalSpec(db.Snapshot(), user, items);
    if !SignedIn(user) {
      return Fail(UNAUTHORIZED);
    }
    if user.value !in db.siswaOfUser {
      return Fail(FORBIDDEN);
    }
    var siswa := db.siswaOfUser[user.value];
    if items.None? || |items.value| == 0 {
      return Fail(BAD_REQUEST);
    }
    var list := items.value;
    var menuIds := MenuIds(list);
    if FoundCount(db.menus, menuIds) != |menuIds| {
      return Fail(BAD_REQUEST);
    }
    FoundCountSpec(db.menus, menuIds);
    var firstStanId := db.menus[menuIds[0].value].idStan;
    if !SameStan(db.menus, menuIds) {
      return Fail(BAD_REQUEST);
    }
    var priced := PriceItems(db.Snapshot(), list, now);
    if priced.None? {
      return Fail(SERVER_ERROR);
    }
    var lines := priced.value.0;
    var grandTotal := priced.value.1;
    NewDetailsReference(db.Snapshot(), list, now, lines);
    // one database transaction: the header, then all its detail rows
    var t := Transaksi(db.nextTransaksiId, tanggal, firstStanId, siswa, BelumDikonfirm);
    AfterOrderConsistent(db.Snapshot(), t, lines);
    db.transaksi := db.transaksi[t.id := t];
    db.details := db.details + Attach(t.id, lines);
    db.nextTransaksiId := db.nextTransaksiId + 1;
    r := Ok(CREATED, Placed(t, grandTotal, lines));
    assert db.Snapshot() == AfterOrder(old(db.Snapshot()), t, lines);
  }

  /** The lines of an accepted order name stored menus, so the detail rows
      written for them reference the new header and existing menus. */
  lemma NewDetailsReference(s: State, items: seq<Item>, now: int, lines: seq<Line>)
    requires AllFound(s.menus, MenuIds(items)) && lines == OrderLines(s, items, now)
    ensures forall i :: 0 <= i < |lines| ==> lines[i].idMenu in s.menus
  {
    forall i | 0 <= i < |lines| ensures lines[i].idMenu in s.menus {
      assert MenuIds(items)[i] == NumberOf(items[i].idMenu);
    }
  }
}
