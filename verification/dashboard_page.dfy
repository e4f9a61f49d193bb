/** The student dashboard, frontend/app/siswa/dashboard/page.tsx: the list
    of stands gathered from the rows of `GET /menu`, one card per stand with
    a cyclic icon, and the menu section, newest first. */
module DashboardPage {
  import opened Wrappers
  import opened Seqs
  import opened OrderedMaps
  import opened MenuPage

  /** `StanMini`: a stand as the dashboard lists it. */
  datatype StanMini = StanMini(id: int, nama: Option<string>, foto: Option<string>)

  /** `item?.stan?.id` when it is truthy: `None` when the row has no stand,
      the stand has no id, or the id is 0. */
  function StanId(row: MenuRow): Option<int> {
    if row.stan.Some? && row.stan.value.id.Some? && row.stan.value.id.value != 0 then row.stan.value.id
    else None
  }

  /** `foto ?? null`. */
  function FotoOrNull(foto: Nullable<string>): Option<string> {
    if foto.Present? then Some(foto.value) else None
  }

  /** The value the loop stores for a row with a stand id. */
  function MiniOf(row: MenuRow): StanMini
    requires StanId(row).Some?
  {
    StanMini(StanId(row).value, row.stan.value.nama, FotoOrNull(row.stan.value.foto))
  }

  /** The `map.set(id, ..)` calls of the loop, in call order: one per row
      with a stand id. */
  function Sets(rows: seq<MenuRow>): seq<(int, StanMini)> {
    if rows == [] then []
    else
      var n := |rows| - 1;
      Sets(rows[..n]) + (if StanId(rows[n]).Some? then [(StanId(rows[n]).value, MiniOf(rows[n]))] else [])
  }

  lemma SetsSnoc(rows: seq<MenuRow>, i: int)
    requires 0 <= i < |rows|
    ensures Sets(rows[..i + 1]) ==
      Sets(rows[..i]) + (if StanId(rows[i]).Some? then [(StanId(rows[i]).value, MiniOf(rows[i]))] else [])
  {
    assert rows[..i + 1][..i] == rows[..i];
  }

  /** The loop over the rows filling a `Map<number, StanMini>`, then
      `Array.from(map.values())`. */
  method DedupStans(rows: seq<MenuRow>) returns (unique: seq<StanMini>)
    ensures unique == MapValues(Sets(rows))
  {
    var m := new OrderedMap<StanMini>();
    for i := 0 to |rows|
      invariant m.Valid()
      invariant m.keys == KeyOrder(Sets(rows[..i])) && m.entries == LastMap(Sets(rows[..i]))
    {
      SetsSnoc(rows, i);
      if StanId(rows[i]).Some? {
        var k, v := StanId(rows[i]).value, MiniOf(rows[i]);
        StepSet(Sets(rows[..i]), k, v);
        m.Set(k, v);
      } else {
        assert Sets(rows[..i]) + [] == Sets(rows[..i]);
      }
    }
    assert rows[..|rows|] == rows;
    unique := m.Values();
  }

  // ------------------------------------------------------- de-duplication

  /** Some row carries stand id `k`. */
  ghost predicate HasStan(rows: seq<MenuRow>, k: int) {
    exists j :: 0 <= j < |rows| && StanId(rows[j]) == Some(k)
  }

  /** Row `j` is the last row with stand id `k`. */
  predicate LastRowFor(rows: seq<MenuRow>, k: int, j: int) {
    0 <= j < |rows| && StanId(rows[j]) == Some(k) &&
    forall j' :: j < j' < |rows| ==> StanId(rows[j']) != Some(k)
  }

  /** `s` is what the last row with stand id `k` says about its stand. */
  ghost predicate WonBy(rows: seq<MenuRow>, k: int, s: StanMini) {
    exists j :: LastRowFor(rows, k, j) && s == MiniOf(rows[j])
  }

  /** The step from the rows before `rows[n]` to `rows`. */
  lemma SetsStep(rows: seq<MenuRow>, n: int)
    requires n == |rows| - 1 >= 0
    ensures StanId(rows[n]).Some? ==>
      LastMap(Sets(rows)) == LastMap(Sets(rows[..n]))[StanId(rows[n]).value := MiniOf(rows[n])]
    ensures StanId(rows[n]).None? ==> LastMap(Sets(rows)) == LastMap(Sets(rows[..n]))
  {
    SetsSnoc(rows, n);
    assert rows[..n + 1] == rows;
    var e := Sets(rows[..n]);
    if StanId(rows[n]).Some? {
      StepSet(e, StanId(rows[n]).value, MiniOf(rows[n]));
    } else {
      assert e + [] == e;
    }
  }

  /** The map holds a stand exactly for the ids some row carries. */
  lemma {:induction false} SetsKeys(rows: seq<MenuRow>)
    ensures forall k :: k in LastMap(Sets(rows)) <==> HasStan(rows, k)
  {
    if rows != [] {
      var n := |rows| - 1;
      var init := rows[..n];
      SetsKeys(init);
      SetsStep(rows, n);
      forall k ensures k in LastMap(Sets(rows)) <==> HasStan(rows, k) {
        if HasStan(rows, k) && StanId(rows[n]) != Some(k) {
          var j :| 0 <= j < |rows| && StanId(rows[j]) == Some(k);
          assert init[j] == rows[j];
        }
        if HasStan(init, k) {
          var j :| 0 <= j < |init| && StanId(init[j]) == Some(k);
          assert init[j] == rows[j];
        }
      }
    }
  }

  /** For each stand id the map holds what the last row with that id
      said. */
  lemma {:induction false} SetsLastWins(rows: seq<MenuRow>)
    ensures forall k :: k in LastMap(Sets(rows)) ==> WonBy(rows, k, LastMap(Sets(rows))[k])
  {
    if rows != [] {
      var n := |rows| - 1;
      var init := rows[..n];
      SetsLastWins(init);
      SetsStep(rows, n);
      forall k | k in LastMap(Sets(rows)) ensures WonBy(rows, k, LastMap(Sets(rows))[k]) {
        if StanId(rows[n]) == Some(k) {
          assert LastRowFor(rows, k, n);
        } else {
          var j :| LastRowFor(init, k, j) && LastMap(Sets(init))[k] == MiniOf(init[j]);
          assert init[j] == rows[j];
          forall j' | j < j' < |rows| ensures StanId(rows[j']) != Some(k) {
            if j' < n {
              assert init[j'] == rows[j'];
            }
          }
          assert LastRowFor(rows, k, j);
        }
      }
    }
  }

  /** The stands before sorting: one per distinct stand id of the rows,
      none with id 0, each as the last row with that id gave it. */
  lemma UniqueStans(rows: seq<MenuRow>)
    ensures KeysDistinct(MapValues(Sets(rows)), (s: StanMini) => s.id)
    ensures forall k :: (exists s :: s in MapValues(Sets(rows)) && s.id == k) <==> HasStan(rows, k)
    ensures forall s :: s in MapValues(Sets(rows)) ==> s.id != 0 && WonBy(rows, s.id, s)
  {
    var e := Sets(rows);
    var u := MapValues(e);
    var ks := KeyOrder(e);
    SetsKeys(rows);
    SetsLastWins(rows);
    KeyOrderFacts(e);
    KeyOrderInMap(e);
    forall i | 0 <= i < |u| ensures u[i] == LastMap(e)[ks[i]] && u[i].id == ks[i] && WonBy(rows, ks[i], u[i]) {
      assert ks[i] in ks;
      var j :| LastRowFor(rows, ks[i], j) && LastMap(e)[ks[i]] == MiniOf(rows[j]);
    }
    forall k ensures (exists s :: s in u && s.id == k) <==> HasStan(rows, k) {
      if HasStan(rows, k) {
        assert k in ks;
        var i :| 0 <= i < |ks| && ks[i] == k;
        assert u[i] in u;
      }
    }
  }

  function StanIdOf(s: StanMini): int {
    s.id
  }

  /** `Array.from(map.values()).sort((a, b) => a.id - b.id)`. */
  function SortedStans(rows: seq<MenuRow>): seq<StanMini> {
    SortBy(MapValues(Sets(rows)), StanIdOf)
  }

  /** The stand list: strictly ascending ids, so one entry per stand; a
      stand is listed exactly when some row carries its id, which is never
      0; and each entry's name and photo (null when absent) are those of the
      last row for that stand. */
  lemma SortedStansSpec(rows: seq<MenuRow>)
    ensures forall i, j :: 0 <= i < j < |SortedStans(rows)| ==> SortedStans(rows)[i].id < SortedStans(rows)[j].id
    ensures forall k :: (exists s :: s in SortedStans(rows) && s.id == k) <==> HasStan(rows, k)
    ensures forall s :: s in SortedStans(rows) ==> s.id != 0 && WonBy(rows, s.id, s)
  {
    var u := MapValues(Sets(rows));
    UniqueStans(rows);
    assert KeysDistinct(u, StanIdOf);
    SortByStrict(u, StanIdOf);
    SortByCorrect(u, StanIdOf);
    forall s ensures s in SortedStans(rows) <==> s in u {
      assert s in SortedStans(rows) <==> s in multiset(SortedStans(rows));
    }
  }

  /** `fetchStansFromMenu`: the new stand list, or the previous one when
      the request failed (the error is only reported). */
  method LoadStans(prev: seq<StanMini>, f: Fetched) returns (stans: seq<StanMini>)
    ensures f.Failed? ==> stans == prev
    ensures f.Received? ==> stans == SortedStans(Rows(f))
  {
    if f.Failed? {
      return prev;
    }
    var unique := DedupStans(Rows(f));
    stans := SortBy(unique, StanIdOf);
  }

  // ----------------------------------------------------------------- cards

  datatype Icon = Utensils | Clock | Leaf | Truck | Zap | BarChart3 | ShoppingCart | Award

  /** `STAN_ICONS`. */
  const StanIcons: seq<Icon> := [Utensils, Clock, Leaf, Truck, Zap, BarChart3, ShoppingCart, Award]

  datatype Card = Card(stan: StanMini, icon: Icon)

  /** `stans.map((s, idx) => ({ ...s, Icon: STAN_ICONS[idx % STAN_ICONS.length] }))`. */
  function StanCards(stans: seq<StanMini>): seq<Card> {
    seq(|stans|, i requires 0 <= i < |stans| => Card(stans[i], StanIcons[i % |StanIcons|]))
  }

  /** One card per stand, in order; the icons start from the first of the
      eight and repeat every eight cards, and any eight consecutive cards
      show eight different icons. */
  lemma StanCardsSpec(stans: seq<StanMini>)
    ensures |StanCards(stans)| == |stans|
    ensures forall i :: 0 <= i < |stans| ==> StanCards(stans)[i].stan == stans[i]
    ensures |stans| > 0 ==> StanCards(stans)[0].icon == Utensils
    ensures forall i :: 0 <= i && i + 8 < |stans| ==> StanCards(stans)[i + 8].icon == StanCards(stans)[i].icon
    ensures forall i, j :: 0 <= i < j < |stans| && j - i < 8 ==> StanCards(stans)[i].icon != StanCards(stans)[j].icon
  {
    var cards := StanCards(stans);
    forall i | 0 <= i && i + 8 < |stans| ensures cards[i + 8].icon == cards[i].icon {
      assert (i + 8) % 8 == i % 8;
    }
    forall i, j | 0 <= i < j < |stans| && j - i < 8 ensures cards[i].icon != cards[j].icon {
      assert i % 8 != j % 8;
    }
  }

  // ----------------------------------------------------------------- menus

  /** `fetchMenus` of the dashboard: newest first on success; a failed
      request keeps the previous list. */
  function DashboardMenus(prev: seq<MenuRow>, f: Fetched): seq<MenuRow> {
    if f.Failed? then prev else NewestFirst(Rows(f))
  }

  /** On success the list holds exactly the rows received, in
      non-increasing id order, and is empty when `data` is not an array; on
      failure it is the previous list. */
  lemma DashboardMenusSpec(prev: seq<MenuRow>, f: Fetched)
    ensures f.Failed? ==> DashboardMenus(prev, f) == prev
    ensures f.Received? ==> multiset(DashboardMenus(prev, f)) == multiset(Rows(f))
    ensures f.Received? ==> forall i, j :: 0 <= i < j < |DashboardMenus(prev, f)| ==>
      DashboardMenus(prev, f)[i].id >= DashboardMenus(prev, f)[j].id
    ensures f.Received? && f.data.None? ==> DashboardMenus(prev, f) == []
  {
    if f.Received? {
      LoadedMenusSpec(f);
    }
  }
}
