/** `pickStanId` and `checkoutCart` of frontend/lib/order.ts: the student's
    cart is split into one order per stand, and the orders are sent one
    after the other until one is refused. */
module Checkout {
  import opened Wrappers
  import opened Seqs
  import opened OrderedMaps

  // ---------------------------------------------------------- stand of an item

  /** A property of `item.raw`: nullish (`null` or `undefined`), or a value
      together with what `Number(..)` makes of it (`None` for NaN). */
  datatype Field = Nullish | Given(number: Option<int>)

  /** The four places a stand id may sit in `item.raw`:
      `id_stan`, `idStan`, `stan_id` and `id_kantin`. */
  datatype RawStan = RawStan(idStan: Field, idStanCamel: Field, stanId: Field, idKantin: Field)

  /** A cart entry; `raw` is `None` when `item.raw` is nullish. */
  datatype CartItem = CartItem(idMenu: int, nama: string, harga: real, qty: int, raw: Option<RawStan>)

  /** `a ?? b`. */
  function OrElse(a: Field, b: Field): Field {
    if a.Nullish? then b else a
  }

  /** `pickStanId(item)`: `None` where it throws ("id_stan tidak ditemukan"),
      which is when the id it computes is 0 or NaN. */
  function PickStanId(item: CartItem): Option<int> {
    var r := if item.raw.Some? then item.raw.value else RawStan(Nullish, Nullish, Nullish, Nullish);
    var f := OrElse(r.idStan, OrElse(r.idStanCamel, OrElse(r.stanId, r.idKantin)));
    var id := if f.Nullish? then Some(0) else f.number;
    if id.None? || id.value == 0 then None else id
  }

  /** The four candidate fields, in the order they are tried. */
  function StanFields(item: CartItem): (fs: seq<Field>)
    ensures |fs| == 4
  {
    if item.raw.None? then [Nullish, Nullish, Nullish, Nullish]
    else [item.raw.value.idStan, item.raw.value.idStanCamel, item.raw.value.stanId, item.raw.value.idKantin]
  }

  /** Field `i` is the first that is not nullish. */
  predicate Decides(fs: seq<Field>, i: int) {
    0 <= i < |fs| && fs[i].Given? && forall j :: 0 <= j < i ==> fs[j].Nullish?
  }

  /** The first non-nullish field decides, even when a later one holds a
      usable id: its number is the stand id unless it is 0 or NaN, in which
      case the item has no stand.  With every field nullish (or no `raw`)
      the item has no stand. */
  lemma PickStanIdSpec(item: CartItem)
    ensures (forall i :: 0 <= i < 4 ==> StanFields(item)[i].Nullish?) ==> PickStanId(item).None?
    ensures forall i :: Decides(StanFields(item), i) ==>
      PickStanId(item) == (if StanFields(item)[i].number == Some(0) then None else StanFields(item)[i].number)
    ensures PickStanId(item).Some? ==> PickStanId(item).value != 0
  {
    var fs := StanFields(item);
    if forall i :: 0 <= i < 4 ==> fs[i].Nullish? {
      assert fs[0].Nullish? && fs[1].Nullish? && fs[2].Nullish? && fs[3].Nullish?;
    }
    forall i | Decides(fs, i)
      ensures PickStanId(item) == (if fs[i].number == Some(0) then None else fs[i].number)
    {
      if i > 0 { assert fs[0].Nullish?; }
      if i > 1 { assert fs[1].Nullish?; }
      if i > 2 { assert fs[2].Nullish?; }
    }
  }

  // ----------------------------------------------------------------- grouping

  /** `{ id_menu, qty }`, the part of a cart item that is sent. */
  datatype Line = Line(idMenu: int, qty: int)

  /** `{ id_stan, items }`, the body of one request. */
  datatype Payload = Payload(idStan: int, items: seq<Line>)

  predicate AllPicked(items: seq<CartItem>) {
    forall i :: 0 <= i < |items| ==> PickStanId(items[i]).Some?
  }

  /** The `(id_stan, line)` pushes the grouping loop makes, in cart order. */
  function Pushes(items: seq<CartItem>): (e: seq<(int, Line)>)
    requires AllPicked(items)
    ensures |e| == |items|
  {
    seq(|items|, i requires 0 <= i < |items| && AllPicked(items) =>
      (PickStanId(items[i]).value, Line(items[i].idMenu, items[i].qty)))
  }

  /** Extending a prefix whose items all have a stand, item by item. */
  lemma PickedPrefix(items: seq<CartItem>, i: int)
    requires 0 <= i < |items| && AllPicked(items[..i])
    ensures PickStanId(items[i]).None? ==> FirstUnpicked(items, i)
    ensures PickStanId(items[i]).Some? ==> AllPicked(items[..i + 1])
  {
    assert forall j :: 0 <= j < i ==> items[..i][j] == items[j];
    assert forall j :: 0 <= j <= i ==> items[..i + 1][j] == items[j];
  }

  lemma PushesSnoc(items: seq<CartItem>, i: int)
    requires 0 <= i < |items| && AllPicked(items[..i + 1])
    ensures AllPicked(items[..i])
    ensures Pushes(items[..i + 1]) == Pushes(items[..i]) + [(PickStanId(items[i]).value, Line(items[i].idMenu, items[i].qty))]
  {
    assert forall j :: 0 <= j < i ==> items[..i][j] == items[..i + 1][j];
    var a := Pushes(items[..i + 1]);
    var b := Pushes(items[..i]);
    assert forall j :: 0 <= j < i ==> a[j] == b[j];
  }

  /** `Object.keys(grouped)`: the order in which the requests go out. */
  function SendOrder(items: seq<CartItem>): seq<int>
    requires AllPicked(items)
  {
    ObjectKeys(KeyOrder(Pushes(items)))
  }

  /** The stands appear once each in the send order, and they are exactly
      the stands of the cart's items, which are exactly the keys of
      `grouped`. */
  lemma SendOrderKeys(items: seq<CartItem>)
    requires AllPicked(items)
    ensures Distinct(SendOrder(items))
    ensures forall k :: k in SendOrder(items) <==> k in GroupMap(Pushes(items))
    ensures forall i :: 0 <= i < |SendOrder(items)| ==> SendOrder(items)[i] in GroupMap(Pushes(items))
    ensures forall k :: k in SendOrder(items) <==> k in KeysOf(Pushes(items))
  {
    var e := Pushes(items);
    var ks := SendOrder(items);
    var ko := KeyOrder(e);
    assert Distinct(ko) && forall k :: k in ko <==> k in KeysOf(e) by {
      KeyOrderFacts(e);
    }
    assert Distinct(ks) && multiset(ks) == multiset(ko) by {
      ObjectKeysPermutation(ko);
    }
    assert GroupMap(e).Keys == KeysOf(e) by {
      GroupMapSpec(e);
    }
    forall k ensures k in ks <==> k in ko {
      assert k in ks <==> k in multiset(ks);
      assert k in ko <==> k in multiset(ko);
    }
  }

  /** The requests `checkoutCart` makes when none is refused. */
  function Payloads(items: seq<CartItem>): (ps: seq<Payload>)
    requires AllPicked(items)
    ensures |ps| == |SendOrder(items)|
  {
    var e := Pushes(items);
    var ks := SendOrder(items);
    SendOrderKeys(items);
    seq(|ks|, i requires 0 <= i < |ks| && ks[i] in GroupMap(e) => Payload(ks[i], GroupMap(e)[ks[i]]))
  }

  // ----------------------------------------------------------------- checkout

  /** How `checkoutCart` ends: it returns `true`, or throws because the cart
      is empty, an item has no stand, or a request was refused. */
  datatype Outcome = Done | EmptyCart | NoStan(nama: string) | Refused(idStan: int)

  /** Item `i` is the first without a stand. */
  predicate FirstUnpicked(items: seq<CartItem>, i: int) {
    0 <= i < |items| && PickStanId(items[i]).None? && forall j :: 0 <= j < i ==> PickStanId(items[j]).Some?
  }

  /** The grouping loop of `checkoutCart`: `grouped[id_stan] ||= []` and a
      push for each item in cart order.  It stops at the first item without
      a stand (`missing`); otherwise `grouped` holds, under each stand, the
      lines pushed for it, with keys in order of first use. */
  method GroupByStan(items: seq<CartItem>) returns (grouped: OrderedMap<seq<Line>>, missing: Option<int>)
    ensures fresh(grouped) && grouped.Valid()
    ensures missing.None? <==> AllPicked(items)
    ensures missing.Some? ==> FirstUnpicked(items, missing.value)
    ensures missing.None? ==> grouped.keys == KeyOrder(Pushes(items)) && grouped.entries == GroupMap(Pushes(items))
  {
    grouped := new OrderedMap<seq<Line>>();
    ghost var e: seq<(int, Line)> := [];
    for i := 0 to |items|
      invariant fresh(grouped) && grouped.Valid()
      invariant AllPicked(items[..i])
      invariant e == Pushes(items[..i])
      invariant grouped.keys == KeyOrder(e) && grouped.entries == GroupMap(e)
    {
      var idStan := PickStanId(items[i]);
      if idStan.None? {
        PickedPrefix(items, i);
        return grouped, Some(i);
      }
      var line := Line(items[i].idMenu, items[i].qty);
      var current := grouped.Get(idStan.value);
      grouped.Set(idStan.value, (if current.Some? then current.value else []) + [line]);
      StepPush(e, idStan.value, line);
      PickedPrefix(items, i);
      PushesSnoc(items, i);
      e := e + [(idStan.value, line)];
    }
    assert items[..|items|] == items;
    missing := None;
  }

  /** The sending loop of `checkoutCart`: one request per key of `grouped`,
      in `Object.keys` order, stopping at the first refused one. */
  method SendGroups(items: seq<CartItem>, grouped: OrderedMap<seq<Line>>, accepts: Payload -> bool)
    returns (outcome: Outcome, sent: seq<Payload>)
    requires AllPicked(items) && grouped.Valid()
    requires grouped.keys == KeyOrder(Pushes(items)) && grouped.entries == GroupMap(Pushes(items))
    ensures outcome.Done? || outcome.Refused?
    ensures outcome.Done? ==> sent == Payloads(items) && forall p :: p in sent ==> accepts(p)
    ensures outcome.Refused? ==>
      0 < |sent| <= |Payloads(items)| && sent == Payloads(items)[..|sent|] &&
      (forall j :: 0 <= j < |sent| - 1 ==> accepts(sent[j])) &&
      !accepts(sent[|sent| - 1]) && outcome.idStan == sent[|sent| - 1].idStan
  {
    var keys := ObjectKeys(grouped.keys);
    SendOrderKeys(items);
    sent := [];
    for k := 0 to |keys|
      invariant sent == Payloads(items)[..k]
      invariant forall p :: p in sent ==> accepts(p)
    {
      var idStan := keys[k];
      var payload := Payload(idStan, grouped.entries[idStan]);
      sent := sent + [payload];
      if !accepts(payload) {
        return Refused(idStan), sent;
      }
    }
    return Done, sent;
  }

  /** `checkoutCart(items)`.  `accepts` stands for the server: whether the
      response to a request is `ok`.  `sent` lists the requests made, in
      order; no request is made unless every item has a stand. */
  method CheckoutCart(items: seq<CartItem>, accepts: Payload -> bool) returns (outcome: Outcome, sent: seq<Payload>)
    ensures outcome == EmptyCart <==> items == []
    ensures outcome.NoStan? <==> items != [] && !AllPicked(items)
    ensures outcome.NoStan? ==> exists i :: FirstUnpicked(items, i) && outcome.nama == items[i].nama
    ensures outcome.EmptyCart? || outcome.NoStan? ==> sent == []
    ensures outcome.Done? ==> AllPicked(items) && sent == Payloads(items) && forall p :: p in sent ==> accepts(p)
    ensures outcome.Refused? ==>
      AllPicked(items) && 0 < |sent| <= |Payloads(items)| && sent == Payloads(items)[..|sent|] &&
      (forall j :: 0 <= j < |sent| - 1 ==> accepts(sent[j])) &&
      !accepts(sent[|sent| - 1]) && outcome.idStan == sent[|sent| - 1].idStan
  {
    if |items| == 0 {
      return EmptyCart, [];
    }
    var grouped, missing := GroupByStan(items);
    if missing.Some? {
      return NoStan(items[missing.value].nama), [];
    }
    outcome, sent := SendGroups(items, grouped, accepts);
  }

  // --------------------------------------------------------------- properties

  /** The line of a cart item. */
  function LineOf(item: CartItem): Line {
    Line(item.idMenu, item.qty)
  }

  /** The lines of the items whose stand is `k`, in cart order. */
  function LinesOf(items: seq<CartItem>, k: int): seq<Line> {
    if items == [] then []
    else
      var n := |items| - 1;
      LinesOf(items[..n], k) + (if PickStanId(items[n]) == Some(k) then [LineOf(items[n])] else [])
  }

  /** A line is in the group of stand `k` exactly when it is the line of a
      cart item whose stand is `k`. */
  lemma {:induction false} LinesOfSpec(items: seq<CartItem>, k: int)
    ensures forall l :: l in LinesOf(items, k) <==>
      exists j :: 0 <= j < |items| && PickStanId(items[j]) == Some(k) && l == LineOf(items[j])
  {
    if items != [] {
      var n := |items| - 1;
      LinesOfSpec(items[..n], k);
      forall l ensures l in LinesOf(items, k) <==>
        exists j :: 0 <= j < |items| && PickStanId(items[j]) == Some(k) && l == LineOf(items[j])
      {
        if l in LinesOf(items[..n], k) {
          var j :| 0 <= j < n && PickStanId(items[..n][j]) == Some(k) && l == LineOf(items[..n][j]);
          assert items[..n][j] == items[j];
        }
        if exists j :: 0 <= j < |items| && PickStanId(items[j]) == Some(k) && l == LineOf(items[j]) {
          var j :| 0 <= j < |items| && PickStanId(items[j]) == Some(k) && l == LineOf(items[j]);
          if j < n {
            assert items[..n][j] == items[j];
          }
        }
      }
    }
  }

  /** What the grouping loop pushed under `k` is the group of `k`. */
  lemma {:induction false} SelectPushes(items: seq<CartItem>, k: int)
    requires AllPicked(items)
    ensures Select(Pushes(items), k) == LinesOf(items, k)
  {
    if items != [] {
      var n := |items| - 1;
      assert items[..n + 1] == items;
      PushesSnoc(items, n);
      var e := Pushes(items);
      assert e[..n] == Pushes(items[..n]);
      SelectPushes(items[..n], k);
    }
  }

  /** Every request carries the lines of exactly the cart items of its
      stand, in cart order, keeping only `id_menu` and `qty`; the requests
      are for pairwise different stands; and every stand of the cart gets a
      request. */
  lemma CheckoutPartition(items: seq<CartItem>)
    requires AllPicked(items)
    ensures forall i :: 0 <= i < |Payloads(items)| ==> Payloads(items)[i].items == LinesOf(items, Payloads(items)[i].idStan)
    ensures forall i, j :: 0 <= i < j < |Payloads(items)| ==> Payloads(items)[i].idStan != Payloads(items)[j].idStan
    ensures forall j :: 0 <= j < |items| ==> exists i :: 0 <= i < |Payloads(items)| && Some(Payloads(items)[i].idStan) == PickStanId(items[j])
  {
    var e := Pushes(items);
    var ps := Payloads(items);
    var ks := SendOrder(items);
    SendOrderKeys(items);
    GroupMapSpec(e);
    forall i | 0 <= i < |ps| ensures ps[i].items == LinesOf(items, ps[i].idStan) {
      SelectPushes(items, ks[i]);
    }
    forall j | 0 <= j < |items| ensures exists i :: 0 <= i < |ps| && Some(ps[i].idStan) == PickStanId(items[j]) {
      var k := PickStanId(items[j]).value;
      assert e[j].0 == k;
      assert k in KeysOf(e);
      var i :| 0 <= i < |ks| && ks[i] == k;
      assert ps[i].idStan == k;
    }
  }

  /** When every stand id is an array index (an integer from 0 to
      2^32 - 2, as a database id is), the requests go out in strictly
      ascending stand order, whatever the order of the cart. */
  lemma CheckoutAscending(items: seq<CartItem>)
    requires AllPicked(items)
    requires forall j :: 0 <= j < |items| ==> IsArrayIndex(PickStanId(items[j]).value)
    ensures forall i, j :: 0 <= i < j < |Payloads(items)| ==> Payloads(items)[i].idStan < Payloads(items)[j].idStan
  {
    var e := Pushes(items);
    KeyOrderFacts(e);
    forall k | k in KeyOrder(e) ensures IsArrayIndex(k) {
      var j :| 0 <= j < |e| && e[j].0 == k;
    }
    ObjectKeysAscending(KeyOrder(e));
  }

  // ----------------------------------------------------------- quantities

  function Qty(ls: seq<Line>): int {
    if ls == [] then 0 else Qty(ls[..|ls| - 1]) + ls[|ls| - 1].qty
  }

  /** The total quantity in the cart. */
  function CartQty(items: seq<CartItem>): int {
    if items == [] then 0 else CartQty(items[..|items| - 1]) + items[|items| - 1].qty
  }

  /** The total quantity over all requests. */
  function PayloadQty(ps: seq<Payload>): int {
    if ps == [] then 0 else PayloadQty(ps[..|ps| - 1]) + Qty(ps[|ps| - 1].items)
  }

  /** The quantity of the cart items whose stand is in `S`. */
  function CartQtyIn(items: seq<CartItem>, S: set<int>): int {
    if items == [] then 0
    else
      var n := |items| - 1;
      CartQtyIn(items[..n], S) + (if PickStanId(items[n]).Some? && PickStanId(items[n]).value in S then items[n].qty else 0)
  }

  /** The quantity of the groups of the stands `ks`. */
  function GroupsQty(items: seq<CartItem>, ks: seq<int>): int {
    if ks == [] then 0 else GroupsQty(items, ks[..|ks| - 1]) + Qty(LinesOf(items, ks[|ks| - 1]))
  }

  lemma QtySnoc(ls: seq<Line>, l: Line)
    ensures Qty(ls + [l]) == Qty(ls) + l.qty
  {
    assert (ls + [l])[..|ls|] == ls;
  }

  lemma {:induction false} CartQtyInAdd(items: seq<CartItem>, S: set<int>, k: int)
    requires k !in S
    ensures CartQtyIn(items, S + {k}) == CartQtyIn(items, S) + Qty(LinesOf(items, k))
  {
    if items != [] {
      var n := |items| - 1;
      CartQtyInAdd(items[..n], S, k);
      if PickStanId(items[n]) == Some(k) {
        QtySnoc(LinesOf(items[..n], k), LineOf(items[n]));
      } else {
        assert LinesOf(items, k) == LinesOf(items[..n], k) + [];
        assert LinesOf(items[..n], k) + [] == LinesOf(items[..n], k);
        var p := PickStanId(items[n]);
        assert (p.Some? && p.value in S + {k}) == (p.Some? && p.value in S);
      }
    }
  }

  lemma {:induction false} CartQtyInAll(items: seq<CartItem>, S: set<int>)
    requires forall j :: 0 <= j < |items| ==> PickStanId(items[j]).Some? && PickStanId(items[j]).value in S
    ensures CartQtyIn(items, S) == CartQty(items)
  {
    if items != [] {
      var n := |items| - 1;
      assert forall j :: 0 <= j < n ==> items[..n][j] == items[j];
      CartQtyInAll(items[..n], S);
    }
  }

  lemma {:induction false} GroupsQtyIn(items: seq<CartItem>, ks: seq<int>)
    requires Distinct(ks)
    ensures GroupsQty(items, ks) == CartQtyIn(items, ToSet(ks))
  {
    if ks == [] {
      assert ToSet(ks) == {};
      CartQtyInEmpty(items);
    } else {
      var m := |ks| - 1;
      var init := ks[..m];
      assert Distinct(init) by {
        forall i, j | 0 <= i < j < |init| ensures init[i] != init[j] {
          assert init[i] == ks[i] && init[j] == ks[j];
        }
      }
      GroupsQtyIn(items, init);
      assert ToSet(ks) == ToSet(init) + {ks[m]} by {
        assert ks == init + [ks[m]];
      }
      assert ks[m] !in ToSet(init);
      CartQtyInAdd(items, ToSet(init), ks[m]);
    }
  }

  lemma {:induction false} CartQtyInEmpty(items: seq<CartItem>)
    ensures CartQtyIn(items, {}) == 0
  {
    if items != [] {
      CartQtyInEmpty(items[..|items| - 1]);
    }
  }

  lemma {:induction false} PayloadQtyGroups(items: seq<CartItem>, ps: seq<Payload>, ks: seq<int>)
    requires |ps| == |ks|
    requires forall i :: 0 <= i < |ps| ==> ps[i].items == LinesOf(items, ks[i])
    ensures PayloadQty(ps) == GroupsQty(items, ks)
  {
    if ps != [] {
      var m := |ps| - 1;
      PayloadQtyGroups(items, ps[..m], ks[..m]);
    }
  }

  /** Splitting the cart by stand loses and duplicates nothing: the
      quantities over all requests add up to the quantity in the cart. */
  lemma CheckoutQty(items: seq<CartItem>)
    requires AllPicked(items)
    ensures PayloadQty(Payloads(items)) == CartQty(items)
  {
    var ps := Payloads(items);
    var ks := SendOrder(items);
    var e := Pushes(items);
    CheckoutPartition(items);
    SendOrderKeys(items);
    PayloadQtyGroups(items, ps, ks);
    GroupsQtyIn(items, ks);
    forall j | 0 <= j < |items| ensures PickStanId(items[j]).value in ToSet(ks) {
      assert e[j].0 == PickStanId(items[j]).value;
      assert e[j].0 in KeysOf(e);
    }
    CartQtyInAll(items, ToSet(ks));
  }
}
