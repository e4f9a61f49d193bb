/** The rules of backend/src/controllers/diskonController.ts (and the
    discount selection of the order handler) that are plain expressions:
    when a discount is active, how a listing labels it, the price after a
    discount, how request fields are normalised and validated, and how a
    partial update is merged into a stored discount. */
module DiscountRules {
  import opened Wrappers
  import opened Seqs
  import opened Tables

  // ------------------------------------------------------ activity window

  /** A discount is active when its window contains `now`, both ends
      included. */
  predicate IsActive(d: Diskon, now: int) {
    d.awal <= now <= d.akhir
  }

  datatype DiscountStatus = Aktif | AkanDatang | Expired

  /** The label an admin listing gives a discount at time `now`. */
  function Classify(d: Diskon, now: int): (s: DiscountStatus)
    ensures s == AkanDatang <==> now < d.awal
    ensures s == Expired <==> d.awal <= now && d.akhir < now
    ensures s == Aktif <==> IsActive(d, now)
  {
    if now < d.awal then AkanDatang
    else if now > d.akhir then Expired
    else Aktif
  }

  /** For a stored discount (whose window is ordered) the three labels
      split time into before, during and after the window. */
  lemma ClassifyWellFormed(d: Diskon, now: int)
    requires DiskonWellFormed(d)
    ensures Classify(d, now) == Expired <==> d.akhir < now
    ensures Classify(d, now) == AkanDatang ==> now < d.awal <= d.akhir
  {
  }

  // ---------------------------------------------------------------- price

  /** `harga - harga * (persen / 100)`, the price after a discount of
      `persen` percent. */
  function PriceAfterDiscount(harga: real, persen: real): real {
    harga - harga * (persen / 100.0)
  }

  /** A discount between 0 and 100 percent of a price that is not negative
      leaves a price between 0 and the original price; a positive discount
      of a positive price lowers it. */
  lemma PriceAfterDiscountBounds(harga: real, persen: real)
    requires 0.0 <= harga && 0.0 <= persen <= 100.0
    ensures 0.0 <= PriceAfterDiscount(harga, persen) <= harga
    ensures 0.0 < persen && 0.0 < harga ==> PriceAfterDiscount(harga, persen) < harga
    ensures persen == 100.0 ==> PriceAfterDiscount(harga, persen) == 0.0
  {
    var f := persen / 100.0;
    assert 0.0 <= f <= 1.0;
    assert harga * f <= harga * 1.0 by {
      MulMonotone(harga, f, 1.0);
    }
    assert 0.0 <= harga * f by {
      MulMonotone(harga, 0.0, f);
    }
    if 0.0 < persen && 0.0 < harga {
      assert 0.0 < harga * f;
    }
  }

  lemma MulMonotone(a: real, x: real, y: real)
    requires 0.0 <= a && x <= y
    ensures a * x <= a * y
  {
    assert a * y - a * x == a * (y - x);
  }

  // -------------------------------------------------------- request fields

  /** An id-list field: absent, a single value, or a repeated form field
      (an array); each value carries what `Number(..)` makes of it. */
  datatype IdsInput = Absent | Single(parsed: Option<int>) | Many(items: seq<Option<int>>)

  /** `items.map(Number).filter(n => !isNaN(n))`. */
  function Numeric(items: seq<Option<int>>): (r: seq<int>)
    ensures |r| <= |items|
  {
    if items == [] then []
    else (if items[0].Some? then [items[0].value] else []) + Numeric(items[1..])
  }

  /** An id occurs in the numeric part exactly when it was sent as a number;
      nothing is dropped unless it is not a number. */
  lemma {:induction false} NumericSpec(items: seq<Option<int>>)
    ensures forall x :: x in Numeric(items) <==> Some(x) in items
    ensures |Numeric(items)| == |items| <==> forall i :: 0 <= i < |items| ==> items[i].Some?
  {
    if items != [] {
      NumericSpec(items[1..]);
      assert items == [items[0]] + items[1..];
      if items[0].None? {
        assert !(forall i :: 0 <= i < |items| ==> items[i].Some?) by {
          assert items[0].None?;
        }
      }
      if forall i :: 0 <= i < |items[1..]| ==> items[1..][i].Some? {
        if items[0].Some? {
          forall i | 0 <= i < |items| ensures items[i].Some? {
            if i > 0 { assert items[i] == items[1..][i - 1]; }
          }
        }
      } else {
        var i :| 0 <= i < |items[1..]| && items[1..][i].None?;
        assert items[i + 1].None?;
      }
    }
  }

  /** The normalisation of `menu_ids` / `id_menu`: an array keeps its
      numeric entries, a single value becomes a one-element list when it is
      a number, and an absent field gives the empty list. */
  function NormaliseIds(raw: IdsInput): seq<int> {
    match raw
    case Absent => []
    case Single(p) => if p.Some? then [p.value] else []
    case Many(items) => Numeric(items)
  }

  /** What the normalised list holds, case by case. */
  lemma NormaliseIdsSpec(raw: IdsInput)
    ensures raw.Absent? ==> NormaliseIds(raw) == []
    ensures raw.Single? ==> NormaliseIds(raw) == if raw.parsed.Some? then [raw.parsed.value] else []
    ensures raw.Many? ==> forall x :: x in NormaliseIds(raw) <==> Some(x) in raw.items
  {
    if raw.Many? {
      NumericSpec(raw.items);
    }
  }

  /** `!(isNaN(p) || p <= 0 || p > 100)`. */
  predicate PercentAccepted(p: Option<real>) {
    p.Some? && 0.0 < p.value <= 100.0
  }

  /** `!(endDate < startDate)`: equal dates are allowed. */
  predicate WindowOrdered(awal: int, akhir: int) {
    !(akhir < awal)
  }

  // -------------------------------------------------------------- ownership

  /** The ids of the menus of stand `stan`. */
  function MenusOfStan(menus: map<int, Menu>, stan: int): set<int> {
    set k | k in menus && menus[k].idStan == stan
  }

  /** `findMany({ where: { id_stan, id: { in: ids } } }).length`. */
  function OwnedCount(menus: map<int, Menu>, stan: int, ids: seq<int>): int {
    |ToSet(ids) * MenusOfStan(menus, stan)|
  }

  /** The count check passes exactly when the ids are pairwise distinct and
      each is a menu of the stand: an unknown id, another stand's menu or a
      repeated id is rejected. */
  lemma OwnedCountSpec(menus: map<int, Menu>, stan: int, ids: seq<int>)
    ensures OwnedCount(menus, stan, ids) == |ids| <==>
      Distinct(ids) && forall i :: 0 <= i < |ids| ==> ids[i] in menus && menus[ids[i]].idStan == stan
  {
    CountFound(ids, MenusOfStan(menus, stan));
    if ToSet(ids) <= MenusOfStan(menus, stan) {
      forall i | 0 <= i < |ids| ensures ids[i] in menus && menus[ids[i]].idStan == stan {
        assert ids[i] in ToSet(ids);
      }
    }
  }

  /** Some pivot row links discount `idDiskon` to a menu of stand `stan`:
      what updating or deleting a discount requires of the caller. */
  predicate LinkedToStan(ps: seq<MenuDiskon>, menus: map<int, Menu>, idDiskon: int, stan: int) {
    exists i :: 0 <= i < |ps| && ps[i].idDiskon == idDiskon && ps[i].idMenu in menus &&
      menus[ps[i].idMenu].idStan == stan
  }

  // ---------------------------------------------------------- partial update

  /** The fields an update request may carry; `None` / `Undefined` means
      the field was not sent. */
  datatype DiskonPatch = DiskonPatch(nama: Option<string>, persen: Input<real>, awal: Input<int>, akhir: Input<int>)

  predicate PatchEmpty(p: DiskonPatch) {
    p.nama.None? && p.persen.Undefined? && p.awal.Undefined? && p.akhir.Undefined?
  }

  /** The window start after the update: the new date if sent, else the old one. */
  function MergedAwal(d: Diskon, p: DiskonPatch): int {
    if p.awal.Supplied? && p.awal.parsed.Some? then p.awal.parsed.value else d.awal
  }

  function MergedAkhir(d: Diskon, p: DiskonPatch): int {
    if p.akhir.Supplied? && p.akhir.parsed.Some? then p.akhir.parsed.value else d.akhir
  }

  /** The checks `updateDiskon` makes of a patch, in its order: a sent
      percentage must be accepted, sent dates must parse, the merged window
      must be ordered, and at least one field must be sent. */
  predicate PatchAccepted(d: Diskon, p: DiskonPatch) {
    (p.persen.Supplied? ==> PercentAccepted(p.persen.parsed)) &&
    (p.awal.Supplied? ==> p.awal.parsed.Some?) &&
    (p.akhir.Supplied? ==> p.akhir.parsed.Some?) &&
    WindowOrdered(MergedAwal(d, p), MergedAkhir(d, p)) &&
    !PatchEmpty(p)
  }

  /** The stored discount after an accepted patch: each sent field
      replaces the old value, each field not sent is kept. */
  function ApplyPatch(d: Diskon, p: DiskonPatch): (r: Diskon)
    ensures r.id == d.id
    ensures r.nama == if p.nama.Some? then p.nama.value else d.nama
    ensures p.persen.Undefined? ==> r.persen == d.persen
    ensures p.awal.Undefined? ==> r.awal == d.awal
    ensures p.akhir.Undefined? ==> r.akhir == d.akhir
    ensures p.persen.Supplied? && p.persen.parsed.Some? ==> r.persen == p.persen.parsed.value
    ensures p.awal.Supplied? && p.awal.parsed.Some? ==> r.awal == p.awal.parsed.value
    ensures p.akhir.Supplied? && p.akhir.parsed.Some? ==> r.akhir == p.akhir.parsed.value
  {
    Diskon(d.id,
      if p.nama.Some? then p.nama.value else d.nama,
      if p.persen.Supplied? && p.persen.parsed.Some? then p.persen.parsed.value else d.persen,
      MergedAwal(d, p),
      MergedAkhir(d, p))
  }

  /** An accepted patch keeps a stored discount well formed, and sending
      the same patch again changes nothing more. */
  lemma ApplyPatchSound(d: Diskon, p: DiskonPatch)
    requires DiskonWellFormed(d) && PatchAccepted(d, p)
    ensures DiskonWellFormed(ApplyPatch(d, p))
    ensures PatchAccepted(ApplyPatch(d, p), p)
    ensures ApplyPatch(ApplyPatch(d, p), p) == ApplyPatch(d, p)
  {
  }
}
