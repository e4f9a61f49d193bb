/** `getNotaTransaksi` of backend/src/controllers/detailtransaksiController.ts:
    a student reads the receipt of one of their own orders. */
module Receipt {
  import opened Wrappers
  import opened Seqs
  import opened Tables
  import TransactionController

  /** One receipt line: menu name, quantity, unit price paid, and
      `qty * harga_beli`. */
  datatype NotaLine = NotaLine(nama: string, qty: int, harga: real, subtotal: real)

  datatype Nota = Nota(transaksi: Transaksi, items: seq<NotaLine>, total: real)

  /** The JSON reply, or the PDF document; the PDF prints the same lines and
      total (its layout is not modelled). */
  datatype Receipt = Json(nota: Nota) | Pdf(nota: Nota)

  /** `trx.detail_transaksi`: the detail rows of transaction `id`, in stored
      order. */
  function DetailsOf(ds: seq<Detail>, id: int): seq<Detail> {
    Filter(ds, (d: Detail) => d.idTransaksi == id)
  }

  /** The rows shown are exactly the stored rows of that transaction, in
      stored order. */
  lemma DetailsOfSpec(ds: seq<Detail>, id: int)
    ensures forall d :: d in DetailsOf(ds, id) <==> d in ds && d.idTransaksi == id
    ensures IsSubsequence(DetailsOf(ds, id), ds)
  {
    forall d ensures d in DetailsOf(ds, id) <==> d in ds && d.idTransaksi == id {
      FilterMember(ds, (d: Detail) => d.idTransaksi == id, d);
    }
    FilterIsSubsequence(ds, (d: Detail) => d.idTransaksi == id);
  }

  /** `trx.detail_transaksi.map(..)`. */
  function NotaLines(ds: seq<Detail>, menus: map<int, Menu>): (ls: seq<NotaLine>)
    requires forall i :: 0 <= i < |ds| ==> ds[i].idMenu in menus
    ensures |ls| == |ds|
  {
    seq(|ds|, i requires 0 <= i < |ds| && ds[i].idMenu in menus =>
      NotaLine(menus[ds[i].idMenu].nama, ds[i].qty, ds[i].hargaBeli, ds[i].qty as real * ds[i].hargaBeli))
  }

  /** `detail.reduce((sum, d) => sum + d.subtotal, 0)`. */
  function NotaTotal(ls: seq<NotaLine>): real {
    Sum(seq(|ls|, i requires 0 <= i < |ls| => ls[i].subtotal))
  }

  /** `qty * harga_beli` of each stored row. */
  function RowTotals(ds: seq<Detail>): (xs: seq<real>)
    ensures |xs| == |ds|
  {
    seq(|ds|, i requires 0 <= i < |ds| => ds[i].qty as real * ds[i].hargaBeli)
  }

  /** One line per stored row, in order, carrying the row's quantity and
      unit price and the menu's name, with `subtotal == qty * harga`; the
      total is the sum over the stored rows of `qty * harga_beli`, so 0 for
      a transaction without rows. */
  lemma NotaLinesSpec(ds: seq<Detail>, menus: map<int, Menu>)
    requires forall i :: 0 <= i < |ds| ==> ds[i].idMenu in menus
    ensures forall i :: 0 <= i < |ds| ==>
      NotaLines(ds, menus)[i].qty == ds[i].qty && NotaLines(ds, menus)[i].harga == ds[i].hargaBeli &&
      NotaLines(ds, menus)[i].nama == menus[ds[i].idMenu].nama &&
      NotaLines(ds, menus)[i].subtotal == NotaLines(ds, menus)[i].qty as real * NotaLines(ds, menus)[i].harga
    ensures NotaTotal(NotaLines(ds, menus)) == Sum(RowTotals(ds))
    ensures ds == [] ==> NotaTotal(NotaLines(ds, menus)) == 0.0
  {
    var ls := NotaLines(ds, menus);
    assert seq(|ls|, i requires 0 <= i < |ls| => ls[i].subtotal) == RowTotals(ds);
  }

  lemma DetailsOfReference(s: State, id: int)
    requires Consistent(s)
    ensures forall i :: 0 <= i < |DetailsOf(s.details, id)| ==> DetailsOf(s.details, id)[i].idMenu in s.menus
  {
    var f := DetailsOf(s.details, id);
    forall i | 0 <= i < |f| ensures f[i].idMenu in s.menus {
      FilterMember(s.details, (d: Detail) => d.idTransaksi == id, f[i]);
    }
  }

  /** `getNotaTransaksi`.  `id` is `Number(req.params.id)` (`None` for NaN,
      which matches no row); `pdf` is the `pdf` query parameter. */
  function GetNotaTransaksi(s: State, user: Option<int>, id: Option<int>, pdf: Option<string>): (r: Reply<Receipt>)
    requires Consistent(s)
  {
    if !SignedIn(user) then Fail(UNAUTHORIZED)
    else if user.value !in s.siswaOfUser then Fail(FORBIDDEN)
    else if id.None? || id.value !in s.transaksi || s.transaksi[id.value].idSiswa != s.siswaOfUser[user.value] then
      Fail(NOT_FOUND)
    else
      DetailsOfReference(s, id.value);
      var items := NotaLines(DetailsOf(s.details, id.value), s.menus);
      var nota := Nota(s.transaksi[id.value], items, NotaTotal(items));
      if pdf == Some("true") then Ok(OK, Pdf(nota)) else Ok(OK, Json(nota))
  }

  /** The checks in order: 401 without a signed-in user, 403 for a user
      with no student record, 404 unless the transaction exists and belongs
      to that student.  A receipt is only ever shown to the student who
      placed the order, and it is the PDF exactly when `pdf` is the string
      "true"; either form carries the same lines and total. */
  lemma GetNotaSpec(s: State, user: Option<int>, id: Option<int>, pdf: Option<string>)
    requires Consistent(s)
    ensures !SignedIn(user) ==> GetNotaTransaksi(s, user, id, pdf) == Fail(UNAUTHORIZED)
    ensures SignedIn(user) && user.value !in s.siswaOfUser ==> GetNotaTransaksi(s, user, id, pdf) == Fail(FORBIDDEN)
    ensures GetNotaTransaksi(s, user, id, pdf).Ok? <==>
      (SignedIn(user) && user.value in s.siswaOfUser && id.Some? && id.value in s.transaksi &&
       s.transaksi[id.value].idSiswa == s.siswaOfUser[user.value])
    ensures GetNotaTransaksi(s, user, id, pdf).Fail? ==>
      GetNotaTransaksi(s, user, id, pdf).code in {UNAUTHORIZED, FORBIDDEN, NOT_FOUND}
    ensures GetNotaTransaksi(s, user, id, pdf).Ok? ==>
      GetNotaTransaksi(s, user, id, pdf).code == OK &&
      (GetNotaTransaksi(s, user, id, pdf).body.Pdf? <==> pdf == Some("true")) &&
      GetNotaTransaksi(s, user, id, pdf).body.nota == GetNotaTransaksi(s, user, id, None).body.nota &&
      GetNotaTransaksi(s, user, id, pdf).body.nota.transaksi.idSiswa == s.siswaOfUser[user.value]
  {
  }

  /** Storing a fresh header with rows for existing menus keeps the
      database consistent, and the new transaction's rows are exactly the
      rows just written. */
  lemma PlacedFacts(s: State, t: Transaksi, lines: seq<TransactionController.Line>)
    requires Consistent(s) && t.id == s.nextTransaksiId
    requires forall i :: 0 <= i < |lines| ==> lines[i].idMenu in s.menus
    ensures Consistent(TransactionController.AfterOrder(s, t, lines))
    ensures DetailsOf(TransactionController.AfterOrder(s, t, lines).details, t.id) == TransactionController.Attach(t.id, lines)
  {
    var added := TransactionController.Attach(t.id, lines);
    TransactionController.AfterOrderConsistent(s, t, lines);
    var p := (d: Detail) => d.idTransaksi == t.id;
    FilterAppend(s.details, added, p);
    FilterNone(s.details, p);
    FilterAll(added, p);
  }

  /** The stored rows of an order total line by line to the order's
      subtotals. */
  lemma RowTotalsAttach(id: int, lines: seq<TransactionController.Line>)
    ensures RowTotals(TransactionController.Attach(id, lines)) == TransactionController.Subtotals(lines)
  {
    var ds := TransactionController.Attach(id, lines);
    forall i | 0 <= i < |lines| ensures RowTotals(ds)[i] == TransactionController.Subtotals(lines)[i] {
      var q, h := lines[i].qty as real, lines[i].hargaBeli;
      assert ds[i].qty as real * ds[i].hargaBeli == q * h;
      assert q * h == h * q;
    }
  }

  /** The receipt of an order read right after `createTransaksiSiswa`
      placed it shows the order's lines, in order, and its total equals the
      `grandTotal` of the order reply: `qty` and the unit `harga_beli` are
      stored unchanged. */
  lemma ReceiptMatchesOrder(s: State, user: Option<int>, lines: seq<TransactionController.Line>, t: Transaksi)
    requires Consistent(s)
    requires SignedIn(user) && user.value in s.siswaOfUser
    requires t.id == s.nextTransaksiId && t.idSiswa == s.siswaOfUser[user.value]
    requires forall i :: 0 <= i < |lines| ==> lines[i].idMenu in s.menus
    ensures Consistent(TransactionController.AfterOrder(s, t, lines))
    ensures GetNotaTransaksi(TransactionController.AfterOrder(s, t, lines), user, Some(t.id), None).Ok?
    ensures GetNotaTransaksi(TransactionController.AfterOrder(s, t, lines), user, Some(t.id), None).body.nota.transaksi == t
    ensures |GetNotaTransaksi(TransactionController.AfterOrder(s, t, lines), user, Some(t.id), None).body.nota.items| == |lines|
    ensures forall i :: 0 <= i < |lines| ==>
      GetNotaTransaksi(TransactionController.AfterOrder(s, t, lines), user, Some(t.id), None).body.nota.items[i].qty == lines[i].qty &&
      GetNotaTransaksi(TransactionController.AfterOrder(s, t, lines), user, Some(t.id), None).body.nota.items[i].harga == lines[i].hargaBeli
    ensures GetNotaTransaksi(TransactionController.AfterOrder(s, t, lines), user, Some(t.id), None).body.nota.total ==
      TransactionController.GrandTotal(lines)
  {
    PlacedFacts(s, t, lines);
    var s' := TransactionController.AfterOrder(s, t, lines);
    var ds := TransactionController.Attach(t.id, lines);
    DetailsOfReference(s', t.id);
    var items := NotaLines(ds, s'.menus);
    assert s'.transaksi[t.id] == t;
    assert GetNotaTransaksi(s', user, Some(t.id), None) == Ok(OK, Json(Nota(t, items, NotaTotal(items))));
    NotaLinesSpec(ds, s'.menus);
    forall i | 0 <= i < |lines| ensures items[i].qty == lines[i].qty && items[i].harga == lines[i].hargaBeli {
      assert ds[i] == Detail(t.id, lines[i].idMenu, lines[i].qty, lines[i].hargaBeli);
    }
    RowTotalsAttach(t.id, lines);
  }
}
