/** The relational tables the controllers read and write, held in memory.
    Each table is a field of `Db`; a multi-statement `$transaction` of the
    source is one method body that reassigns these fields. */
module Tables {
  import opened Wrappers
  import opened Seqs

  datatype Jenis = Makanan | Minuman

  /** A row of `menu`. */
  datatype Menu = Menu(id: int, idStan: int, nama: string, harga: real, jenis: Jenis)

  /** A row of `diskon`: a percentage valid from `awal` to `akhir`
      (timestamps). */
  datatype Diskon = Diskon(id: int, nama: string, persen: real, awal: int, akhir: int)

  /** A row of the pivot table `menu_diskon`. */
  datatype MenuDiskon = MenuDiskon(id: int, idMenu: int, idDiskon: int)

  datatype Status = BelumDikonfirm | Dimasak | Diantar | Sampai

  /** A row of `transaksi`. */
  datatype Transaksi = Transaksi(id: int, tanggal: int, idStan: int, idSiswa: int, status: Status)

  /** A row of `detail_transaksi`: `hargaBeli` is the unit price paid. */
  datatype Detail = Detail(idTransaksi: int, idMenu: int, qty: int, hargaBeli: real)

  /** `if (!id_user)` lets the request through: a user id was decoded from
      the token and it is not 0. */
  predicate SignedIn(user: Option<int>) {
    user.Some? && user.value != 0
  }

  // ----------------------------------------------------------- invariants

  predicate MenusKeyed(menus: map<int, Menu>) {
    forall k :: k in menus ==> menus[k].id == k
  }

  /** What the discount handlers enforce before any discount is stored. */
  predicate DiskonWellFormed(d: Diskon) {
    0.0 < d.persen <= 100.0 && d.awal <= d.akhir
  }

  predicate DiskonsOk(diskons: map<int, Diskon>, nextId: int) {
    forall k :: k in diskons ==> diskons[k].id == k && k < nextId && DiskonWellFormed(diskons[k])
  }

  /** Pivot rows are listed in id order. */
  predicate PivotIdsAscending(ps: seq<MenuDiskon>) {
    forall i, j :: 0 <= i < j < |ps| ==> ps[i].id < ps[j].id
  }

  /** No (menu, discount) pair is linked twice. */
  predicate NoDuplicatePairs(ps: seq<MenuDiskon>) {
    forall i, j :: 0 <= i < j < |ps| ==> ps[i].idMenu != ps[j].idMenu || ps[i].idDiskon != ps[j].idDiskon
  }

  /** Every pivot row points at an existing menu and an existing discount:
      there are no orphan rows. */
  predicate PivotsReference(ps: seq<MenuDiskon>, menus: map<int, Menu>, diskons: map<int, Diskon>) {
    forall i :: 0 <= i < |ps| ==> ps[i].idMenu in menus && ps[i].idDiskon in diskons
  }

  predicate PivotsOk(ps: seq<MenuDiskon>, menus: map<int, Menu>, diskons: map<int, Diskon>, nextId: int) {
    PivotIdsAscending(ps) && NoDuplicatePairs(ps) && PivotsReference(ps, menus, diskons) &&
    forall i :: 0 <= i < |ps| ==> ps[i].id < nextId
  }

  predicate TransaksiOk(ts: map<int, Transaksi>, nextId: int) {
    forall k :: k in ts ==> ts[k].id == k && k < nextId
  }

  predicate DetailsReference(ds: seq<Detail>, ts: map<int, Transaksi>, menus: map<int, Menu>) {
    forall i :: 0 <= i < |ds| ==> ds[i].idTransaksi in ts && ds[i].idMenu in menus
  }

  /** The contents of all tables at one moment, with the next
      autoincrement value of each table the handlers insert into.
      `siswaOfUser` reads `siswa.id_user` backwards (the student record of
      a user); `stanOfUser` reads `stan.id_user` backwards (the stand of a
      user: one stand per user and one user per stand). */
  datatype State = State(
    menus: map<int, Menu>,
    diskons: map<int, Diskon>,
    menuDiskon: seq<MenuDiskon>,
    transaksi: map<int, Transaksi>,
    details: seq<Detail>,
    siswaOfUser: map<int, int>,
    stanOfUser: map<int, int>,
    nextDiskonId: int,
    nextPivotId: int,
    nextTransaksiId: int)

  /** The constraints of the schema that the handlers rely on and keep. */
  predicate Consistent(s: State) {
    MenusKeyed(s.menus) &&
    DiskonsOk(s.diskons, s.nextDiskonId) &&
    PivotsOk(s.menuDiskon, s.menus, s.diskons, s.nextPivotId) &&
    TransaksiOk(s.transaksi, s.nextTransaksiId) &&
    DetailsReference(s.details, s.transaksi, s.menus)
  }

  /** The database: each table is a field that a handler reassigns. */
  class Db {
    var menus: map<int, Menu>
    var diskons: map<int, Diskon>
    var menuDiskon: seq<MenuDiskon>
    var transaksi: map<int, Transaksi>
    var details: seq<Detail>
    var siswaOfUser: map<int, int>
    var stanOfUser: map<int, int>
    var nextDiskonId: int
    var nextPivotId: int
    var nextTransaksiId: int

    /** What a query sees. */
    function Snapshot(): State
      reads this
    {
      State(menus, diskons, menuDiskon, transaksi, details, siswaOfUser, stanOfUser,
        nextDiskonId, nextPivotId, nextTransaksiId)
    }

    ghost predicate Valid()
      reads this
    {
      Consistent(Snapshot())
    }

    /** A database holding the given menus and accounts and nothing else. */
    constructor (menus: map<int, Menu>, siswaOfUser: map<int, int>, stanOfUser: map<int, int>)
      requires MenusKeyed(menus)
      ensures Valid()
      ensures Snapshot() == State(menus, map[], [], map[], [], siswaOfUser, stanOfUser, 1, 1, 1)
    {
      this.menus := menus;
      this.siswaOfUser := siswaOfUser;
      this.stanOfUser := stanOfUser;
      diskons := map[];
      menuDiskon := [];
      transaksi := map[];
      details := [];
      nextDiskonId := 1;
      nextPivotId := 1;
      nextTransaksiId := 1;
    }
  }

  predicate IdBefore(a: MenuDiskon, b: MenuDiskon) {
    a.id < b.id
  }

  predicate OtherPair(a: MenuDiskon, b: MenuDiskon) {
    a.idMenu != b.idMenu || a.idDiskon != b.idDiskon
  }

  /** Deleting rows (`deleteMany`, `delete`) keeps the pivot table ordered
      by id, free of repeated pairs and below the id counter; the rows kept
      still reference existing rows when the discounts they point at are
      kept. */
  lemma FilterPivots(ps: seq<MenuDiskon>, p: MenuDiskon -> bool, menus: map<int, Menu>,
                     diskons: map<int, Diskon>, diskons': map<int, Diskon>, next: int)
    requires PivotsOk(ps, menus, diskons, next)
    requires forall i :: 0 <= i < |ps| && p(ps[i]) ==> ps[i].idDiskon in diskons'
    ensures PivotsOk(Filter(ps, p), menus, diskons', next)
  {
    assert Pairwise(ps, IdBefore);
    assert Pairwise(ps, OtherPair);
    FilterPairwise(ps, p, IdBefore);
    FilterPairwise(ps, p, OtherPair);
    var f := Filter(ps, p);
    assert Pairwise(f, IdBefore) && Pairwise(f, OtherPair);
    forall i | 0 <= i < |f|
      ensures f[i].idMenu in menus && f[i].idDiskon in diskons' && f[i].id < next
    {
      FilterMember(ps, p, f[i]);
      var j :| 0 <= j < |ps| && ps[j] == f[i];
    }
  }
}
