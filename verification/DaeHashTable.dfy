/**
Hash-table layout of drv/hisi_dae_common.c: where the extended and the standard table go
inside the user's memory, and how a failed initialisation is rolled back.
*/
module DaeHashTable {
  import opened ModArith

  const ALIGN_SIZE := 128
  const MIN_WIDTH := 10
  const MAX_WIDTH := 43

  /** struct wd_dae_hash_table: two memory areas counted in rows of rowBytes. */
  datatype UserTable = UserTable(std: nat, stdRows: nat, ext: nat, extRows: nat, rowBytes: nat)

  /** struct hash_table_data; sizes in bytes. */
  datatype Desc = Desc(stdTable: nat, stdSize: nat, extTable: nat, extSize: nat, width: nat)

  const BLANK := Desc(0, 0, 0, 0, 0)

  datatype Place = Place(table: nat, rows: nat)

  predicate RowSize(r: nat) {
    r == 32 || r == 64 || r == 128 || r == 256 || r == 512
  }

  function Align(a: nat): (p: nat)
    ensures a <= p < a + ALIGN_SIZE && p % ALIGN_SIZE == 0
  {
    (a + ALIGN_SIZE - 1) / ALIGN_SIZE * ALIGN_SIZE
  }

  // ---------- the extended table ----------

  /** dae_ext_table_rownum before its result is cut to 32 bits. */
  function ExtPlace(u: UserTable, r: nat): (p: Place)
    requires r > 0
  {
    PlaceFrom(u.ext, Align(u.ext), u.rowBytes * u.extRows, r)
  }

  function PlaceFrom(ext: nat, table: nat, size: nat, r: nat): (p: Place)
    requires r > 0 && ext <= table
  {
    var skip := table - ext;
    if skip >= size then Place(0, 0)
    else
      var rows := (size - skip) / r;
      if r == 32 then
        if skip >= r then Place(table - r, rows + 1)
        else if rows > 3 then Place(table + 3 * r, rows - 3)
        else Place(0, 0)
      else if r == 64 then
        if skip >= r then Place(table - r, rows + 1)
        else if rows > 1 then Place(table + r, rows - 1)
        else Place(0, 0)
      else Place(table, rows)
  }

  /** An address in the area from which the second row is aligned. */
  ghost predicate SecondRowAligned(u: UserTable, r: nat, table: nat) {
    u.ext <= table && (table + r) % ALIGN_SIZE == 0
  }

  /** The lowest such address: by how much the first one may lie below an aligned address. */
  function Lowest(u: UserTable, r: nat): (table: nat)
    requires RowSize(r)
  {
    LowestFrom(u.ext, Align(u.ext), r)
  }

  function LowestFrom(ext: nat, a: nat, r: nat): (table: nat)
    requires RowSize(r) && ext <= a
  {
    var off := r % ALIGN_SIZE;
    if a - ext >= off then a - off else a + ALIGN_SIZE - off
  }

  lemma LowestIsLowest(u: UserTable, r: nat, other: nat)
    requires RowSize(r)
    ensures SecondRowAligned(u, r, Lowest(u, r))
    ensures SecondRowAligned(u, r, other) ==> Lowest(u, r) <= other
  {
    var a := Align(u.ext);
    var p, q := a / ALIGN_SIZE, (other + r) / ALIGN_SIZE;
    hide Align;
    if SecondRowAligned(u, r, other) {
      NoneBetween(u.ext, p, q, r);
    }
    SecondRow(p, r);
  }

  /** Aligned addresses are 128 apart, so only one candidate starts within 128 bytes of ext. */
  lemma NoneBetween(ext: int, p: int, q: int, r: nat)
    requires RowSize(r) && ext <= 128 * p < ext + 128 && 128 * q - r >= ext
    ensures 128 * p - ext >= r % 128 ==> 128 * q - r >= 128 * p - r % 128
    ensures 128 * p - ext < r % 128 ==> 128 * q - r >= 128 * p + 128 - r % 128
  {
  }

  lemma SecondRow(p: nat, r: nat)
    requires RowSize(r)
    ensures (128 * p - r % 128 + r) % 128 == 0 && (128 * p + 128 - r % 128 + r) % 128 == 0
  {
  }

  /** Rows that fit from an address to the end of the area. */
  function Fitting(u: UserTable, r: nat, table: nat): (n: nat)
    requires r > 0
  {
    RowsTo(u.ext + u.rowBytes * u.extRows, r, table)
  }

  function RowsTo(end: nat, r: nat, table: nat): (n: nat)
    requires r > 0
  {
    if table > end then 0 else (end - table) / r
  }

  ghost predicate Exact(p: Place, lowest: nat, rows: nat) {
    (p.rows <= 1 <==> rows <= 1) && (p.rows > 1 ==> p == Place(lowest, rows))
  }

  lemma Exact32(ext: nat, a: nat, size: nat)
    requires ext <= a < ext + 128
    ensures var low := LowestFrom(ext, a, 32);
      Exact(PlaceFrom(ext, a, size, 32), low, RowsTo(ext + size, 32, low))
  {
  }

  lemma Exact64(ext: nat, a: nat, size: nat)
    requires ext <= a < ext + 128
    ensures var low := LowestFrom(ext, a, 64);
      Exact(PlaceFrom(ext, a, size, 64), low, RowsTo(ext + size, 64, low))
  {
  }

  lemma ExactLarge(ext: nat, a: nat, size: nat, r: nat)
    requires ext <= a < ext + 128 && (r == 128 || r == 256 || r == 512)
    ensures var low := LowestFrom(ext, a, r);
      Exact(PlaceFrom(ext, a, size, r), low, RowsTo(ext + size, r, low))
  {
    assert r % ALIGN_SIZE == 0;
  }

  /**
  The extended table starts at the lowest address whose second row is aligned and takes
  every row that fits from there; it is refused exactly when fewer than two rows do.
  */
  lemma ExtPlaceExact(u: UserTable, r: nat)
    requires RowSize(r)
    ensures Exact(ExtPlace(u, r), Lowest(u, r), Fitting(u, r, Lowest(u, r)))
  {
    hide Align, Exact, LowestFrom, RowsTo, PlaceFrom;
    var a, size := Align(u.ext), u.rowBytes * u.extRows;
    if r == 32 {
      Exact32(u.ext, a, size);
    } else if r == 64 {
      Exact64(u.ext, a, size);
    } else {
      ExactLarge(u.ext, a, size, r);
    }
  }

  /** Those are as many as end inside the area. */
  lemma FittingIff(u: UserTable, r: nat, table: nat, k: nat)
    requires r > 0 && table <= u.ext + u.rowBytes * u.extRows
    ensures table + k * r <= u.ext + u.rowBytes * u.extRows <==> k <= Fitting(u, r, table)
  {
    CountIff(u.ext + u.rowBytes * u.extRows - table, r, k);
  }

  lemma CountIff(bytes: nat, r: nat, k: nat)
    requires r > 0
    ensures k * r <= bytes <==> k <= bytes / r
  {
    var n := bytes / r;
    assert n * r + bytes % r == bytes;
    if k <= n {
      MulLe(k, n, r);
    } else {
      MulLe(n + 1, k, r);
      Distribute(n, 1, r);
    }
  }

  lemma FittingInside(u: UserTable, r: nat, table: nat, rows: nat)
    requires r > 0 && rows <= Fitting(u, r, table) && rows > 0
    ensures table + rows * r <= u.ext + u.rowBytes * u.extRows
  {
    var end := u.ext + u.rowBytes * u.extRows;
    var n := Fitting(u, r, table);
    assert n * r <= end - table;
    assert (n - rows) * r >= 0;
  }

  // ---------- the standard table ----------

  function Power(w: nat): (p: nat)
    ensures p > 0
  {
    if w == 0 then 1 else 2 * Power(w - 1)
  }

  function FloorLog2(n: nat): (w: nat)
    requires n > 0
    ensures Power(w) <= n < 2 * Power(w)
  {
    if n == 1 then 0 else 1 + FloorLog2(n / 2)
  }

  /** Rows between the aligned start and the end of the area; no value when the area ends first. */
  function StdRows(u: UserTable, r: nat): (n: nat)
    requires r > 0
  {
    var skip, size := Align(u.std) - u.std, u.rowBytes * u.stdRows;
    if skip >= size then 0 else (size - skip) / r
  }

  /** 2^w rows from the aligned start end inside the area. */
  predicate StdFits(u: UserTable, r: nat, w: nat) {
    Align(u.std) + Power(w) * r <= u.std + u.rowBytes * u.stdRows
  }

  lemma StdFitsIff(u: UserTable, r: nat, w: nat)
    requires r > 0
    ensures StdFits(u, r, w) <==> Power(w) <= StdRows(u, r)
  {
    var bytes := u.std + u.rowBytes * u.stdRows - Align(u.std);
    hide Align;
    MulLe(1, Power(w), r);
    if bytes > 0 {
      CountIff(bytes, r, Power(w));
    }
  }

  /** A table of an allowed width is one that holds 2^10 rows and not 2^44. */
  lemma StdAcceptedIff(u: UserTable, r: nat)
    requires r > 0
    ensures StdAccepted(u, r) <==> StdFits(u, r, MIN_WIDTH) && !StdFits(u, r, MAX_WIDTH + 1)
  {
    StdFitsIff(u, r, MIN_WIDTH);
    StdFitsIff(u, r, MAX_WIDTH + 1);
    var n := StdRows(u, r);
    hide StdFits, StdRows, Power, FloorLog2;
    if n > 0 {
      WidthLargest(n, MIN_WIDTH);
      WidthLargest(n, MAX_WIDTH + 1);
    }
  }

  predicate StdAccepted(u: UserTable, r: nat)
    requires r > 0
  {
    StdRows(u, r) > 0 && MIN_WIDTH <= FloorLog2(StdRows(u, r)) <= MAX_WIDTH
  }

  lemma {:induction false} PowerMonotone(a: nat, b: nat)
    requires a <= b
    ensures Power(a) <= Power(b)
    decreases b
  {
    if a < b {
      PowerMonotone(a, b - 1);
    }
  }

  /** No larger power of two fits. */
  lemma WidthLargest(n: nat, w: nat)
    requires n > 0
    ensures Power(w) <= n <==> w <= FloorLog2(n)
  {
    var top := FloorLog2(n);
    if w <= top {
      PowerMonotone(w, top);
    } else {
      PowerMonotone(top + 1, w);
    }
  }

  // ---------- initialisation ----------

  /** What an accepted call must have established. */
  ghost predicate LaidOut(d: Desc, u: UserTable, r: nat)
    requires RowSize(r)
  {
    && d.extTable == Lowest(u, r) && d.extTable + d.extSize <= u.ext + u.rowBytes * u.extRows
    && d.extSize == (Fitting(u, r, Lowest(u, r)) % 0x1_0000_0000) * r >= 2 * r
    && d.stdTable == Align(u.std) && d.stdSize == Power(d.width) * r
    && d.stdTable + d.stdSize <= u.std + u.rowBytes * u.stdRows
    && (forall w: nat :: StdFits(u, r, w) <==> w <= d.width)
    && MIN_WIDTH <= d.width <= MAX_WIDTH
  }

  /** When a call is accepted; live is whether a table is in place already. */
  ghost predicate Accepted(d: Desc, u: UserTable, r: nat)
    requires RowSize(r)
  {
    var rows := Fitting(u, r, Lowest(u, r)) % 0x1_0000_0000;
    && r <= u.rowBytes && u.ext != 0 && u.extRows != 0 && rows >= 2
    && (d.stdSize != 0 ==> rows * r > d.extSize)
    && StdFits(u, r, MIN_WIDTH) && !StdFits(u, r, MAX_WIDTH + 1)
  }

  lemma StdInside(u: UserTable, r: nat)
    requires r > 0 && StdRows(u, r) > 0
    ensures Align(u.std) + Power(FloorLog2(StdRows(u, r))) * r <= u.std + u.rowBytes * u.stdRows
  {
    var n := StdRows(u, r);
    var p := Power(FloorLog2(n));
    assert (n - p) * r >= 0;
    assert n * r <= u.std + u.rowBytes * u.stdRows - Align(u.std);
  }

  class HashTables {
    var hw: Desc
    var rehash: Desc

    /** An unused table has a blank descriptor. */
    ghost predicate Valid() reads this {
      hw.stdSize == 0 ==> hw == BLANK
    }

    constructor ()
      ensures Valid() && hw == BLANK
    {
      hw, rehash := BLANK, BLANK;
    }

    /** dae_ext_table_init. */
    method ExtInit(u: UserTable, r: nat, isRehash: bool) returns (ok: bool)
      requires RowSize(r)
      modifies this
      ensures var rows := Fitting(u, r, Lowest(u, r)) % 0x1_0000_0000;
        && ok == (rows >= 2 && (isRehash ==> rows * r > old(hw.extSize)))
        && hw == (if ok then old(hw).(extTable := Lowest(u, r), extSize := rows * r) else old(hw))
      ensures rehash == if ok && isRehash then old(hw) else old(rehash)
    {
      ExtPlaceExact(u, r);
      hide Lowest, Fitting, Align;
      var p := ExtPlace(u, r);
      var rows := p.rows % 0x1_0000_0000;
      hide ExtPlace;
      if rows <= 1 {
        return false;
      }
      var size := rows * r;
      if isRehash && size <= hw.extSize {
        return false;
      }
      if isRehash {
        rehash := hw;
      }
      hw := hw.(extTable := p.table, extSize := size);
      ok := true;
    }

    /** dae_std_table_init. */
    method StdInit(u: UserTable, r: nat) returns (ok: bool)
      requires RowSize(r)
      modifies this`hw
      ensures ok == StdAccepted(u, r)
      ensures ok ==>
        var w := FloorLog2(StdRows(u, r));
        hw == old(hw).(stdTable := Align(u.std), width := w, stdSize := Power(w) * r)
    {
      hw := hw.(stdTable := Align(u.std));
      var rows := StdRows(u, r);
      if rows == 0 {
        return false;
      }
      hw := hw.(width := FloorLog2(rows));
      if hw.width < MIN_WIDTH || hw.width > MAX_WIDTH {
        return false;
      }
      hw := hw.(stdSize := Power(hw.width) * r);
      ok := true;
    }

    /**
    dae_hash_table_init. A refused call leaves the active descriptor as it was; an
    accepted one on a live table grows the extended table and saves the old descriptor.
    */
    method Init(u: UserTable, r: nat) returns (ok: bool)
      requires Valid() && RowSize(r)
      modifies this
      ensures Valid()
      ensures ok == Accepted(old(hw), u, r)
      ensures ok ==> LaidOut(hw, u, r) && hw.stdSize > 0
      ensures !ok ==> hw == old(hw)
      ensures ok && old(hw).stdSize != 0 ==> hw.extSize > old(hw).extSize && rehash == old(hw)
      ensures old(hw).stdSize == 0 ==> rehash == old(rehash)
    {
      hide Lowest, Fitting, Align, FloorLog2, Power, StdRows, StdFits, StdAccepted;
      StdAcceptedIff(u, r);
      if r > u.rowBytes {
        return false;
      }
      if u.ext == 0 || u.extRows == 0 {
        return false;
      }
      var isRehash := hw.stdSize != 0;
      ok := ExtInit(u, r, isRehash);
      if !ok {
        return;
      }
      ok := StdInit(u, r);
      if !ok {
        hw := if isRehash then rehash else BLANK;
        return;
      }
      AcceptedLaysOut(hw, u, r);
    }
  }

  lemma AcceptedLaysOut(d: Desc, u: UserTable, r: nat)
    requires RowSize(r) && StdAccepted(u, r)
    requires var rows := Fitting(u, r, Lowest(u, r)) % 0x1_0000_0000;
      && rows >= 2 && d.extSize == rows * r && d.extTable == Lowest(u, r)
    requires d.width == FloorLog2(StdRows(u, r)) && d.stdTable == Align(u.std) && d.stdSize == Power(d.width) * r
    ensures LaidOut(d, u, r) && d.stdSize > 0
  {
    hide Lowest, Fitting, Align, FloorLog2, StdRows, Power, StdFits;
    forall w: nat ensures StdFits(u, r, w) <==> Power(w) <= StdRows(u, r) {
      StdFitsIff(u, r, w);
    }
    var rows := Fitting(u, r, Lowest(u, r)) % 0x1_0000_0000;
    StdInside(u, r);
    WidthIsLargest(StdRows(u, r));
    FittingInside(u, r, Lowest(u, r), rows);
    MulLe(2, rows, r);
    MulLe(1, Power(d.width), r);
  }

  lemma WidthIsLargest(n: nat)
    requires n > 0
    ensures forall w: nat :: Power(w) <= n <==> w <= FloorLog2(n)
  {
    forall w: nat ensures Power(w) <= n <==> w <= FloorLog2(n) {
      WidthLargest(n, w);
    }
  }
}
