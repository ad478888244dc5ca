/**
The session setup around the plan compiler: the checks of wd_agg.c, the limits that
drv/hisi_dae.c sets on keys and outputs, and the size of a hash-table row.
*/
module AggSetup {
  import opened HwOrder
  import opened AggPlan
  import opened DaeHashTable

  const MAX_KEY_COLS: nat := 9
  const MAX_CHAR_COLS: nat := 5
  const MAX_CHAR_SIZE: nat := 32
  const MAX_VCHAR_SIZE: nat := 30
  const MAX_8B_COLS: nat := 8
  const MAX_16B_COLS: nat := 8
  const MIN_ROW_SIZE: nat := 11
  const MAX_ROW_SIZE: nat := 256
  const EMPTY_SIZE: nat := 4
  const HEAD_TAIL_SIZE: nat := 8

  // ---------- limits ----------

  predicate IsText(k: KeyCol) {
    k.inType == CharType || k.inType == Varchar
  }

  predicate TextFits(k: KeyCol) {
    (k.inType == CharType ==> k.info <= MAX_CHAR_SIZE) && (k.inType == Varchar ==> k.info <= MAX_VCHAR_SIZE)
  }

  function Texts(keys: seq<KeyCol>): (n: nat) {
    if keys == [] then 0 else Texts(keys[..|keys| - 1]) + if IsText(keys[|keys| - 1]) then 1 else 0
  }

  /** key_vchar_num_size_check. */
  method KeyTextCheck(keys: seq<KeyCol>) returns (ok: bool)
    ensures ok <==> (forall i :: 0 <= i < |keys| ==> TextFits(keys[i])) && Texts(keys) <= MAX_CHAR_COLS
  {
    var count := 0;
    for i := 0 to |keys|
      invariant count == Texts(keys[..i]) && forall k :: 0 <= k < i ==> TextFits(keys[k])
    {
      assert keys[..i + 1][..i] == keys[..i];
      if keys[i].inType == CharType {
        if keys[i].info > MAX_CHAR_SIZE { return false; }
        count := count + 1;
      } else if keys[i].inType == Varchar {
        if keys[i].info > MAX_VCHAR_SIZE { return false; }
        count := count + 1;
      }
    }
    assert keys[..|keys|] == keys;
    return count <= MAX_CHAR_COLS;
  }

  /** Bytes of an output by its announced type; none for types the device cannot produce. */
  function OutBytes(t: DataType): (n: nat) {
    match t
    case Long => 8
    case ShortDecimal => 8
    case LongDecimal => 16
    case _ => 0
  }

  function OfSize(outs: seq<Output>, size: nat): (n: nat) {
    if outs == [] then 0
    else OfSize(outs[..|outs| - 1], size) + if OutBytes(outs[|outs| - 1].outType) == size then 1 else 0
  }

  function AllOfSize(cols: seq<AggCol>, size: nat): (n: nat) {
    if cols == [] then 0 else AllOfSize(cols[..|cols| - 1], size) + OfSize(cols[|cols| - 1].outs, size)
  }

  predicate Announced(c: AggCol) {
    forall j :: 0 <= j < |c.outs| ==> OutBytes(c.outs[j].outType) > 0
  }

  ghost predicate OutputsCounted(cols: seq<AggCol>, countAll: bool) {
    && (forall i :: 0 <= i < |cols| ==> Announced(cols[i]))
    && AllOfSize(cols, 8) + (if countAll then 1 else 0) <= MAX_8B_COLS && AllOfSize(cols, 16) <= MAX_16B_COLS
    && AllOfSize(cols, 8) + AllOfSize(cols, 16) + (if countAll then 1 else 0) <= MAX_OUTPUT_COLS
  }

  /** The inner loop of agg_output_num_check, with agg_get_output_num. */
  method CountSizes(c: AggCol, size8: nat, size16: nat) returns (ok: bool, n8: nat, n16: nat)
    ensures ok <==> Announced(c)
    ensures ok ==> n8 == size8 + OfSize(c.outs, 8) && n16 == size16 + OfSize(c.outs, 16)
  {
    n8, n16 := size8, size16;
    for j := 0 to |c.outs|
      invariant n8 == size8 + OfSize(c.outs[..j], 8) && n16 == size16 + OfSize(c.outs[..j], 16)
      invariant forall k :: 0 <= k < j ==> OutBytes(c.outs[k].outType) > 0
    {
      assert c.outs[..j + 1][..j] == c.outs[..j];
      match c.outs[j].outType
      case Long => n8 := n8 + 1;
      case ShortDecimal => n8 := n8 + 1;
      case LongDecimal => n16 := n16 + 1;
      case _ => return false, n8, n16;
    }
    assert c.outs[..|c.outs|] == c.outs;
    ok := true;
  }

  /** agg_output_num_check. */
  method OutputNumCheck(cols: seq<AggCol>, countAll: bool) returns (ok: bool)
    ensures ok <==> OutputsCounted(cols, countAll)
  {
    var size8: nat, size16: nat := 0, 0;
    for i := 0 to |cols|
      invariant size8 == AllOfSize(cols[..i], 8) && size16 == AllOfSize(cols[..i], 16)
      invariant forall k :: 0 <= k < i ==> Announced(cols[k])
    {
      assert cols[..i + 1][..i] == cols[..i];
      var one;
      one, size8, size16 := CountSizes(cols[i], size8, size16);
      if !one { return false; }
    }
    assert cols[..|cols|] == cols;
    if countAll { size8 := size8 + 1; }
    return size8 <= MAX_8B_COLS && size16 <= MAX_16B_COLS && size8 + size16 <= MAX_OUTPUT_COLS;
  }

  // ---------- the row of the hash table ----------

  /** get_data_type_size. */
  function TypeSize(t: HwType, info: nat): (n: nat) {
    match t
    case Sint32 => 4
    case Sint64 => 8
    case Decimal64 => 8
    case Decimal128 => 16
    case Char => Align4(info)
    case VChar => info
  }

  /** get_col_data_type_size of wd_agg.c, for the types of one size. */
  function ColumnSize(t: DataType): (n: nat) {
    match t
    case Date => 4
    case Int => 4
    case Long => 8
    case ShortDecimal => 8
    case LongDecimal => 16
    case _ => 0
  }

  /** Bytes of a key: for numbers those of its column; for text its size, and an offset if it varies, in whole words. */
  lemma KeySizeIs(k: KeyCol, j: nat)
    requires KeyInfo(k, j).Ok?
    ensures var d := KeyInfo(k, j).value; var n := TypeSize(d.hwType, d.info);
      && (!IsText(k) ==> n == ColumnSize(k.inType))
      && (k.inType == CharType ==> WholeWords(k.info, n))
      && (k.inType == Varchar ==> WholeWords(2 + if k.info == 0 then MAX_VCHAR_SIZE else k.info, n))
  {
  }

  /** n is the least number of bytes in whole words of four that holds x of them. */
  predicate WholeWords(x: nat, n: nat) {
    x <= n < x + 4 && n % 4 == 0
  }

  /** Bytes of a result are those of the column the user gets it in. */
  lemma ResultSizeIs(t: DataType, info: nat)
    requires t in {Long, ShortDecimal, LongDecimal}
    ensures TypeSize(HwOf(t), info) == ColumnSize(t) == OutBytes(t)
  {
  }

  function Sum(xs: seq<nat>): (n: nat) {
    if xs == [] then 0 else Sum(xs[..|xs| - 1]) + xs[|xs| - 1]
  }

  function KeySizes(keys: seq<KeyData>): (xs: seq<nat>)
    ensures |xs| == |keys|
  {
    seq(|keys|, i requires 0 <= i < |keys| => TypeSize(keys[i].hwType, keys[i].info))
  }

  function OutSizes(output: seq<OutCol>): (xs: seq<nat>)
    ensures |xs| == |output|
  {
    seq(|output|, i requires 0 <= i < |output| => TypeSize(output[i].hwType, output[i].info))
  }

  /** The summing loops of hashagg_get_table_rowsize. */
  method AddUp(xs: seq<nat>, start: nat) returns (n: nat)
    ensures n == start + Sum(xs)
  {
    n := start;
    for i := 0 to |xs|
      invariant n == start + Sum(xs[..i])
    {
      assert xs[..i + 1][..i] == xs[..i];
      n := n + xs[i];
    }
    assert xs[..|xs|] == xs;
  }

  ghost predicate RowSizeFor(bytes: nat, r: nat) {
    && RowSize(r) && bytes <= r
    && forall s: nat :: RowSize(s) && bytes <= s ==> r <= s
  }

  /** hashagg_get_table_rowsize: the smallest row the device has for the columns. */
  method TableRowSize(keys: seq<KeyData>, output: seq<OutCol>) returns (r: Result<nat>)
    ensures var bytes := Sum(KeySizes(keys)) + Sum(OutSizes(output)) + EMPTY_SIZE;
      && (r.Ok? <==> MIN_ROW_SIZE <= bytes <= MAX_ROW_SIZE)
      && (r.Ok? ==> RowSizeFor(bytes + HEAD_TAIL_SIZE, r.value))
  {
    var n := AddUp(KeySizes(keys), 0);
    n := AddUp(OutSizes(output), n);
    n := n + EMPTY_SIZE;
    if n < MIN_ROW_SIZE || n > MAX_ROW_SIZE { return Invalid; }
    n := n + HEAD_TAIL_SIZE;
    if n <= 32 { return Ok(32); }
    if n <= 64 { return Ok(64); }
    if n <= 128 { return Ok(128); }
    if n <= 256 { return Ok(256); }
    return Ok(512);
  }

  // ---------- the row in the user's order ----------

  function Mapped(usr: seq<nat>, f: nat -> nat): (xs: seq<nat>)
    ensures |xs| == |usr|
  {
    seq(|usr|, i requires 0 <= i < |usr| => f(usr[i]))
  }

  function UserSum(n: nat, f: nat -> nat): nat {
    if n == 0 then 0 else UserSum(n - 1, f) + f(n - 1)
  }

  ghost predicate Permutes(usr: seq<nat>, n: nat) {
    && (forall k :: 0 <= k < |usr| ==> usr[k] < n)
    && (forall a, b :: 0 <= a < b < |usr| ==> usr[a] != usr[b])
    && (forall e: nat :: e < n ==> e in usr)
  }

  lemma {:induction false} SumSplit(a: seq<nat>, b: seq<nat>)
    ensures Sum(a + b) == Sum(a) + Sum(b)
    decreases |b|
  {
    if b == [] {
      assert a + b == a;
    } else {
      assert (a + b)[..|a + b| - 1] == a + b[..|b| - 1];
      SumSplit(a, b[..|b| - 1]);
    }
  }

  /** The order of the columns does not matter for the size of the row. */
  lemma {:induction false} PermutedSum(usr: seq<nat>, n: nat, f: nat -> nat)
    requires Permutes(usr, n)
    ensures Sum(Mapped(usr, f)) == UserSum(n, f)
    decreases n
  {
    assert usr != [] ==> usr[0] < n;
    if n > 0 {
      assert n - 1 in usr;
      var k :| 0 <= k < |usr| && usr[k] == n - 1;
      var a, b := usr[..k], usr[k + 1..];
      TakeOut(usr, n, k);
      PermutedSum(a + b, n - 1, f);
      SumWithout(usr, k, f);
    }
  }

  lemma SumWithout(usr: seq<nat>, k: nat, f: nat -> nat)
    requires k < |usr|
    ensures Sum(Mapped(usr, f)) == Sum(Mapped(usr[..k] + usr[k + 1..], f)) + f(usr[k])
  {
    var a, b, x := Mapped(usr[..k], f), Mapped(usr[k + 1..], f), f(usr[k]);
    assert Mapped(usr, f) == a + ([x] + b);
    assert Mapped(usr[..k] + usr[k + 1..], f) == a + b;
    SumSplit(a, [x] + b);
    SumSplit([x], b);
    SumSplit(a, b);
    assert Sum([x]) == x by { assert [x][..0] == []; }
  }

  lemma TakeOut(usr: seq<nat>, n: nat, k: nat)
    requires n > 0 && Permutes(usr, n) && k < |usr| && usr[k] == n - 1
    ensures Permutes(usr[..k] + usr[k + 1..], n - 1)
  {
    var rest := usr[..k] + usr[k + 1..];
    forall i | 0 <= i < |rest| ensures rest[i] < n - 1 {
      assert rest[i] == usr[if i < k then i else i + 1];
    }
    forall e: nat | e < n - 1 ensures e in rest {
      assert e in usr;
      var i :| 0 <= i < |usr| && usr[i] == e;
      assert rest[if i < k then i else i - 1] == e;
    }
    forall x, y | 0 <= x < y < |rest| ensures rest[x] != rest[y] {
      assert usr[if x < k then x else x + 1] != usr[if y < k then y else y + 1];
    }
  }

  /** Bytes of user key j and of user output j in a row. */
  function KeyBytes(keys: seq<KeyCol>, j: nat): (n: nat) {
    if j < |keys| && KeyInfo(keys[j], j).Ok?
    then TypeSize(HwOf(keys[j].inType), KeyInfo(keys[j], j).value.info) else 0
  }

  function ResultBytes(cols: seq<AggCol>, j: nat): (n: nat) {
    if j < |Requests(cols)| then TypeSize(HwOf(Requests(cols)[j].result), cols[Requests(cols)[j].src].info) else 8
  }

  function KeyBytesOf(keys: seq<KeyCol>): (f: nat -> nat) {
    (j: nat) => KeyBytes(keys, j)
  }

  function ResultBytesOf(cols: seq<AggCol>): (f: nat -> nat) {
    (j: nat) => ResultBytes(cols, j)
  }

  /** Bytes of the user's columns in a row, count(*) and the empty marks included. */
  ghost function UserRow(keys: seq<KeyCol>, cols: seq<AggCol>, countAll: bool): (n: nat) {
    UserSum(|keys|, KeyBytesOf(keys))
    + UserSum(|Requests(cols)| + (if countAll then 1 else 0), ResultBytesOf(cols)) + EMPTY_SIZE
  }

  // ---------- the setup ----------

  datatype Session = Session(keys: seq<KeyData>, plan: Plan, rowSize: nat)

  ghost predicate SetupOk(keys: seq<KeyCol>, cols: seq<AggCol>, countAll: bool, countType: DataType) {
    && |cols| <= MAX_INPUT_COLS && |keys| <= MAX_KEY_COLS && (countAll ==> countType == Long)
    && (forall i :: 0 <= i < |keys| ==> TextFits(keys[i]) && KeyOk(keys[i])) && Texts(keys) <= MAX_CHAR_COLS
    && OutputsCounted(cols, countAll) && Acceptable(cols, if countAll then 1 else 0)
    && MIN_ROW_SIZE <= UserRow(keys, cols, countAll) <= MAX_ROW_SIZE
  }

  lemma KeyRow(keys: seq<KeyCol>, data: seq<KeyData>)
    requires StablePermutation(KeyTypes(data), KeyUsr(data), |keys|)
    requires forall k :: 0 <= k < |data| ==>
      && data[k].usrIdx < |keys| && data[k].hwType == HwOf(keys[data[k].usrIdx].inType)
      && KeyInfo(keys[data[k].usrIdx], data[k].usrIdx) == Ok(data[k])
    ensures Sum(KeySizes(data)) == UserSum(|keys|, KeyBytesOf(keys))
  {
    assert Permutes(KeyUsr(data), |keys|);
    hide Sum, StablePermutation, Permutes, UserSum, KeyInfo, TypeSize, HwOf;
    PermutedSum(KeyUsr(data), |keys|, KeyBytesOf(keys));
    assert KeySizes(data) == Mapped(KeyUsr(data), KeyBytesOf(keys));
  }

  lemma OutRow(cols: seq<AggCol>, p: Plan)
    requires Compiled(cols, p.countAll, p)
    ensures Sum(OutSizes(p.output)) == UserSum(|Requests(cols)| + (if p.countAll then 1 else 0), ResultBytesOf(cols))
  {
    CompiledSizes(cols, p);
    OutPermutes(cols, p);
    PermutedSum(OutUsr(p.output), |p.output|, ResultBytesOf(cols));
    hide Sum, Permutes, UserSum;
    forall k | 0 <= k < |p.output| ensures OutSizes(p.output)[k] == ResultBytes(cols, p.output[k].usrIdx) {
      OutColumn(cols, p, k);
    }
    hide Compiled, Requests;
    assert OutSizes(p.output) == Mapped(OutUsr(p.output), ResultBytesOf(cols));
  }

  lemma OutPermutes(cols: seq<AggCol>, p: Plan)
    requires Compiled(cols, p.countAll, p)
    ensures Permutes(OutUsr(p.output), |p.output|)
  {
    OutputsDistinct(cols, p);
    hide Compiled;
    forall e: nat | e < |p.output| ensures e in OutUsr(p.output) {
      var k := ColumnFor(cols, p, e);
      assert OutUsr(p.output)[k] == e;
    }
  }

  lemma OutColumn(cols: seq<AggCol>, p: Plan, k: nat)
    requires Compiled(cols, p.countAll, p) && k < |p.output|
    ensures TypeSize(p.output[k].hwType, p.output[k].info) == ResultBytes(cols, p.output[k].usrIdx)
  {
    hide StablePermutation, Requests, InputRight, HwOf;
  }

  /** hashagg_init_param_check and hashagg_fill_agg_ctx: a session, exactly for what passes the driver's checks. */
  method Setup(keys: seq<KeyCol>, cols: seq<AggCol>, countAll: bool, countType: DataType) returns (r: Result<Session>)
    ensures r.Ok? <==> SetupOk(keys, cols, countAll, countType)
    ensures r.Ok? ==>
      && Compiled(cols, countAll, r.value.plan)
      && StablePermutation(KeyTypes(r.value.keys), KeyUsr(r.value.keys), |keys|)
      && RowSizeFor(UserRow(keys, cols, countAll) + HEAD_TAIL_SIZE, r.value.rowSize)
  {
    hide Compiled, StablePermutation, OutputsCounted, Acceptable, Sum, RowSizeFor, TextFits, KeyOk, KeyInfo, Texts;
    hide UserSum, Requests, KeySizes, OutSizes, KeyTypes, KeyUsr, HwOf, KeyBytesOf, ResultBytesOf;
    if |cols| > MAX_INPUT_COLS || |keys| > MAX_KEY_COLS { return Invalid; }
    if countAll && countType != Long { return Invalid; }
    var ok := KeyTextCheck(keys);
    if !ok { return Invalid; }
    ok := OutputNumCheck(cols, countAll);
    if !ok { return Invalid; }
    var k := TransferKeyToHwType(keys);
    if k.Invalid? { return Invalid; }
    var p := Compile(cols, countAll);
    if p.Invalid? { return Invalid; }
    KeyRow(keys, k.value);
    CompiledIs(cols, countAll, p.value);
    OutRow(cols, p.value);
    var size := TableRowSize(k.value, p.value.output);
    if size.Invalid? { return Invalid; }
    return Ok(Session(k.value, p.value, size.value));
  }

  // ---------- the checks of wd_agg.c ----------

  const ALG_TYPES: nat := 4

  /** check_col_data_info: a decimal has a precision, and no more decimals than digits; text has a size. */
  predicate InfoOk(t: DataType, info: nat) {
    match t
    case ShortDecimal => 0 < info % 256 && info / 256 % 256 <= info % 256
    case LongDecimal => 0 < info % 256 && info / 256 % 256 <= info % 256
    case CharType => info > 0
    case _ => true
  }

  /** Over the two bytes of the information: digits in the low one, decimals in the high one. */
  lemma InfoOkIff(t: DataType, digits: nat, decimals: nat)
    requires digits < 256 && decimals < 256
    ensures t in {ShortDecimal, LongDecimal} ==>
      (InfoOk(t, decimals * 256 + digits) <==> digits >= 1 && decimals <= digits)
    ensures t == CharType ==> (InfoOk(t, decimals * 256 + digits) <==> digits != 0 || decimals != 0)
    ensures t !in {ShortDecimal, LongDecimal, CharType} ==> InfoOk(t, decimals * 256 + digits)
  {
    var info := decimals * 256 + digits;
    assert info % 256 == digits && info / 256 == decimals;
  }

  /** check_count_out_data_type. */
  predicate CountTypeOk(t: DataType) {
    t in {Int, Long, ShortDecimal, LongDecimal}
  }

  ghost predicate ColumnOk(c: AggCol) {
    InfoOk(c.inType, c.info) && c.outs != [] && NoRepeat(c)
  }

  /** The inner loop of check_agg_cols_info: no aggregate twice. */
  method CheckAlgs(c: AggCol) returns (ok: bool)
    ensures ok <==> NoRepeat(c)
  {
    var counted: set<Alg> := {};
    for j := 0 to |c.outs|
      invariant counted == Algs(c.outs[..j])
      invariant forall a, b :: 0 <= a < b < j ==> c.outs[a].alg != c.outs[b].alg
    {
      var alg := c.outs[j].alg;
      if alg in counted {
        var k :| 0 <= k < j && c.outs[..j][k].alg == alg;
        assert c.outs[k].alg == c.outs[j].alg;
        return false;
      }
      forall a | 0 <= a < j ensures c.outs[a].alg != alg {
        assert c.outs[..j][a].alg in Algs(c.outs[..j]);
      }
      AlgsNext(c.outs, j);
      counted := counted + {alg};
    }
    ok := true;
  }

  lemma AlgsNext(outs: seq<Output>, j: nat)
    requires j < |outs|
    ensures Algs(outs[..j + 1]) == Algs(outs[..j]) + {outs[j].alg}
  {
    var more := outs[..j + 1];
    assert more[..j] == outs[..j] && more[j] == outs[j];
    assert forall k :: 0 <= k < j ==> more[k] == outs[..j][k];
  }

  /** Four different aggregates are all there are, so the bound on their number adds nothing. */
  lemma FewAlgs(outs: seq<Output>)
    requires forall a, b :: 0 <= a < b < |outs| ==> outs[a].alg != outs[b].alg
    ensures |outs| == |Algs(outs)| <= ALG_TYPES
  {
    AlgsCount(outs);
    var all := {Alg.Sum, Count, Max, Min};
    assert Algs(outs) <= all && |all| == ALG_TYPES;
    SubsetSize(Algs(outs), all);
  }

  lemma {:induction false} AlgsCount(outs: seq<Output>)
    requires forall a, b :: 0 <= a < b < |outs| ==> outs[a].alg != outs[b].alg
    ensures |Algs(outs)| == |outs|
  {
    if outs == [] {
      assert Algs(outs) == {};
    } else {
      var m := |outs| - 1;
      AlgsCount(outs[..m]);
      AlgsNext(outs, m);
      assert outs[..m + 1] == outs;
      assert outs[m].alg !in Algs(outs[..m]);
    }
  }

  lemma {:induction false} SubsetSize<T>(a: set<T>, b: set<T>)
    requires a <= b
    ensures |a| <= |b|
    decreases b
  {
    if b == {} {
    } else {
      var x :| x in b;
      SubsetSize(a - {x}, b - {x});
    }
  }

  /** check_agg_cols_info, with the number of output columns. */
  method CheckAggCols(cols: seq<AggCol>, start: nat) returns (ok: bool, outNum: nat)
    ensures ok <==> forall i :: 0 <= i < |cols| ==> ColumnOk(cols[i])
    ensures ok ==> outNum == start + |Requests(cols)|
  {
    outNum := start;
    for i := 0 to |cols|
      invariant outNum == start + |Requests(cols[..i])|
      invariant forall k :: 0 <= k < i ==> ColumnOk(cols[k])
    {
      var c := cols[i];
      if !InfoOk(c.inType, c.info) { return false, outNum; }
      if |c.outs| == 0 || |c.outs| > ALG_TYPES {
        if NoRepeat(c) { FewAlgs(c.outs); }
        return false, outNum;
      }
      var distinct := CheckAlgs(c);
      if !distinct { return false, outNum; }
      assert cols[..i + 1][..i] == cols[..i];
      outNum := outNum + |c.outs|;
    }
    assert cols[..|cols|] == cols;
    ok := true;
  }

  ghost predicate SessionOk(keys: seq<KeyCol>, cols: seq<AggCol>, countAll: bool, countType: DataType) {
    && keys != [] && (countAll || cols != []) && (countAll ==> CountTypeOk(countType))
    && (forall i :: 0 <= i < |keys| ==> InfoOk(keys[i].inType, keys[i].info))
    && (forall i :: 0 <= i < |cols| ==> ColumnOk(cols[i]))
  }

  /** wd_agg_check_sess_params. */
  method CheckSession(keys: seq<KeyCol>, cols: seq<AggCol>, countAll: bool, countType: DataType)
    returns (ok: bool, outNum: nat)
    ensures ok <==> SessionOk(keys, cols, countAll, countType)
    ensures ok ==> outNum == |Requests(cols)| + if countAll then 1 else 0
  {
    outNum := 0;
    if |keys| == 0 { return false, 0; }
    if !countAll {
      if |cols| == 0 { return false, 0; }
    } else {
      if !CountTypeOk(countType) { return false, 0; }
      outNum := 1;
    }
    for i := 0 to |keys|
      invariant forall k :: 0 <= k < i ==> InfoOk(keys[k].inType, keys[k].info)
    {
      if !InfoOk(keys[i].inType, keys[i].info) { return false, outNum; }
    }
    ok, outNum := CheckAggCols(cols, outNum);
  }

  /**
  wd_agg_alloc_sess: the driver sees only what the library's checks let through, so in a
  session no column has an aggregate twice, and there are as many output buffers as the
  plan has columns.
  */
  method AllocSession(keys: seq<KeyCol>, cols: seq<AggCol>, countAll: bool, countType: DataType)
    returns (r: Result<Session>, outNum: nat)
    ensures r.Ok? <==> SessionOk(keys, cols, countAll, countType) && SetupOk(keys, cols, countAll, countType)
    ensures r.Ok? ==> NoRepeats(cols) && Compiled(cols, countAll, r.value.plan) && outNum == |r.value.plan.output|
  {
    hide SetupOk, Compiled, Requests, NoRepeat, InfoOk, CountTypeOk, RowSizeFor, StablePermutation;
    var ok;
    ok, outNum := CheckSession(keys, cols, countAll, countType);
    if !ok { return Invalid, outNum; }
    r := Setup(keys, cols, countAll, countType);
    if r.Ok? {
      CompiledIs(cols, countAll, r.value.plan);
      CompiledSizes(cols, r.value.plan);
    }
  }

  // ---------- announced and produced sizes ----------

  /** Outputs the device produces with this many bytes. */
  function Produces(reqs: seq<Request>, size: nat): (n: nat) {
    if reqs == [] then 0
    else Produces(reqs[..|reqs| - 1], size) + if OutBytes(reqs[|reqs| - 1].result) == size then 1 else 0
  }

  /** The device's limits hold of what it produces. */
  predicate WithinLimits(cols: seq<AggCol>, countAll: bool) {
    Produces(Requests(cols), 8) + (if countAll then 1 else 0) <= MAX_8B_COLS
    && Produces(Requests(cols), 16) <= MAX_16B_COLS
  }

  predicate AllProduce(reqs: seq<Request>, size: nat) {
    forall j :: 0 <= j < |reqs| ==> OutBytes(reqs[j].result) == size
  }

  /** Every maximum and minimum is announced with the size of its column. */
  predicate ExtremesSized(cols: seq<AggCol>) {
    forall i, k :: 0 <= i < |cols| && 0 <= k < |cols[i].outs| && cols[i].outs[k].alg in {Max, Min} ==>
      OutBytes(cols[i].outs[k].outType) == OutBytes(cols[i].inType)
  }

  /** The size counted for an output, by its announced type, is the size produced exactly when no extreme differs. */
  lemma SizesAnnouncedIff(cols: seq<AggCol>, start: nat)
    requires Acceptable(cols, start)
    ensures (forall j :: 0 <= j < |Requests(cols)| ==>
               OutBytes(Requests(cols)[j].announced) == OutBytes(Requests(cols)[j].result))
            <==> ExtremesSized(cols)
  {
    hide Requests, Acceptable, OutBytes;
    if ExtremesSized(cols) {
      forall j | 0 <= j < |Requests(cols)|
        ensures OutBytes(Requests(cols)[j].announced) == OutBytes(Requests(cols)[j].result)
      {
        RequestTypes(cols, start, j);
        var k := RequestOutput(cols, j);
      }
    } else {
      var i, k :| 0 <= i < |cols| && 0 <= k < |cols[i].outs| && cols[i].outs[k].alg in {Max, Min}
        && OutBytes(cols[i].outs[k].outType) != OutBytes(cols[i].inType);
      var j := OutputRequest(cols, i, k);
      RequestTypes(cols, start, j);
    }
  }

  lemma {:induction false} ProducesAll(reqs: seq<Request>)
    requires forall j :: 0 <= j < |reqs| ==> OutBytes(reqs[j].result) > 0
    ensures Produces(reqs, 8) + Produces(reqs, 16) == |reqs|
    ensures Produces(reqs, 8) == |reqs| <==> AllProduce(reqs, 8)
    ensures Produces(reqs, 16) == |reqs| <==> AllProduce(reqs, 16)
    decreases |reqs|
  {
    if reqs != [] {
      var m := |reqs| - 1;
      ProducesAll(reqs[..m]);
      assert forall j :: 0 <= j < m ==> reqs[..m][j] == reqs[j];
    }
  }

  /** The limits fail of what an accepted setup produces exactly when it has nine outputs, all of one size. */
  lemma WithinLimitsIff(cols: seq<AggCol>, countAll: bool)
    requires Acceptable(cols, if countAll then 1 else 0)
    ensures var reqs := Requests(cols); var n := |reqs| + if countAll then 1 else 0;
      !WithinLimits(cols, countAll) <==>
        n == MAX_OUTPUT_COLS && (AllProduce(reqs, 8) || (!countAll && AllProduce(reqs, 16)))
  {
    var reqs := Requests(cols);
    hide Requests, Acceptable;
    forall j | 0 <= j < |reqs| ensures OutBytes(reqs[j].result) > 0 {
      AcceptedBytes(cols, if countAll then 1 else 0, j);
    }
    assert |reqs| + (if countAll then 1 else 0) <= MAX_OUTPUT_COLS by { AcceptedFits(cols, if countAll then 1 else 0); }
    ProducesAll(reqs);
  }

  lemma AcceptedFits(cols: seq<AggCol>, start: nat)
    requires Acceptable(cols, start)
    ensures start + |Requests(cols)| <= MAX_OUTPUT_COLS
  {
  }

  lemma AcceptedBytes(cols: seq<AggCol>, start: nat, j: nat)
    requires Acceptable(cols, start) && j < |Requests(cols)|
    ensures OutBytes(Requests(cols)[j].result) in {8, 16}
  {
    var k := RequestOutput(cols, j);
    var q := Requests(cols)[j];
    hide Requests;
    assert Supported(cols[q.src], cols[q.src].outs[k]);
  }

  lemma {:induction false} CountsAnnounced(a: seq<AggCol>, size: nat)
    ensures AllOfSize(a, size) == ProducesAnnounced(Requests(a), size)
    decreases |a|
  {
    if a != [] {
      var m := |a| - 1;
      CountsAnnounced(a[..m], size);
      ColumnSizes(m, a[m], a[m].outs, size);
      assert a[m].(outs := a[m].outs) == a[m];
      AnnouncedConcat(Requests(a[..m]), ColRequests(m, a[m]), size);
    }
  }

  /** Outputs announced with this many bytes. */
  function ProducesAnnounced(reqs: seq<Request>, size: nat): (n: nat) {
    if reqs == [] then 0
    else ProducesAnnounced(reqs[..|reqs| - 1], size) + if OutBytes(reqs[|reqs| - 1].announced) == size then 1 else 0
  }

  lemma {:induction false} AnnouncedConcat(a: seq<Request>, b: seq<Request>, size: nat)
    ensures ProducesAnnounced(a + b, size) == ProducesAnnounced(a, size) + ProducesAnnounced(b, size)
    decreases |b|
  {
    if b == [] {
      assert a + b == a;
    } else {
      assert (a + b)[..|a + b| - 1] == a + b[..|b| - 1];
      AnnouncedConcat(a, b[..|b| - 1], size);
    }
  }

  lemma {:induction false} ColumnSizes(src: nat, c: AggCol, outs: seq<Output>, size: nat)
    ensures OfSize(outs, size) == ProducesAnnounced(ColRequests(src, c.(outs := outs)), size)
    decreases |outs|
  {
    if outs != [] {
      var m := |outs| - 1;
      ColumnSizes(src, c, outs[..m], size);
      var all := ColRequests(src, c.(outs := outs));
      assert all[..m] == ColRequests(src, c.(outs := outs[..m]));
    }
  }

  lemma {:induction false} SameSizes(reqs: seq<Request>, size: nat)
    requires forall j :: 0 <= j < |reqs| ==> OutBytes(reqs[j].announced) == OutBytes(reqs[j].result)
    ensures ProducesAnnounced(reqs, size) == Produces(reqs, size)
  {
    if reqs != [] { SameSizes(reqs[..|reqs| - 1], size); }
  }

  /** Where every maximum and minimum is announced with its size, what passes the driver's check keeps the limits. */
  lemma SizedWithinLimits(cols: seq<AggCol>, countAll: bool)
    requires OutputsCounted(cols, countAll) && Acceptable(cols, if countAll then 1 else 0) && ExtremesSized(cols)
    ensures WithinLimits(cols, countAll)
  {
    SizesAnnouncedIff(cols, if countAll then 1 else 0);
    CountsAnnounced(cols, 8);
    CountsAnnounced(cols, 16);
    hide Requests, Acceptable, AllOfSize, ExtremesSized;
    SameSizes(Requests(cols), 8);
    SameSizes(Requests(cols), 16);
  }

  /** n maxima of long decimals, the first of them announced as a short one. */
  function Maxima(n: nat): (cols: seq<AggCol>)
    ensures |cols| == n
  {
    seq(n, i => AggCol(20, LongDecimal, [Output(Max, if i == 0 then ShortDecimal else LongDecimal)]))
  }

  lemma {:induction false} MaximaRequests(n: nat)
    ensures |Requests(Maxima(n))| == n
    ensures forall j :: 0 <= j < n ==>
      Requests(Maxima(n))[j] == Request(j, Max, LongDecimal, if j == 0 then ShortDecimal else LongDecimal)
    ensures AllOfSize(Maxima(n), 8) == if n == 0 then 0 else 1
    ensures AllOfSize(Maxima(n), 16) == if n == 0 then 0 else n - 1
  {
    if n > 0 {
      MaximaRequests(n - 1);
      assert Maxima(n)[..n - 1] == Maxima(n - 1);
      var c := Maxima(n)[n - 1];
      assert ColRequests(n - 1, c) == [Req(n - 1, c, c.outs[0])];
      OneSize(c.outs, 8);
      OneSize(c.outs, 16);
    }
  }

  lemma OneSize(outs: seq<Output>, size: nat)
    requires |outs| == 1
    ensures OfSize(outs, size) == if OutBytes(outs[0].outType) == size then 1 else 0
  {
    assert outs[..0] == [];
  }

  lemma {:induction false} ConstSum(n: nat, f: nat -> nat, x: nat)
    requires forall j: nat :: j < n ==> f(j) == x
    ensures UserSum(n, f) == n * x
  {
    if n > 0 { ConstSum(n - 1, f, x); }
  }

  /**
  Nine maxima of long decimals, one of them announced as a short decimal, pass every check:
  nine results of 16 bytes where the device has eight.
  */
  method NineLong() returns (r: Result<Session>)
    ensures r.Ok? && !WithinLimits(Maxima(9), false) && |Requests(Maxima(9))| == 9
    ensures forall j :: 0 <= j < 9 ==> OutBytes(Requests(Maxima(9))[j].result) == 16
    ensures OutBytes(Requests(Maxima(9))[0].announced) == 8
  {
    hide *;
    NineOk();
    NineAccepted();
    NineBytes();
    var outNum;
    r, outNum := AllocSession([KeyCol(0, Long)], Maxima(9), false, Long);
  }

  lemma NineBytes()
    ensures |Requests(Maxima(9))| == 9 && OutBytes(Requests(Maxima(9))[0].announced) == 8
    ensures forall j :: 0 <= j < 9 ==> OutBytes(Requests(Maxima(9))[j].result) == 16
    ensures !WithinLimits(Maxima(9), false)
  {
    NineAccepted();
    hide Requests, Acceptable, OutputsCounted, WithinLimits;
    WithinLimitsIff(Maxima(9), false);
  }

  lemma NineOk()
    ensures SessionOk([KeyCol(0, Long)], Maxima(9), false, Long) && SetupOk([KeyCol(0, Long)], Maxima(9), false, Long)
  {
    hide Requests, Acceptable, OutputsCounted, UserRow, ColumnOk;
    NineAccepted();
    NineRow([KeyCol(0, Long)]);
    OneText([KeyCol(0, Long)]);
    hide Maxima, Texts;
  }

  lemma OneText(keys: seq<KeyCol>)
    requires keys == [KeyCol(0, Long)]
    ensures Texts(keys) == 0
  {
    assert keys[..0] == [];
  }

  lemma NineAccepted()
    ensures var cols := Maxima(9);
      && Acceptable(cols, 0) && OutputsCounted(cols, false) && |Requests(cols)| == 9
      && (forall i :: 0 <= i < 9 ==> ColumnOk(cols[i]))
      && (forall j :: 0 <= j < 9 ==> Requests(cols)[j].result == LongDecimal)
      && Requests(cols)[0].announced == ShortDecimal
  {
    MaximaRequests(9);
    hide Requests, AllOfSize;
    forall i, j | 0 <= i < 9 && 0 <= j < |Maxima(9)[i].outs| ensures Supported(Maxima(9)[i], Maxima(9)[i].outs[j]) {
      assert j == 0;
    }
  }

  lemma NineRow(keys: seq<KeyCol>)
    requires keys == [KeyCol(0, Long)]
    ensures UserRow(keys, Maxima(9), false) == 156
  {
    hide *;
    NineParts(keys);
    ConstSum(9, ResultBytesOf(Maxima(9)), 16);
    ConstSum(1, KeyBytesOf(keys), 8);
    RowIs(keys, Maxima(9));
  }

  lemma NineParts(keys: seq<KeyCol>)
    requires keys == [KeyCol(0, Long)]
    ensures |Requests(Maxima(9))| == 9
    ensures forall j: nat :: j < 9 ==> ResultBytesOf(Maxima(9))(j) == 16
    ensures forall j: nat :: j < 1 ==> KeyBytesOf(keys)(j) == 8
  {
    hide Requests, AllOfSize;
    MaximaRequests(9);
    hide Maxima;
  }

  lemma RowIs(keys: seq<KeyCol>, cols: seq<AggCol>)
    ensures UserRow(keys, cols, false)
            == UserSum(|keys|, KeyBytesOf(keys)) + UserSum(|Requests(cols)|, ResultBytesOf(cols)) + 4
  {
  }
}
