/**
The hash-aggregation plan compiler of drv/hisi_dae.c.  A session setup asks for
aggregates of user columns; the compiler reorders columns into the hardware's
type order, rewrites source indices, and packs the result into two 64-bit words.
*/
module AggPlan {
  import opened Options
  import opened HwOrder
  import opened WordBitmap

  datatype DataType = Date | Int | Long | ShortDecimal | LongDecimal | CharType | Varchar
  datatype Alg = Sum | Count | Max | Min
  datatype Output = Output(alg: Alg, outType: DataType)
  datatype AggCol = AggCol(info: nat, inType: DataType, outs: seq<Output>)

  const MAX_INPUT_COLS: nat := 9
  const MAX_OUTPUT_COLS: nat := 9
  const MAX_COL_ALGS: nat := 2

  /** enum dae_op_type. */
  function OpCode(a: Alg): (c: nat)
    ensures c < 16
  {
    match a
    case Count => 1
    case Max => 3
    case Min => 4
    case Sum => 5
  }

  /** struct hw_agg_data; optype of an input column is the set of its algorithms. */
  datatype InCol = InCol(hwType: HwType, optype: set<Alg>, info: nat, usrIdx: nat, sumOut: SumOut)
  datatype OutCol = OutCol(hwType: HwType, op: nat, usrIdx: nat, info: nat, sumOut: SumOut)

  /** enum dae_sum_optype: what the device makes of the sum of a short decimal. */
  datatype SumOut = Unset | To64 | To128

  datatype OutSrc = OutSrc(fromIdx: nat, op: nat)

  datatype Result<T> = Ok(value: T) | Invalid

  function Power(base: nat, n: nat): (p: nat) {
    if n == 0 then 1 else base * Power(base, n - 1)
  }

  lemma {:induction false} PowerGrows(base: nat, a: nat, b: nat)
    requires base > 0 && a <= b
    ensures 0 < Power(base, a) <= Power(base, b)
    decreases b
  {
    if a < b {
      PowerGrows(base, a, b - 1);
      MulGrows(base, Power(base, b - 1));
    } else if a > 0 {
      PowerGrows(base, a - 1, a - 1);
      MulGrows(base, Power(base, a - 1));
    }
  }

  lemma MulGrows(x: nat, y: nat)
    requires x > 0
    ensures x * y >= y
  {
    assert (x - 1) * y >= 0;
  }

  /** The digits allowed are those whose numbers all fit the device's signed 64 or 128 bits. */
  lemma PrecisionIs(info: nat, long: bool)
    ensures PrecisionOk(info, long) <==> Power(10, info % 256) <= Power(2, if long then 127 else 63)
  {
    var d, top := info % 256, if long then 38 else 18;
    LargestPowers();
    hide Power;
    if d <= top {
      PowerGrows(10, d, top);
    } else {
      PowerGrows(10, top + 1, d);
    }
  }

  lemma LargestPowers()
    ensures Power(10, 18) <= Power(2, 63) < Power(10, 19)
    ensures Power(10, 38) <= Power(2, 127) < Power(10, 39)
  {
    Tens();
    Twos();
    hide Power;
  }

  lemma Tens()
    ensures Power(10, 18) == 1_000_000_000_000_000_000 && Power(10, 19) == 10 * Power(10, 18)
    ensures Power(10, 38) == Power(10, 19) * Power(10, 19) && Power(10, 39) == 10 * Power(10, 38)
  {
    assert Power(10, 1) == 10;
    PowerAdd(10, 1, 1);
    PowerAdd(10, 2, 2);
    PowerAdd(10, 4, 4);
    PowerAdd(10, 8, 8);
    PowerAdd(10, 16, 2);
    PowerAdd(10, 18, 1);
    PowerAdd(10, 19, 19);
    PowerAdd(10, 38, 1);
    hide Power;
  }

  lemma Twos()
    ensures Power(2, 63) == 0x8000_0000_0000_0000 && Power(2, 127) == Power(2, 63) * 0x1_0000_0000_0000_0000
  {
    assert Power(2, 1) == 2;
    PowerAdd(2, 1, 1);
    PowerAdd(2, 2, 2);
    PowerAdd(2, 4, 4);
    PowerAdd(2, 8, 8);
    PowerAdd(2, 16, 16);
    PowerAdd(2, 32, 32);
    PowerAdd(2, 63, 1);
    PowerAdd(2, 63, 64);
    hide Power;
  }

  lemma {:induction false} PowerAdd(base: nat, a: nat, b: nat)
    ensures Power(base, a + b) == Power(base, a) * Power(base, b)
    decreases b
  {
    if b > 0 {
      PowerAdd(base, a, b - 1);
      assert base * (Power(base, a) * Power(base, b - 1)) == Power(base, a) * (base * Power(base, b - 1));
    }
  }

  // ---------- per-column checks ----------

  /** dae_decimal_precision_check: the low byte of the column information. */
  predicate PrecisionOk(info: nat, long: bool) {
    info % 256 <= if long then 38 else 18
  }

  /** hashagg_check_sum_info: input and output column of a sum. */
  function CheckSum(c: AggCol, outType: DataType, usr: InCol): (r: Result<(InCol, OutCol)>) {
    match c.inType
    case Long =>
      if outType == Long then Ok((usr.(hwType := Sint64), OutCol(Sint64, 0, 0, 0, Unset))) else Invalid
    case ShortDecimal =>
      if outType == ShortDecimal && PrecisionOk(c.info, false)
      then Ok((usr.(hwType := Decimal64, sumOut := To64), OutCol(Decimal64, 0, 0, 0, To64)))
      else if outType == LongDecimal && PrecisionOk(c.info, true)
      then Ok((usr.(hwType := Decimal64, sumOut := To128), OutCol(Decimal128, 0, 0, 0, Unset)))
      else Invalid
    case LongDecimal =>
      if outType == LongDecimal && PrecisionOk(c.info, true)
      then Ok((usr.(hwType := Decimal128), OutCol(Decimal128, 0, 0, 0, Unset))) else Invalid
    case _ => Invalid
  }

  /** hashagg_check_max_min_info. */
  function CheckExtreme(c: AggCol, usr: InCol): (r: Result<(InCol, OutCol)>) {
    match c.inType
    case Long => Ok((usr.(hwType := Sint64), OutCol(Sint64, 0, 0, 0, Unset)))
    case ShortDecimal =>
      if PrecisionOk(c.info, false) then Ok((usr.(hwType := Decimal64), OutCol(Decimal64, 0, 0, 0, Unset))) else Invalid
    case LongDecimal =>
      if PrecisionOk(c.info, true)
      then Ok((usr.(hwType := Decimal128), OutCol(Decimal128, 0, 0, 0, Unset))) else Invalid
    case _ => Invalid
  }

  /** hashagg_check_input_data: what one requested aggregate does to its input and output column. */
  function CheckOutput(c: AggCol, o: Output, usr: InCol): (r: Result<(InCol, OutCol)>) {
    var one :=
      match o.alg
      case Sum => CheckSum(c, o.outType, usr)
      case Count => if o.outType == Long then Ok((usr, OutCol(Sint64, 0, 0, 0, Unset))) else Invalid
      case _ => CheckExtreme(c, usr);
    match one
    case Invalid => Invalid
    case Ok((i, out)) => Ok((i.(optype := usr.optype + {o.alg}), out.(op := OpCode(o.alg), info := c.info)))
  }

  // ---------- what the columns should look like to the device ----------

  /** The device's type for a user type. */
  function HwOf(t: DataType): HwType {
    match t
    case Varchar => VChar
    case CharType => Char
    case LongDecimal => Decimal128
    case ShortDecimal => Decimal64
    case Long => Sint64
    case _ => Sint32
  }

  /** The user types a device type can hold. */
  predicate StandsFor(h: HwType, t: DataType) {
    match h
    case Sint32 => t == Date || t == Int
    case Sint64 => t == Long
    case Decimal64 => t == ShortDecimal
    case Decimal128 => t == LongDecimal
    case Char => t == CharType
    case VChar => t == Varchar
  }

  lemma HwOfIff(t: DataType, h: HwType)
    ensures HwOf(t) == h <==> StandsFor(h, t)
  {
  }

  /** The user type of an aggregate's result. */
  function ResultType(c: AggCol, o: Output): DataType {
    match o.alg
    case Sum => o.outType
    case Count => Long
    case _ => c.inType
  }

  function Algs(outs: seq<Output>): set<Alg> {
    set k | 0 <= k < |outs| :: outs[k].alg
  }

  /** A column that is only counted goes as 64-bit integers; one without aggregates keeps the zero type. */
  function InHw(c: AggCol): HwType {
    if Algs(c.outs) == {} then Sint32 else if Algs(c.outs) == {Count} then Sint64 else HwOf(c.inType)
  }

  /** What the device must make of this sum; unset when there is nothing to choose. */
  function WantedSum(c: AggCol, o: Output): SumOut {
    if o.alg != Sum || c.inType != ShortDecimal then Unset
    else if o.outType == ShortDecimal then To64 else To128
  }

  /** The device gets one choice for the column: the one of the last sum. */
  function LastWanted(c: AggCol, outs: seq<Output>): SumOut {
    if outs == [] then Unset
    else
      var last := WantedSum(c, outs[|outs| - 1]);
      if last != Unset then last else LastWanted(c, outs[..|outs| - 1])
  }

  lemma {:induction false} LastWantedIsWanted(c: AggCol, outs: seq<Output>)
    ensures LastWanted(c, outs) == Unset <==> forall k :: 0 <= k < |outs| ==> WantedSum(c, outs[k]) == Unset
    ensures LastWanted(c, outs) != Unset ==> exists k :: 0 <= k < |outs| && WantedSum(c, outs[k]) == LastWanted(c, outs)
    decreases |outs|
  {
    if outs != [] {
      var m := |outs| - 1;
      LastWantedIsWanted(c, outs[..m]);
      assert forall k :: 0 <= k < m ==> outs[..m][k] == outs[k];
    }
  }

  /** Two sums of the column want different choices. */
  ghost predicate SumConflict(c: AggCol) {
    exists i, j :: 0 <= i < |c.outs| && 0 <= j < |c.outs|
      && WantedSum(c, c.outs[i]) != Unset && WantedSum(c, c.outs[j]) != Unset
      && WantedSum(c, c.outs[i]) != WantedSum(c, c.outs[j])
  }

  ghost predicate SumsAgree(cols: seq<AggCol>) {
    forall i :: 0 <= i < |cols| ==> !SumConflict(cols[i])
  }

  /** The one choice the column is given is the one output k wants. */
  predicate ChoiceSuits(c: AggCol, k: nat)
    requires k < |c.outs|
  {
    WantedSum(c, c.outs[k]) != Unset ==> LastWanted(c, c.outs) == WantedSum(c, c.outs[k])
  }

  /** That choice suits every sum of the column exactly when no two of them want different ones. */
  lemma SumChoiceSuitsIff(c: AggCol)
    ensures (forall k :: 0 <= k < |c.outs| ==> ChoiceSuits(c, k)) <==> !SumConflict(c)
  {
    LastWantedIsWanted(c, c.outs);
    hide WantedSum, LastWanted;
    if !SumConflict(c) {
      forall k | 0 <= k < |c.outs| ensures ChoiceSuits(c, k) { }
    } else {
      var i, j :| 0 <= i < |c.outs| && 0 <= j < |c.outs|
        && WantedSum(c, c.outs[i]) != Unset && WantedSum(c, c.outs[j]) != Unset
        && WantedSum(c, c.outs[i]) != WantedSum(c, c.outs[j]);
      assert !ChoiceSuits(c, i) || !ChoiceSuits(c, j);
    }
  }

  /** check_agg_cols_info of wd_agg.c refuses a second aggregate of one kind on a column. */
  predicate NoRepeat(c: AggCol) {
    forall a, b :: 0 <= a < b < |c.outs| ==> c.outs[a].alg != c.outs[b].alg
  }

  predicate NoRepeats(cols: seq<AggCol>) {
    forall i :: 0 <= i < |cols| ==> NoRepeat(cols[i])
  }

  /** So no column of a checked setup has two sums to disagree. */
  lemma NoRepeatsAgree(cols: seq<AggCol>)
    requires NoRepeats(cols)
    ensures SumsAgree(cols)
  {
    forall i | 0 <= i < |cols| ensures !SumConflict(cols[i]) {
      assert NoRepeat(cols[i]);
    }
  }

  /** The aggregate is one the device can do on this column, with this output type. */
  predicate Supported(c: AggCol, o: Output) {
    match o.alg
    case Sum =>
      || (c.inType == Long && o.outType == Long)
      || (c.inType == ShortDecimal && o.outType == ShortDecimal && PrecisionOk(c.info, false))
      || (c.inType in {ShortDecimal, LongDecimal} && o.outType == LongDecimal && PrecisionOk(c.info, true))
    case Count => o.outType == Long
    case _ =>
      || c.inType == Long
      || (c.inType == ShortDecimal && PrecisionOk(c.info, false))
      || (c.inType == LongDecimal && PrecisionOk(c.info, true))
  }

  // ---------- what the user asked for ----------

  /** One entry per user output column: source column, aggregate, type of its result, and the type announced for it. */
  datatype Request = Request(src: nat, alg: Alg, result: DataType, announced: DataType)

  function Req(src: nat, c: AggCol, o: Output): Request {
    Request(src, o.alg, ResultType(c, o), o.outType)
  }

  function ColRequests(src: nat, c: AggCol): (r: seq<Request>)
    ensures |r| == |c.outs|
    ensures forall k :: 0 <= k < |r| ==> r[k] == Req(src, c, c.outs[k])
  {
    seq(|c.outs|, k requires 0 <= k < |c.outs| => Req(src, c, c.outs[k]))
  }

  function Requests(cols: seq<AggCol>): (r: seq<Request>)
    ensures forall k :: 0 <= k < |r| ==> r[k].src < |cols|
  {
    if cols == [] then []
    else Requests(cols[..|cols| - 1]) + ColRequests(|cols| - 1, cols[|cols| - 1])
  }

  /** Both tables of transfer_input_col_info agree with the requests. */
  ghost predicate Described(cols: seq<AggCol>, ins: seq<InCol>, outs: seq<OutCol>) {
    && |ins| == |cols| && |outs| == |Requests(cols)|
    && (forall i :: 0 <= i < |cols| ==> InputRight(cols[i], ins[i]))
    && forall k :: 0 <= k < |outs| ==>
        outs[k].usrIdx == Requests(cols)[k].src && OutputRight(Requests(cols)[k], outs[k])
  }

  /** The input column tells the device the column's type, algorithms, information and sum choice. */
  predicate InputRight(c: AggCol, usr: InCol) {
    usr.info == c.info && usr.hwType == InHw(c) && usr.optype == Algs(c.outs) && usr.sumOut == LastWanted(c, c.outs)
  }

  predicate OutputRight(q: Request, out: OutCol) {
    out.op == OpCode(q.alg) && out.hwType == HwOf(q.result)
  }

  ghost predicate ColumnDescribed(c: AggCol, i: nat, usr: InCol, outs: seq<OutCol>) {
    && InputRight(c, usr) && |outs| == |c.outs|
    && forall k :: 0 <= k < |outs| ==> outs[k].usrIdx == i && OutputRight(ColRequests(i, c)[k], outs[k])
  }

  /** The input column after some of the aggregates; hwType stays zero while all of them are counts. */
  ghost predicate InputSoFar(c: AggCol, outs: seq<Output>, usr: InCol) {
    && usr.optype == Algs(outs) && usr.sumOut == LastWanted(c, outs)
    && usr.hwType == if Algs(outs) <= {Count} then Sint32 else HwOf(c.inType)
  }

  /** The checks accept exactly the supported aggregates, and then set the types as they should. */
  lemma CheckOutputMeans(c: AggCol, o: Output, usr: InCol)
    ensures var r := CheckOutput(c, o, usr);
      && (r.Ok? <==> Supported(c, o))
      && (r.Ok? ==>
            && r.value.1.op == OpCode(o.alg) && r.value.1.hwType == HwOf(ResultType(c, o))
            && r.value.1.sumOut == (if WantedSum(c, o) == To64 then To64 else Unset)
            && r.value.0.optype == usr.optype + {o.alg}
            && r.value.0.hwType == (if o.alg == Count then usr.hwType else HwOf(c.inType))
            && r.value.0.sumOut == if WantedSum(c, o) == Unset then usr.sumOut else WantedSum(c, o))
  {
  }

  lemma InputNext(c: AggCol, j: nat, usr: InCol, usr': InCol)
    requires j < |c.outs| && InputSoFar(c, c.outs[..j], usr)
    requires var o := c.outs[j];
      && usr'.optype == usr.optype + {o.alg}
      && usr'.hwType == (if o.alg == Count then usr.hwType else HwOf(c.inType))
      && usr'.sumOut == if WantedSum(c, o) == Unset then usr.sumOut else WantedSum(c, o)
    ensures InputSoFar(c, c.outs[..j + 1], usr')
  {
    hide HwOf, WantedSum;
    var outs := c.outs[..j + 1];
    assert outs[..j] == c.outs[..j] && outs[j] == c.outs[j];
    assert Algs(outs) == Algs(c.outs[..j]) + {c.outs[j].alg};
  }

  /** The type sent for a column that is used is one the device computes with, an integer when it is only counted. */
  lemma SentType(c: AggCol, usr: InCol)
    requires InputRight(c, usr) && c.outs != [] && forall k :: 0 <= k < |c.outs| ==> Supported(c, c.outs[k])
    ensures usr.hwType in {Sint64, Decimal64, Decimal128}
    ensures if Algs(c.outs) == {Count} then usr.hwType == Sint64 else StandsFor(usr.hwType, c.inType)
  {
    assert c.outs[0].alg in Algs(c.outs);
    if Algs(c.outs) != {Count} {
      assert exists k :: 0 <= k < |c.outs| && c.outs[k].alg != Count;
      var k :| 0 <= k < |c.outs| && c.outs[k].alg != Count;
      assert Supported(c, c.outs[k]);
    }
  }

  /** The inner loop of transfer_input_col_info: column i with all its aggregates. */
  method TransferColumn(c: AggCol, i: nat) returns (r: Result<(InCol, seq<OutCol>)>)
    ensures r.Ok? <==> forall j :: 0 <= j < |c.outs| ==> Supported(c, c.outs[j])
    ensures r.Ok? ==> ColumnDescribed(c, i, r.value.0, r.value.1)
    ensures r.Ok? && c.outs != [] ==>
      && r.value.0.hwType in {Sint64, Decimal64, Decimal128}
      && if Algs(c.outs) == {Count} then r.value.0.hwType == Sint64 else StandsFor(r.value.0.hwType, c.inType)
  {
    var usr := InCol(Sint32, {}, 0, 0, Unset);
    var outs: seq<OutCol> := [];
    for j := 0 to |c.outs|
      invariant |outs| == j && forall k :: 0 <= k < j ==> Supported(c, c.outs[k])
      invariant forall k :: 0 <= k < j ==> outs[k].usrIdx == i && OutputRight(ColRequests(i, c)[k], outs[k])
      invariant InputSoFar(c, c.outs[..j], usr)
    {
      var one := CheckOutput(c, c.outs[j], usr);
      CheckOutputMeans(c, c.outs[j], usr);
      if one.Invalid? { return Invalid; }
      InputNext(c, j, usr, one.value.0);
      hide CheckOutput, InputSoFar, OutputRight, Supported;
      usr := one.value.0;
      outs := outs + [one.value.1.(usrIdx := i)];
    }
    assert c.outs[..|c.outs|] == c.outs;
    usr := usr.(info := c.info);
    if usr.optype == {Count} { usr := usr.(hwType := Sint64); }
    if c.outs != [] { SentType(c, usr); }
    return Ok((usr, outs));
  }

  /** The first loop of transfer_input_col_info: algorithms per column, and outputs in all. */
  method CountOutputs(cols: seq<AggCol>, start: nat) returns (ok: bool)
    ensures ok <==> (forall i :: 0 <= i < |cols| ==> |cols[i].outs| <= MAX_COL_ALGS)
                    && start + |Requests(cols)| <= MAX_OUTPUT_COLS
  {
    var total := start;
    for i := 0 to |cols|
      invariant total == start + |Requests(cols[..i])|
      invariant forall k :: 0 <= k < i ==> |cols[k].outs| <= MAX_COL_ALGS
    {
      if |cols[i].outs| > MAX_COL_ALGS { return false; }
      total := total + |cols[i].outs|;
      assert cols[..i + 1][..i] == cols[..i];
    }
    assert cols[..|cols|] == cols;
    return total <= MAX_OUTPUT_COLS;
  }

  ghost predicate Acceptable(cols: seq<AggCol>, start: nat) {
    && (forall i :: 0 <= i < |cols| ==> |cols[i].outs| <= MAX_COL_ALGS)
    && start + |Requests(cols)| <= MAX_OUTPUT_COLS
    && (forall i, j :: 0 <= i < |cols| && 0 <= j < |cols[i].outs| ==> Supported(cols[i], cols[i].outs[j]))
  }

  /** transfer_input_col_info; `start` is 1 when count(*) needs an output column. */
  method TransferInputColInfo(cols: seq<AggCol>, start: nat) returns (r: Result<(seq<InCol>, seq<OutCol>)>)
    ensures r.Ok? <==> Acceptable(cols, start)
    ensures r.Ok? ==> Described(cols, r.value.0, r.value.1)
  {
    var ok := CountOutputs(cols, start);
    if !ok { return Invalid; }
    var ins: seq<InCol>, outs: seq<OutCol> := [], [];
    for i := 0 to |cols|
      invariant Described(cols[..i], ins, outs)
      invariant forall k, j :: 0 <= k < i && 0 <= j < |cols[k].outs| ==> Supported(cols[k], cols[k].outs[j])
    {
      var one := TransferColumn(cols[i], i);
      if one.Invalid? { return Invalid; }
      assert cols[..i + 1][..i] == cols[..i];
      DescribedStep(cols[..i + 1], ins, outs, one.value.0, one.value.1);
      ins := ins + [one.value.0];
      outs := outs + one.value.1;
    }
    assert cols[..|cols|] == cols;
    return Ok((ins, outs));
  }

  lemma DescribedStep(cols: seq<AggCol>, ins: seq<InCol>, outs: seq<OutCol>, usr: InCol, more: seq<OutCol>)
    requires cols != [] && Described(cols[..|cols| - 1], ins, outs)
    requires ColumnDescribed(cols[|cols| - 1], |cols| - 1, usr, more)
    ensures Described(cols, ins + [usr], outs + more)
  {
  }

  // ---------- reordering ----------

  function InTypes(ins: seq<InCol>): (r: seq<HwType>) {
    seq(|ins|, i requires 0 <= i < |ins| => ins[i].hwType)
  }

  function OutTypes(outs: seq<OutCol>): (r: seq<HwType>) {
    seq(|outs|, i requires 0 <= i < |outs| => outs[i].hwType)
  }

  /** hashagg_swap_out_index: outputs that came from user column old now name hardware column k. */
  method SwapOutIndex(outs: seq<OutCol>, saved: seq<nat>, moved: nat, k: nat) returns (r: seq<OutCol>)
    requires |saved| == |outs|
    ensures |r| == |outs|
    ensures forall m :: 0 <= m < |outs| ==> r[m] == if saved[m] == moved then outs[m].(usrIdx := k) else outs[m]
  {
    r := outs;
    for m := 0 to |outs|
      invariant |r| == |outs|
      invariant forall q :: 0 <= q < m ==> r[q] == if saved[q] == moved then outs[q].(usrIdx := k) else outs[q]
      invariant forall q :: m <= q < |outs| ==> r[q] == outs[q]
    {
      if saved[m] == moved { r := r[m := r[m].(usrIdx := k)]; }
    }
  }

  /** input_data holds the picked columns in order, each with its user index. */
  ghost predicate InputPicked(ins: seq<InCol>, data: seq<InCol>, picked: seq<nat>) {
    && |data| == |picked|
    && forall k :: 0 <= k < |data| ==> picked[k] < |ins| && data[k] == ins[picked[k]].(usrIdx := picked[k])
  }

  /** Outputs whose source was already picked name its hardware position; the others are untouched. */
  ghost predicate SourcesRewritten(outs: seq<OutCol>, outs': seq<OutCol>, picked: seq<nat>) {
    && |outs'| == |outs|
    && forall m :: 0 <= m < |outs| ==>
         && outs'[m] == outs[m].(usrIdx := outs'[m].usrIdx)
         && if outs[m].usrIdx in picked
            then outs'[m].usrIdx < |picked| && picked[outs'[m].usrIdx] == outs[m].usrIdx
            else outs'[m] == outs[m]
  }

  /** transfer_input_to_hw_order. */
  method TransferInputToHwOrder(ins: seq<InCol>, outs: seq<OutCol>)
    returns (data: seq<InCol>, outs': seq<OutCol>)
    ensures InputPicked(ins, data, Order(InTypes(ins)))
    ensures SourcesRewritten(outs, outs', Order(InTypes(ins)))
  {
    ghost var types := InTypes(ins);
    var saved := seq(|outs|, m requires 0 <= m < |outs| => outs[m].usrIdx);
    data, outs' := [], outs;
    for i := 0 to |ORDER|
      invariant InputPicked(ins, data, Picked(types, i, 0))
      invariant SourcesRewritten(outs, outs', Picked(types, i, 0))
    {
      for j := 0 to |ins|
        invariant InputPicked(ins, data, Picked(types, i, j))
        invariant SourcesRewritten(outs, outs', Picked(types, i, j))
      {
        PickedLex(types, i, j);
        ghost var picked := Picked(types, i, j);
        if ORDER[i] == ins[j].hwType {
          assert Picked(types, i, j + 1) == picked + [j];
          assert j !in picked;
          ghost var before := outs';
          outs' := SwapOutIndex(outs', saved, j, |data|);
          RewriteStep(outs, before, outs', picked, j);
          data := data + [ins[j].(usrIdx := j)];
        }
      }
    }
  }

  lemma RewriteStep(outs: seq<OutCol>, before: seq<OutCol>, after: seq<OutCol>, picked: seq<nat>, j: nat)
    requires SourcesRewritten(outs, before, picked) && j !in picked
    requires |after| == |before|
    requires forall m :: 0 <= m < |outs| ==>
      after[m] == if outs[m].usrIdx == j then before[m].(usrIdx := |picked|) else before[m]
    ensures SourcesRewritten(outs, after, picked + [j])
  {
    forall m | 0 <= m < |outs|
      ensures outs[m].usrIdx in picked + [j] <==> outs[m].usrIdx in picked || outs[m].usrIdx == j {
    }
  }

  ghost predicate OutputPicked(input: seq<InCol>, outs: seq<OutCol>, data: seq<OutCol>, normal: seq<OutSrc>,
                               rehash: seq<OutSrc>, picked: seq<nat>)
    requires SourcesInRange(input, outs)
  {
    && |data| == |normal| == |rehash| == |picked|
    && forall k :: 0 <= k < |picked| ==>
         && picked[k] < |outs|
         && data[k] == OutCol(outs[picked[k]].hwType, 0, picked[k], input[outs[picked[k]].usrIdx].info, Unset)
         && normal[k] == OutSrc(outs[picked[k]].usrIdx, outs[picked[k]].op)
         && rehash[k] == OutSrc(k, OpCode(Sum))
  }

  predicate SourcesInRange(input: seq<InCol>, outs: seq<OutCol>) {
    forall m :: 0 <= m < |outs| ==> outs[m].usrIdx < |input|
  }

  /** transfer_output_to_hw_order without the count(*) column, which the caller appends. */
  method TransferOutputToHwOrder(input: seq<InCol>, outs: seq<OutCol>)
    returns (data: seq<OutCol>, normal: seq<OutSrc>, rehash: seq<OutSrc>)
    requires SourcesInRange(input, outs)
    ensures OutputPicked(input, outs, data, normal, rehash, Order(OutTypes(outs)))
  {
    ghost var types := OutTypes(outs);
    data, normal, rehash := [], [], [];
    for i := 0 to |ORDER|
      invariant OutputPicked(input, outs, data, normal, rehash, Picked(types, i, 0))
    {
      for j := 0 to |outs|
        invariant OutputPicked(input, outs, data, normal, rehash, Picked(types, i, j))
      {
        if ORDER[i] == outs[j].hwType {
          assert Picked(types, i, j + 1) == Picked(types, i, j) + [j];
          rehash := rehash + [OutSrc(|data|, OpCode(Sum))];
          normal := normal + [OutSrc(outs[j].usrIdx, outs[j].op)];
          data := data + [OutCol(outs[j].hwType, 0, j, input[outs[j].usrIdx].info, Unset)];
        }
      }
    }
  }

  // ---------- packing ----------

  /** A number below 16 as a machine word. */
  function NatWord(x: nat): (w: Word)
    requires x < 16
  {
    seq(WORD, i requires 0 <= i < WORD => i < 4 && (x / [1, 2, 4, 8][i]) % 2 == 1)
  }

  /** The four bits the hardware reads for output column k. */
  function NibbleAt(w: Word, k: nat): (x: nat)
    requires 4 * k + 3 < WORD
    ensures x < 16
  {
    Four(w[4 * k], w[4 * k + 1], w[4 * k + 2], w[4 * k + 3])
  }

  /** The number that bits stand for, least significant first. */
  function Num(w: seq<bool>): (n: nat) {
    if w == [] then 0 else (if w[0] then 1 else 0) + 2 * Num(w[1..])
  }

  /** Nibble k is the word, as a number, shifted right by 4k and cut to four bits. */
  lemma NibbleIs(w: Word, k: nat)
    requires 4 * k + 3 < WORD
    ensures NibbleAt(w, k) == Num(Shr(w, 4 * k)) % 16
  {
    FourBits(Shr(w, 4 * k));
    hide Num;
  }

  lemma FourBits(s: seq<bool>)
    requires |s| >= 4
    ensures Num(s) % 16 == Four(s[0], s[1], s[2], s[3])
  {
    NumStep(s);
    NumStep(s[1..]);
    NumStep(s[2..]);
    NumStep(s[3..]);
    hide Num;
    assert s[1..][1..] == s[2..] && s[2..][1..] == s[3..] && s[3..][1..] == s[4..];
    Remainder(Num(s), Num(s[4..]), Four(s[0], s[1], s[2], s[3]));
  }

  function Four(a: bool, b: bool, c: bool, d: bool): (n: nat)
    ensures n < 16
  {
    (if a then 1 else 0) + (if b then 2 else 0) + (if c then 4 else 0) + (if d then 8 else 0)
  }

  lemma Remainder(x: nat, q: nat, r: nat)
    requires x == 16 * q + r && r < 16
    ensures x % 16 == r
  {
  }

  lemma NumStep(s: seq<bool>)
    requires s != []
    ensures Num(s) == (if s[0] then 1 else 0) + 2 * Num(s[1..])
  {
  }

  /** Below the first n nibbles the word holds xs; above them it is clear. */
  ghost predicate Packs(w: Word, xs: seq<nat>, n: nat)
    requires n <= |xs| && 4 * n <= WORD
  {
    && (forall k :: 0 <= k < n ==> NibbleAt(w, k) == xs[k])
    && (forall i :: 4 * n <= i < WORD ==> !w[i])
  }

  lemma PackBits(w: Word, x: nat, n: nat)
    requires x < 16 && 4 * n + 4 <= WORD && forall i :: 4 * n <= i < WORD ==> !w[i]
    ensures var w' := Or(w, Shl(NatWord(x), 4 * n));
      && (forall i :: 0 <= i < 4 * n ==> w'[i] == w[i])
      && (forall b :: 0 <= b < 4 ==> w'[4 * n + b] == NatWord(x)[b])
      && (forall i :: 4 * n + 4 <= i < WORD ==> !w'[i])
  {
    hide NatWord;
    NatWordShort(x);
    var s := Shl(NatWord(x), 4 * n);
    forall b | 0 <= b < 4 ensures s[4 * n + b] == NatWord(x)[b] {
      assert s[4 * n + b] == NatWord(x)[4 * n + b - 4 * n];
    }
    forall i | 4 * n + 4 <= i < WORD ensures !s[i] {
      assert s[i] == NatWord(x)[i - 4 * n];
    }
  }

  lemma NatWordShort(x: nat)
    requires x < 16
    ensures forall i :: 4 <= i < WORD ==> !NatWord(x)[i]
  {
  }

  lemma PackStep(w: Word, xs: seq<nat>, n: nat)
    requires n < |xs| && 4 * n + 4 <= WORD && xs[n] < 16 && Packs(w, xs, n)
    ensures Packs(Or(w, Shl(NatWord(xs[n]), 4 * n)), xs, n + 1)
  {
    hide NatWord, Shl, Or;
    PackBits(w, xs[n], n);
    NibbleOfNat(xs[n]);
    var w' := Or(w, Shl(NatWord(xs[n]), 4 * n));
    forall k | 0 <= k < n ensures NibbleAt(w', k) == xs[k] {
      assert NibbleAt(w', k) == NibbleAt(w, k);
    }
    assert w'[4 * n + 0] == NatWord(xs[n])[0];
    assert NibbleAt(w', n) == xs[n];
  }

  lemma NibbleOfNat(x: nat)
    requires x < 16
    ensures NatWord(x)[0] == (x % 2 == 1) && NatWord(x)[1] == ((x / 2) % 2 == 1)
    ensures NatWord(x)[2] == ((x / 4) % 2 == 1) && NatWord(x)[3] == ((x / 8) % 2 == 1)
  {
  }

  /** The loop of fill_hashagg_output_order for one of its two words. */
  method PackNibbles(xs: seq<nat>) returns (w: Word)
    requires |xs| <= 16 && forall k :: 0 <= k < |xs| ==> xs[k] < 16
    ensures Packs(w, xs, |xs|)
  {
    w := ZeroWord();
    var offset := 0;
    for i := 0 to |xs|
      invariant offset == 4 * i && Packs(w, xs, i)
    {
      PackStep(w, xs, i);
      w := Or(w, Shl(NatWord(xs[i]), offset));
      offset := offset + 4;
    }
  }

  // ---------- the compiled plan ----------

  datatype Plan = Plan(input: seq<InCol>, output: seq<OutCol>, normal: seq<OutSrc>, rehash: seq<OutSrc>, countAll: bool)

  /** types[k] is the hardware type in position k, usr[k] the user column found there. */
  ghost predicate StablePermutation(types: seq<HwType>, usr: seq<nat>, n: nat) {
    && |types| == |usr| == n
    && (forall k :: 0 <= k < n ==> usr[k] < n)
    && (forall e: nat :: e < n ==> e in usr)
    && (forall a, b :: 0 <= a < b < n ==> usr[a] != usr[b])
    && (forall a, b :: 0 <= a < b < n ==> Rank(types[a]) <= Rank(types[b]))
    && (forall a, b :: 0 <= a < b < n && types[a] == types[b] ==> usr[a] < usr[b])
  }

  function InUsr(ins: seq<InCol>): (r: seq<nat>) {
    seq(|ins|, i requires 0 <= i < |ins| => ins[i].usrIdx)
  }

  function OutUsr(outs: seq<OutCol>): (r: seq<nat>) {
    seq(|outs|, i requires 0 <= i < |outs| => outs[i].usrIdx)
  }

  /** What a plan for these columns must satisfy; see PlanMeansRequests for what it is worth. */
  ghost predicate Compiled(cols: seq<AggCol>, countAll: bool, p: Plan) {
    var reqs := Requests(cols);
    var n := |reqs|;
    && |cols| <= MAX_INPUT_COLS && n + (if countAll then 1 else 0) <= MAX_OUTPUT_COLS
    && p.countAll == countAll
    && |p.output| == |p.rehash| == n + (if countAll then 1 else 0) && |p.normal| == n
    && StablePermutation(InTypes(p.input), InUsr(p.input), |cols|)
    && StablePermutation(OutTypes(p.output[..n]), OutUsr(p.output[..n]), n)
    && (forall k :: 0 <= k < n ==>
          && p.normal[k].fromIdx < |cols| && p.output[k].usrIdx < n
          && p.input[p.normal[k].fromIdx].usrIdx == reqs[p.output[k].usrIdx].src
          && p.normal[k].op == OpCode(reqs[p.output[k].usrIdx].alg)
          && p.output[k] == OutCol(HwOf(reqs[p.output[k].usrIdx].result), 0, p.output[k].usrIdx,
                                   cols[reqs[p.output[k].usrIdx].src].info, Unset))
    && (forall i :: 0 <= i < |p.input| ==>
          p.input[i].usrIdx < |cols| && InputRight(cols[p.input[i].usrIdx], p.input[i]))
    && (forall k :: 0 <= k < |p.rehash| ==> p.rehash[k] == OutSrc(k, OpCode(Sum)))
    && (countAll ==> p.output[n] == OutCol(Sint64, 0, n, 0, Unset))
  }

  lemma InputStable(ins: seq<InCol>, data: seq<InCol>)
    requires InputPicked(ins, data, Order(InTypes(ins)))
    ensures StablePermutation(InTypes(data), InUsr(data), |ins|)
  {
    OrderIsStableSort(InTypes(ins));
    assert InUsr(data) == Order(InTypes(ins));
    forall k | 0 <= k < |data| ensures InTypes(data)[k] == InTypes(ins)[Order(InTypes(ins))[k]] { }
  }

  lemma OutputStable(input: seq<InCol>, outs: seq<OutCol>, data: seq<OutCol>, normal: seq<OutSrc>, rehash: seq<OutSrc>)
    requires SourcesInRange(input, outs) && OutputPicked(input, outs, data, normal, rehash, Order(OutTypes(outs)))
    ensures StablePermutation(OutTypes(data), OutUsr(data), |outs|)
  {
    OrderIsStableSort(OutTypes(outs));
    assert OutUsr(data) == Order(OutTypes(outs));
    forall k | 0 <= k < |data| ensures OutTypes(data)[k] == OutTypes(outs)[Order(OutTypes(outs))[k]] { }
  }

  lemma SourcesPlaced(cols: seq<AggCol>, ins: seq<InCol>, outs: seq<OutCol>, outs': seq<OutCol>, input: seq<InCol>)
    requires Described(cols, ins, outs) && InputPicked(ins, input, Order(InTypes(ins)))
    requires SourcesRewritten(outs, outs', Order(InTypes(ins)))
    ensures SourcesInRange(input, outs')
  {
    OrderIsStableSort(InTypes(ins));
    forall m | 0 <= m < |outs'| ensures outs'[m].usrIdx < |input| {
      assert outs[m].usrIdx in Order(InTypes(ins));
    }
  }

  lemma InputsRight(cols: seq<AggCol>, ins: seq<InCol>, outs: seq<OutCol>, input: seq<InCol>)
    requires Described(cols, ins, outs) && InputPicked(ins, input, Order(InTypes(ins)))
    ensures forall i :: 0 <= i < |input| ==> input[i].usrIdx < |cols| && InputRight(cols[input[i].usrIdx], input[i])
  {
  }

  lemma RoutesRight(cols: seq<AggCol>, ins: seq<InCol>, outs: seq<OutCol>, outs': seq<OutCol>,
                    input: seq<InCol>, output: seq<OutCol>, normal: seq<OutSrc>, rehash: seq<OutSrc>, k: nat)
    requires Described(cols, ins, outs)
    requires InputPicked(ins, input, Order(InTypes(ins)))
    requires SourcesRewritten(outs, outs', Order(InTypes(ins)))
    requires SourcesInRange(input, outs') && OutputPicked(input, outs', output, normal, rehash, Order(OutTypes(outs')))
    requires k < |normal|
    ensures |input| == |cols| && |output| == |normal| == |Requests(cols)| && output[k].usrIdx < |Requests(cols)|
    ensures normal[k].fromIdx < |cols|
    ensures input[normal[k].fromIdx].usrIdx == Requests(cols)[output[k].usrIdx].src
    ensures normal[k].op == OpCode(Requests(cols)[output[k].usrIdx].alg)
    ensures output[k] == OutCol(HwOf(Requests(cols)[output[k].usrIdx].result), 0, output[k].usrIdx,
                                cols[Requests(cols)[output[k].usrIdx].src].info, Unset)
  {
    OrderIsStableSort(InTypes(ins));
    OrderIsStableSort(OutTypes(outs'));
    var j := output[k].usrIdx;
    assert outs[j].usrIdx in Order(InTypes(ins));
  }

  /** hashagg_init_param_check (number of input columns) and transfer_data_to_hw_type. */
  method Compile(cols: seq<AggCol>, countAll: bool) returns (r: Result<Plan>)
    ensures r.Ok? <==> |cols| <= MAX_INPUT_COLS && Acceptable(cols, if countAll then 1 else 0)
    ensures r.Ok? ==> Compiled(cols, countAll, r.value)
  {
    if |cols| > MAX_INPUT_COLS { return Invalid; }
    var t := TransferInputColInfo(cols, if countAll then 1 else 0);
    if t.Invalid? { return Invalid; }
    var ins, outs := t.value.0, t.value.1;
    var input, outs' := TransferInputToHwOrder(ins, outs);
    SourcesPlaced(cols, ins, outs, outs', input);
    var output, normal, rehash := TransferOutputToHwOrder(input, outs');
    InputStable(ins, input);
    InputsRight(cols, ins, outs, input);
    OutputStable(input, outs', output, normal, rehash);
    forall k | 0 <= k < |normal|
      ensures |input| == |cols| && |output| == |normal| == |Requests(cols)| && output[k].usrIdx < |Requests(cols)|
      ensures normal[k].fromIdx < |cols|
      ensures input[normal[k].fromIdx].usrIdx == Requests(cols)[output[k].usrIdx].src
      ensures normal[k].op == OpCode(Requests(cols)[output[k].usrIdx].alg)
      ensures output[k] == OutCol(HwOf(Requests(cols)[output[k].usrIdx].result), 0, output[k].usrIdx,
                                  cols[Requests(cols)[output[k].usrIdx].src].info, Unset)
    {
      RoutesRight(cols, ins, outs, outs', input, output, normal, rehash, k);
    }
    var n := |normal|;
    assert output[..n] == output;
    if countAll {
      // count(*) fills the last column
      assert (output + [OutCol(Sint64, 0, n, 0, Unset)])[..n] == output;
      output := output + [OutCol(Sint64, 0, n, 0, Unset)];
      rehash := rehash + [OutSrc(n, OpCode(Sum))];
    }
    return Ok(Plan(input, output, normal, rehash, countAll));
  }

  // ---------- what the hardware does with it ----------

  /** The two words and the count(*) flag of fill_hashagg_output_order. */
  datatype ExtSqe = ExtSqe(fromIn: Word, optype: Word, countValid: bool, outCols: nat)

  function FromIdxs(src: seq<OutSrc>): (r: seq<nat>) {
    seq(|src|, k requires 0 <= k < |src| => src[k].fromIdx)
  }

  function Ops(src: seq<OutSrc>): (r: seq<nat>) {
    seq(|src|, k requires 0 <= k < |src| => src[k].op)
  }

  ghost predicate Encodes(e: ExtSqe, src: seq<OutSrc>) {
    && |src| == e.outCols <= 16
    && Packs(e.fromIn, FromIdxs(src), e.outCols) && Packs(e.optype, Ops(src), e.outCols)
  }

  /** Indices and operation codes fit in four bits. */
  lemma SourcesFit(cols: seq<AggCol>, p: Plan, src: seq<OutSrc>)
    requires Compiled(cols, p.countAll, p) && (src == p.normal || src == p.rehash)
    ensures |src| <= 9 && forall k :: 0 <= k < |src| ==> src[k].fromIdx < 16 && src[k].op < 16
  {
    hide StablePermutation;
  }

  /** fill_hashagg_output_order. */
  method FillOutputOrder(ghost cols: seq<AggCol>, p: Plan, rehashInput: bool) returns (e: ExtSqe)
    requires Compiled(cols, p.countAll, p)
    ensures Encodes(e, if rehashInput then p.rehash else p.normal)
    ensures e.countValid == (p.countAll && !rehashInput)
  {
    var src := if rehashInput then p.rehash else p.normal;
    var n := |p.output|;
    var countValid := false;
    if p.countAll && !rehashInput {
      countValid := true;
      n := n - 1;
    }
    hide Packs, StablePermutation;
    SourcesFit(cols, p, src);
    var f := PackNibbles(FromIdxs(src));
    var o := PackNibbles(Ops(src));
    return ExtSqe(f, o, countValid, n);
  }

  /** How the device reads a nibble of the operations. */
  function DeviceOp(code: nat): Option<Alg> {
    if code == 1 then Some(Count)
    else if code == 3 then Some(Max)
    else if code == 4 then Some(Min)
    else if code == 5 then Some(Sum)
    else None
  }

  lemma OpRead(a: Alg)
    ensures DeviceOp(OpCode(a)) == Some(a)
  {
  }

  /** What the device is told of a column it reads: agg_data_type and agg_data_info of fill_hashagg_data_info. */
  datatype Desc = Desc(hwType: HwType, sumOut: SumOut, info: nat)

  /** enum dae_data_type. */
  function TypeCode(t: HwType): (c: nat)
    ensures c < 16
  {
    match t
    case Sint32 => 0
    case Sint64 => 2
    case Decimal64 => 9
    case Decimal128 => 10
    case Char => 12
    case VChar => 13
  }

  /** The order of the passes is that of falling type codes. */
  lemma OrderFalls(a: HwType, b: HwType)
    ensures Rank(a) < Rank(b) <==> TypeCode(a) > TypeCode(b)
  {
  }

  /** enum dae_sum_optype. */
  function SumCode(s: SumOut): (c: nat)
    ensures c < 16
  {
    match s
    case Unset => 0
    case To64 => 2
    case To128 => 3
  }

  /** The byte sent for a column: the type, and the sum choice in the upper half. */
  function TypeByte(t: HwType, s: SumOut): (b: nat)
    ensures b < 256
  {
    TypeCode(t) + SumCode(s) * 16
  }

  function DeviceType(code: nat): Option<HwType> {
    if code == 0 then Some(Sint32)
    else if code == 2 then Some(Sint64)
    else if code == 9 then Some(Decimal64)
    else if code == 10 then Some(Decimal128)
    else if code == 12 then Some(Char)
    else if code == 13 then Some(VChar)
    else None
  }

  function DeviceSum(code: nat): Option<SumOut> {
    if code == 0 then Some(Unset)
    else if code == 2 then Some(To64)
    else if code == 3 then Some(To128)
    else None
  }

  /** How the device reads that byte. */
  function Told(b: nat, info: nat): Option<Desc> {
    var t, s := DeviceType(b % 16), DeviceSum(b / 16);
    if t.Some? && s.Some? then Some(Desc(t.value, s.value, info)) else None
  }

  lemma ByteRead(t: HwType, s: SumOut, info: nat)
    ensures Told(TypeByte(t, s), info) == Some(Desc(t, s, info))
  {
  }

  function InDesc(c: InCol): (d: Desc)
    ensures d == Desc(c.hwType, c.sumOut, c.info)
  {
    ByteRead(c.hwType, c.sumOut, c.info);
    Told(TypeByte(c.hwType, c.sumOut), c.info).value
  }

  function OutDesc(c: OutCol): (d: Desc)
    ensures d == Desc(c.hwType, c.sumOut, c.info)
  {
    ByteRead(c.hwType, c.sumOut, c.info);
    Told(TypeByte(c.hwType, c.sumOut), c.info).value
  }

  /**
  What an operation reads of it: counting looks at no type, and only the sum of 64-bit
  decimals looks at the sum choice.
  */
  function Reads(op: Alg, d: Desc): Desc {
    if op == Count then Desc(Sint64, Unset, d.info)
    else if op == Sum && d.hwType == Decimal64 then d
    else d.(sumOut := Unset)
  }

  /** The device: output column k is operation k applied to the described input buffer that nibble k names. */
  function HwColumns<C, V>(e: ExtSqe, descs: seq<Desc>, bufs: seq<C>, eval: (Alg, Desc, C) -> V): (r: seq<V>)
    requires e.outCols <= 16 && |descs| == |bufs|
    requires forall k :: 0 <= k < e.outCols ==> NibbleAt(e.fromIn, k) < |bufs| && DeviceOp(NibbleAt(e.optype, k)).Some?
    ensures |r| == e.outCols
  {
    seq(e.outCols, k requires 0 <= k < e.outCols =>
      var op, i := DeviceOp(NibbleAt(e.optype, k)).value, NibbleAt(e.fromIn, k);
      eval(op, Reads(op, descs[i]), bufs[i]))
  }

  function InputDescs(input: seq<InCol>): (r: seq<Desc>)
    ensures |r| == |input|
  {
    seq(|input|, k requires 0 <= k < |input| => InDesc(input[k]))
  }

  /** fill_hashagg_input_data: hardware buffer k is the user buffer of the column sent as k. */
  function InputBuffers<C>(input: seq<InCol>, user: seq<C>): (r: seq<C>)
    requires forall k :: 0 <= k < |input| ==> input[k].usrIdx < |user|
    ensures |r| == |input|
  {
    seq(|input|, k requires 0 <= k < |input| => user[input[k].usrIdx])
  }

  /** The device writes column k through the user's output address for that column. */
  function WriteBack<V>(output: seq<OutCol>, results: seq<V>, mem: seq<V>): (r: seq<V>)
    requires |results| <= |output| && forall k :: 0 <= k < |output| ==> output[k].usrIdx < |mem|
    ensures |r| == |mem|
    decreases |results|
  {
    if results == [] then mem
    else
      var n := |results| - 1;
      WriteBack(output, results[..n], mem)[output[n].usrIdx := results[n]]
  }

  lemma {:induction false} WriteBackAt<V>(output: seq<OutCol>, results: seq<V>, mem: seq<V>, k: nat)
    requires |results| <= |output| && forall i :: 0 <= i < |output| ==> output[i].usrIdx < |mem|
    requires forall a, b :: 0 <= a < b < |output| ==> output[a].usrIdx != output[b].usrIdx
    requires k < |results|
    ensures WriteBack(output, results, mem)[output[k].usrIdx] == results[k]
    decreases |results|
  {
    var n := |results| - 1;
    if k < n {
      WriteBackAt(output, results[..n], mem, k);
      assert output[k].usrIdx != output[n].usrIdx;
    }
  }

  /** What the device must make of a requested sum. */
  function WantedChoice(c: AggCol, q: Request): SumOut {
    if q.alg != Sum || c.inType != ShortDecimal then Unset
    else if q.result == ShortDecimal then To64 else To128
  }

  /** How the user's column must be described to the device for this request. */
  function WantedDesc(c: AggCol, q: Request): Desc {
    Desc(if q.alg == Count then Sint64 else HwOf(c.inType), WantedChoice(c, q), c.info)
  }

  /** The aggregates the user asked for, in the order of the output columns. */
  function Asked<C, V>(cols: seq<AggCol>, user: seq<C>, eval: (Alg, Desc, C) -> V): (r: seq<V>)
    requires |user| == |cols|
    ensures |r| == |Requests(cols)|
  {
    var reqs := Requests(cols);
    seq(|reqs|, j requires 0 <= j < |reqs| =>
      eval(reqs[j].alg, WantedDesc(cols[reqs[j].src], reqs[j]), user[reqs[j].src]))
  }

  /** A request is one of the outputs of its column, and every output is requested. */
  lemma {:induction false} RequestOutput(cols: seq<AggCol>, j: nat) returns (k: nat)
    requires j < |Requests(cols)|
    ensures var q := Requests(cols)[j]; var c := cols[q.src];
      k < |c.outs| && q == Req(q.src, c, c.outs[k])
    decreases |cols|
  {
    var m := |cols| - 1;
    var front := Requests(cols[..m]);
    if j < |front| {
      k := RequestOutput(cols[..m], j);
    } else {
      k := j - |front|;
    }
  }

  lemma {:induction false} OutputRequest(cols: seq<AggCol>, i: nat, k: nat) returns (j: nat)
    requires i < |cols| && k < |cols[i].outs|
    ensures j < |Requests(cols)| && Requests(cols)[j] == Req(i, cols[i], cols[i].outs[k])
    decreases |cols|
  {
    var m := |cols| - 1;
    if i < m {
      j := OutputRequest(cols[..m], i, k);
    } else {
      j := |Requests(cols[..m])| + k;
    }
  }

  /** What the device reads of a column sent for a request is what the request wants, up to the sum choice. */
  lemma ReadsWanted(c: AggCol, usr: InCol, k: nat)
    requires InputRight(c, usr) && k < |c.outs|
    requires c.inType in {Long, ShortDecimal, LongDecimal} || c.outs[k].alg == Count
    ensures var q := Req(0, c, c.outs[k]);
      var d := Reads(q.alg, InDesc(usr));
      && WantedChoice(c, q) == WantedSum(c, c.outs[k])
      && d == WantedDesc(c, q).(sumOut := if WantedChoice(c, q) == Unset then Unset else LastWanted(c, c.outs))
  {
    hide LastWanted;
    assert c.outs[k].alg in Algs(c.outs);
  }

  /** All output columns, count(*) included, go to distinct user columns. */
  lemma OutputsDistinct(cols: seq<AggCol>, p: Plan)
    requires Compiled(cols, p.countAll, p)
    ensures forall k :: 0 <= k < |p.output| ==> p.output[k].usrIdx < |p.output|
    ensures forall a, b :: 0 <= a < b < |p.output| ==> p.output[a].usrIdx != p.output[b].usrIdx
  {
    var n := |Requests(cols)|;
    forall k | 0 <= k < n ensures p.output[k].usrIdx == OutUsr(p.output[..n])[k] < n { }
  }

  /** Every user output column is written by some hardware column. */
  lemma ColumnFor(cols: seq<AggCol>, p: Plan, j: nat) returns (k: nat)
    requires Compiled(cols, p.countAll, p) && j < |p.output|
    ensures k < |p.output| && p.output[k].usrIdx == j
    ensures k < |p.normal| <==> j < |p.normal|
  {
    var n := |Requests(cols)|;
    if j < n {
      var usr := OutUsr(p.output[..n]);
      assert j in usr;
      k :| 0 <= k < |usr| && usr[k] == j;
    } else {
      k := n;
    }
  }

  lemma NibblesInRange(e: ExtSqe, src: seq<OutSrc>, bound: nat)
    requires Encodes(e, src) && forall k :: 0 <= k < |src| ==> src[k].fromIdx < bound
    ensures forall k :: 0 <= k < e.outCols ==>
      NibbleAt(e.fromIn, k) == src[k].fromIdx < bound && NibbleAt(e.optype, k) == src[k].op
  {
    forall k | 0 <= k < e.outCols
      ensures NibbleAt(e.fromIn, k) == src[k].fromIdx && NibbleAt(e.optype, k) == src[k].op
    {
      assert FromIdxs(src)[k] == src[k].fromIdx && Ops(src)[k] == src[k].op;
    }
  }

  /** What the device reads for hardware column k, and from which buffer. */
  lemma HwColumnReads<C, V>(cols: seq<AggCol>, p: Plan, e: ExtSqe, user: seq<C>, eval: (Alg, Desc, C) -> V, k: nat)
    requires Compiled(cols, p.countAll, p) && Encodes(e, p.normal) && |user| == |cols| && k < |p.normal|
    ensures forall i :: 0 <= i < |p.input| ==> p.input[i].usrIdx < |user|
    ensures forall i :: 0 <= i < e.outCols ==>
      NibbleAt(e.fromIn, i) < |p.input| && DeviceOp(NibbleAt(e.optype, i)).Some?
    ensures var q := Requests(cols)[p.output[k].usrIdx]; var usr := p.input[p.normal[k].fromIdx];
      && usr.usrIdx == q.src && InputRight(cols[q.src], usr)
      && HwColumns(e, InputDescs(p.input), InputBuffers(p.input, user), eval)[k]
         == eval(q.alg, Reads(q.alg, InDesc(usr)), user[q.src])
  {
    CompiledSizes(cols, p);
    NibblesInRange(e, p.normal, |p.input|);
    forall i | 0 <= i < e.outCols
      ensures DeviceOp(NibbleAt(e.optype, i)) == Some(Requests(cols)[p.output[i].usrIdx].alg)
    {
      OpRead(Requests(cols)[p.output[i].usrIdx].alg);
    }
  }

  ghost predicate Runnable<C, V>(p: Plan, e: ExtSqe, user: seq<C>, mem: seq<V>) {
    && (forall i :: 0 <= i < |p.input| ==> p.input[i].usrIdx < |user|)
    && e.outCols <= 16
    && (forall i :: 0 <= i < e.outCols ==> NibbleAt(e.fromIn, i) < |p.input| && DeviceOp(NibbleAt(e.optype, i)).Some?)
    && e.outCols + (if e.countValid then 1 else 0) <= |p.output|
    && (forall k :: 0 <= k < |p.output| ==> p.output[k].usrIdx < |mem|)
  }

  /** One stream pass: hardware columns over the described, permuted inputs, count(*) last, written back. */
  ghost function RunStream<C, V>(p: Plan, e: ExtSqe, user: seq<C>, eval: (Alg, Desc, C) -> V,
                                 rows: V, mem: seq<V>): (r: seq<V>)
    requires Runnable(p, e, user, mem)
    ensures |r| == |mem|
  {
    var hw := HwColumns(e, InputDescs(p.input), InputBuffers(p.input, user), eval);
    WriteBack(p.output, hw + if e.countValid then [rows] else [], mem)
  }

  lemma PlanRunnable<C, V>(cols: seq<AggCol>, p: Plan, e: ExtSqe, user: seq<C>, mem: seq<V>)
    requires Compiled(cols, p.countAll, p) && Encodes(e, p.normal) && e.countValid == p.countAll
    requires |user| == |cols| && |mem| == |p.output|
    ensures Runnable(p, e, user, mem)
  {
    OutputsDistinct(cols, p);
    NibblesInRange(e, p.normal, |p.input|);
    hide DeviceOp, OpCode;
    forall i | 0 <= i < e.outCols ensures DeviceOp(NibbleAt(e.optype, i)).Some? {
      OpRead(Requests(cols)[p.output[i].usrIdx].alg);
    }
    forall i | 0 <= i < |p.input| ensures p.input[i].usrIdx < |user| {
      assert InUsr(p.input)[i] == p.input[i].usrIdx;
    }
  }

  /** What a stream pass leaves in user output column j. */
  lemma PlanColumn<C, V>(cols: seq<AggCol>, p: Plan, e: ExtSqe, user: seq<C>, eval: (Alg, Desc, C) -> V,
                         rows: V, mem: seq<V>, j: nat) returns (usr: InCol)
    requires Compiled(cols, p.countAll, p) && Encodes(e, p.normal) && e.countValid == p.countAll
    requires |user| == |cols| && |mem| == |p.output| && Runnable(p, e, user, mem) && j < |mem|
    ensures j < |Requests(cols)| ==>
      var q := Requests(cols)[j];
      && InputRight(cols[q.src], usr)
      && RunStream(p, e, user, eval, rows, mem)[j]
         == eval(q.alg, Reads(q.alg, InDesc(usr)), user[q.src])
    ensures j >= |Requests(cols)| ==> RunStream(p, e, user, eval, rows, mem)[j] == rows
  {
    CompiledSizes(cols, p);
    hide Packs, StablePermutation, InputRight, Reads, Compiled;
    var k := ColumnFor(cols, p, j);
    var hw := HwColumns(e, InputDescs(p.input), InputBuffers(p.input, user), eval);
    OutputsDistinct(cols, p);
    WriteBackAt(p.output, hw + if e.countValid then [rows] else [], mem, k);
    usr := InCol(Sint32, {}, 0, 0, Unset);
    if k < |p.normal| {
      HwColumnReads(cols, p, e, user, eval, k);
      usr := p.input[p.normal[k].fromIdx];
    }
  }

  /** Every request of an accepted setup is a supported one. */
  lemma RequestSupported(cols: seq<AggCol>, start: nat, j: nat) returns (k: nat)
    requires Acceptable(cols, start) && j < |Requests(cols)|
    ensures var q := Requests(cols)[j]; var c := cols[q.src];
      && k < |c.outs| && q == Req(q.src, c, c.outs[k])
      && (c.inType in {Long, ShortDecimal, LongDecimal} || c.outs[k].alg == Count)
  {
    k := RequestOutput(cols, j);
    var q := Requests(cols)[j];
    assert Supported(cols[q.src], cols[q.src].outs[k]);
  }

  /** Column j of a stream pass against the request: the same, up to the sum choice the column was given. */
  lemma ColumnAgainstAsked<C, V>(cols: seq<AggCol>, start: nat, p: Plan, e: ExtSqe, user: seq<C>,
                                 eval: (Alg, Desc, C) -> V, rows: V, mem: seq<V>, j: nat)
    requires Compiled(cols, p.countAll, p) && Encodes(e, p.normal) && e.countValid == p.countAll
    requires |user| == |cols| && |mem| == |p.output| && Runnable(p, e, user, mem)
    requires Acceptable(cols, start) && j < |Requests(cols)|
    ensures var q := Requests(cols)[j]; var c := cols[q.src]; var want := WantedDesc(c, q);
      RunStream(p, e, user, eval, rows, mem)[j]
      == eval(q.alg, want.(sumOut := if want.sumOut == Unset then Unset else LastWanted(c, c.outs)),
              user[q.src])
  {
    hide Compiled, Encodes, Runnable, RunStream, Requests, Acceptable, InputRight, LastWanted, WantedDesc, Reads;
    CompiledSizes(cols, p);
    var usr := PlanColumn(cols, p, e, user, eval, rows, mem, j);
    var k := RequestSupported(cols, start, j);
    var q := Requests(cols)[j];
    ReadsWanted(cols[q.src], usr, k);
    SameWanted(cols[q.src], q);
  }

  lemma SameWanted(c: AggCol, q: Request)
    ensures WantedDesc(c, q) == WantedDesc(c, q.(src := 0)) && WantedDesc(c, q).sumOut == WantedChoice(c, q)
    ensures WantedChoice(c, q) == WantedChoice(c, q.(src := 0))
  {
  }

  /** A plan preserves meaning when no column has conflicting sums; PlanMeansRequests says what that is. */
  lemma AgreedMeansRequests<C, V>(cols: seq<AggCol>, start: nat, p: Plan, e: ExtSqe, user: seq<C>,
                                  eval: (Alg, Desc, C) -> V, rows: V, mem: seq<V>)
    requires Compiled(cols, p.countAll, p) && Encodes(e, p.normal) && e.countValid == p.countAll
    requires |user| == |cols| && |mem| == |p.output| && Acceptable(cols, start) && SumsAgree(cols)
    ensures Runnable(p, e, user, mem)
    ensures RunStream(p, e, user, eval, rows, mem) == Asked(cols, user, eval) + if p.countAll then [rows] else []
  {
    PlanRunnable(cols, p, e, user, mem);
    CompiledSizes(cols, p);
    hide Compiled, Encodes, Runnable, RunStream, Acceptable;
    forall j | 0 <= j < |mem|
      ensures RunStream(p, e, user, eval, rows, mem)[j]
              == (Asked(cols, user, eval) + if p.countAll then [rows] else [])[j]
    {
      if j < |Requests(cols)| {
        ColumnAgainstAsked(cols, start, p, e, user, eval, rows, mem, j);
        AskedChoice(cols, start, j);
        hide Requests, LastWanted, WantedDesc, SumsAgree;
      } else {
        var usr := PlanColumn(cols, p, e, user, eval, rows, mem, j);
      }
    }
  }

  /**
  The compiled plan of a setup that wd_agg.c lets through preserves meaning: run by the
  device over the permuted input buffers, each as described to it, and written back
  through the permuted output buffers, it leaves in the user's output columns exactly the
  aggregates asked for, and count(*) last, whatever the device computes.
  */
  lemma PlanMeansRequests<C, V>(cols: seq<AggCol>, start: nat, p: Plan, e: ExtSqe, user: seq<C>,
                                eval: (Alg, Desc, C) -> V, rows: V, mem: seq<V>)
    requires Compiled(cols, p.countAll, p) && Encodes(e, p.normal) && e.countValid == p.countAll
    requires |user| == |cols| && |mem| == |p.output| && Acceptable(cols, start) && NoRepeats(cols)
    ensures Runnable(p, e, user, mem)
    ensures RunStream(p, e, user, eval, rows, mem) == Asked(cols, user, eval) + if p.countAll then [rows] else []
  {
    hide Compiled, Encodes, Runnable, RunStream, Acceptable;
    NoRepeatsAgree(cols);
    AgreedMeansRequests(cols, start, p, e, user, eval, rows, mem);
  }

  /** The type of what an operation makes of a described column. */
  function Produced(op: Alg, d: Desc): HwType {
    if op == Count then Sint64
    else if op == Sum && d.hwType == Decimal64 && d.sumOut == To128 then Decimal128
    else d.hwType
  }

  /** A device whose answer is the type it would produce. */
  function Types<C>(): (f: (Alg, Desc, C) -> HwType) {
    (op: Alg, d: Desc, c: C) => Produced(op, d)
  }

  /** Every maximum and minimum is announced with the type of its column. */
  predicate ExtremesAnnounced(cols: seq<AggCol>) {
    forall i, k :: 0 <= i < |cols| && 0 <= k < |cols[i].outs| && cols[i].outs[k].alg in {Max, Min} ==>
      cols[i].outs[k].outType == cols[i].inType
  }

  /** The device produces request j with the type of its result: the announced one but for some maxima and minima. */
  lemma RequestTypes(cols: seq<AggCol>, start: nat, j: nat)
    requires Acceptable(cols, start) && j < |Requests(cols)|
    ensures var q := Requests(cols)[j]; var c := cols[q.src];
      && Produced(q.alg, WantedDesc(c, q)) == HwOf(q.result)
      && (q.alg !in {Max, Min} ==> q.announced == q.result)
      && (q.alg in {Max, Min} ==> q.result == c.inType && c.inType in {Long, ShortDecimal, LongDecimal})
  {
    var k := RequestOutput(cols, j);
    hide Requests;
    var q := Requests(cols)[j];
    assert Supported(cols[q.src], cols[q.src].outs[k]);
  }

  /** All requests are announced as they are produced exactly when every extreme is. */
  lemma AnnouncedIff(cols: seq<AggCol>, start: nat)
    requires Acceptable(cols, start)
    ensures (forall j :: 0 <= j < |Requests(cols)| ==>
                 HwOf(Requests(cols)[j].result) == HwOf(Requests(cols)[j].announced))
            <==> ExtremesAnnounced(cols)
  {
    hide Requests, Acceptable;
    if ExtremesAnnounced(cols) {
      forall j | 0 <= j < |Requests(cols)|
        ensures HwOf(Requests(cols)[j].result) == HwOf(Requests(cols)[j].announced)
      {
        RequestTypes(cols, start, j);
        var k := RequestOutput(cols, j);
      }
    } else {
      var i, k :| 0 <= i < |cols| && 0 <= k < |cols[i].outs| && cols[i].outs[k].alg in {Max, Min}
        && cols[i].outs[k].outType != cols[i].inType;
      var j := OutputRequest(cols, i, k);
      RequestTypes(cols, start, j);
    }
  }

  /**
  What the device produces in every output column has the type of the request's result,
  and the type announced to wd_agg.c for all of them if and only if every maximum and
  minimum was announced with the type of its column.
  */
  lemma TypesAnnouncedIff<C>(cols: seq<AggCol>, start: nat, p: Plan, e: ExtSqe, user: seq<C>, mem: seq<HwType>)
    requires Compiled(cols, p.countAll, p) && Encodes(e, p.normal) && e.countValid == p.countAll
    requires |user| == |cols| && |mem| == |p.output| && Acceptable(cols, start) && NoRepeats(cols)
    ensures Runnable(p, e, user, mem)
    ensures forall j :: 0 <= j < |Requests(cols)| ==>
      StandsFor(RunStream(p, e, user, Types(), Sint64, mem)[j], Requests(cols)[j].result)
    ensures (forall j :: 0 <= j < |Requests(cols)| ==>
               StandsFor(RunStream(p, e, user, Types(), Sint64, mem)[j], Requests(cols)[j].announced))
            <==> ExtremesAnnounced(cols)
  {
    CompiledSizes(cols, p);
    hide Compiled, Encodes, Runnable, RunStream, Acceptable, HwOf, Produced, WantedDesc, ExtremesAnnounced, Requests;
    hide StandsFor;
    PlanMeansRequests(cols, start, p, e, user, Types(), Sint64, mem);
    AnnouncedIff(cols, start);
    forall j | 0 <= j < |Requests(cols)|
      ensures RunStream(p, e, user, Types(), Sint64, mem)[j] == HwOf(Requests(cols)[j].result)
      ensures StandsFor(HwOf(Requests(cols)[j].result), Requests(cols)[j].result)
      ensures HwOf(Requests(cols)[j].result) == HwOf(Requests(cols)[j].announced)
              <==> StandsFor(HwOf(Requests(cols)[j].result), Requests(cols)[j].announced)
    {
      RequestTypes(cols, start, j);
      HwOfIff(Requests(cols)[j].result, HwOf(Requests(cols)[j].result));
      HwOfIff(Requests(cols)[j].announced, HwOf(Requests(cols)[j].result));
      assert Asked(cols, user, Types<C>())[j] == HwOf(Requests(cols)[j].result);
    }
  }

  lemma CompiledSizes(cols: seq<AggCol>, p: Plan)
    requires Compiled(cols, p.countAll, p)
    ensures |p.output| == |Requests(cols)| + (if p.countAll then 1 else 0) && |p.input| == |cols|
    ensures |p.normal| == |Requests(cols)| && forall k :: 0 <= k < |p.normal| ==> p.normal[k].fromIdx < |p.input|
  {
  }

  lemma AskedChoice(cols: seq<AggCol>, start: nat, j: nat)
    requires Acceptable(cols, start) && SumsAgree(cols) && j < |Requests(cols)|
    ensures var q := Requests(cols)[j]; var c := cols[q.src]; var want := WantedDesc(c, q);
      want.(sumOut := if want.sumOut == Unset then Unset else LastWanted(c, c.outs)) == want
  {
    var k := RequestSupported(cols, start, j);
    var q := Requests(cols)[j];
    hide Requests, LastWanted, Acceptable;
    SumChoiceSuitsIff(cols[q.src]);
    assert ChoiceSuits(cols[q.src], k);
  }

  /** A device whose answer is the sum choice it was told. */
  function Choice<C>(): (f: (Alg, Desc, C) -> SumOut) {
    (op: Alg, d: Desc, c: C) => d.sumOut
  }

  /**
  And only then: with conflicting sums there is a device for which an output column gets
  something else than what was asked for.
  */
  lemma MeansRequestsIff<C>(cols: seq<AggCol>, start: nat, p: Plan, e: ExtSqe, user: seq<C>, rows: SumOut,
                            mem: seq<SumOut>)
    requires Compiled(cols, p.countAll, p) && Encodes(e, p.normal) && e.countValid == p.countAll
    requires |user| == |cols| && |mem| == |p.output| && Acceptable(cols, start)
    ensures Runnable(p, e, user, mem)
    ensures RunStream(p, e, user, Choice(), rows, mem)
            == Asked(cols, user, Choice()) + (if p.countAll then [rows] else [])
            <==> SumsAgree(cols)
  {
    PlanRunnable(cols, p, e, user, mem);
    CompiledSizes(cols, p);
    hide Compiled, Encodes, Runnable, RunStream, Acceptable;
    if SumsAgree(cols) {
      AgreedMeansRequests(cols, start, p, e, user, Choice(), rows, mem);
    } else {
      var i :| 0 <= i < |cols| && SumConflict(cols[i]);
      SumChoiceSuitsIff(cols[i]);
      var k :| 0 <= k < |cols[i].outs| && !ChoiceSuits(cols[i], k);
      var j := OutputRequest(cols, i, k);
      ColumnAgainstAsked(cols, start, p, e, user, Choice(), rows, mem, j);
      hide Requests, LastWanted, SumConflict;
      assert WantedChoice(cols[i], Requests(cols)[j]) == WantedSum(cols[i], cols[i].outs[k]);
      assert Asked(cols, user, Choice())[j] == WantedSum(cols[i], cols[i].outs[k]);
    }
  }

  /** One short-decimal column, summed into a short and into a long decimal. */
  const CONFLICT: seq<AggCol> := [AggCol(10, ShortDecimal, [Output(Sum, ShortDecimal), Output(Sum, LongDecimal)])]

  lemma ConflictFacts()
    ensures Acceptable(CONFLICT, 0) && !SumsAgree(CONFLICT) && !NoRepeats(CONFLICT)
  {
    var c := CONFLICT[0];
    assert WantedSum(c, c.outs[0]) == To64 && WantedSum(c, c.outs[1]) == To128;
    assert SumConflict(c);
    assert CONFLICT[..0] == [];
    assert Requests(CONFLICT) == [] + ColRequests(0, c);
    hide Requests;
    forall i, j | 0 <= i < |CONFLICT| && 0 <= j < |CONFLICT[i].outs|
      ensures Supported(CONFLICT[i], CONFLICT[i].outs[j]) {
      assert i == 0 && (j == 0 || j == 1);
    }
  }

  /** The driver accepts it, called without the check of wd_agg.c, and the device is asked for a wrong sum. */
  method ConflictingSums<C>(column: C, before: seq<SumOut>) returns (p: Plan, e: ExtSqe)
    requires |before| == 2
    ensures !NoRepeats(CONFLICT) && Runnable(p, e, [column], before)
    ensures RunStream(p, e, [column], Choice(), Unset, before) != Asked(CONFLICT, [column], Choice())
  {
    ConflictFacts();
    TwoRequests();
    hide Acceptable, SumsAgree, NoRepeats, Requests, Compiled, Encodes, Runnable, RunStream, Asked;
    var r := Compile(CONFLICT, false);
    p := r.value;
    CompiledIs(CONFLICT, false, p);
    CompiledSizes(CONFLICT, p);
    e := FillOutputOrder(CONFLICT, p, false);
    MeansRequestsIff(CONFLICT, 0, p, e, [column], Unset, before);
    ghost var asked := Asked(CONFLICT, [column], Choice());
    assert asked + [] == asked;
  }

  lemma TwoRequests()
    ensures |Requests(CONFLICT)| == 2
  {
    assert CONFLICT[..0] == [];
    assert Requests(CONFLICT) == [] + ColRequests(0, CONFLICT[0]);
  }

  lemma CompiledIs(cols: seq<AggCol>, countAll: bool, p: Plan)
    requires Compiled(cols, countAll, p)
    ensures p.countAll == countAll
  {
  }

  // ---------- rehash ----------

  /** Rehash input: hardware buffer k is the user's buffer for output column k. */
  ghost function RehashBuffers<C>(output: seq<OutCol>, user: seq<C>): (r: seq<C>)
    requires forall k :: 0 <= k < |output| ==> output[k].usrIdx < |user|
    ensures |r| == |output|
  {
    seq(|output|, k requires 0 <= k < |output| => user[output[k].usrIdx])
  }

  ghost function RehashDescs(output: seq<OutCol>): (r: seq<Desc>)
    ensures |r| == |output|
  {
    seq(|output|, k requires 0 <= k < |output| => OutDesc(output[k]))
  }

  ghost predicate RehashRunnable<C, V>(output: seq<OutCol>, e: ExtSqe, user: seq<C>, mem: seq<V>) {
    && |user| == |mem| == |output| == e.outCols <= 16
    && (forall k :: 0 <= k < |output| ==> output[k].usrIdx < |mem|)
    && (forall k :: 0 <= k < |output| ==> NibbleAt(e.fromIn, k) == k && DeviceOp(NibbleAt(e.optype, k)) == Some(Sum))
    && (forall a, b :: 0 <= a < b < |output| ==> output[a].usrIdx != output[b].usrIdx)
  }

  /** One rehash pass: every output column summed again, as described, and written back. */
  ghost function RunRehash<C, V>(output: seq<OutCol>, e: ExtSqe, user: seq<C>, eval: (Alg, Desc, C) -> V,
                                 mem: seq<V>): (r: seq<V>)
    requires RehashRunnable(output, e, user, mem)
    ensures |r| == |mem|
  {
    WriteBack(output, HwColumns(e, RehashDescs(output), RehashBuffers(output, user), eval), mem)
  }

  lemma RehashFits<C, V>(cols: seq<AggCol>, p: Plan, e: ExtSqe, user: seq<C>, mem: seq<V>)
    requires Compiled(cols, p.countAll, p) && Encodes(e, p.rehash) && |user| == |mem| == |p.output|
    ensures RehashRunnable(p.output, e, user, mem)
  {
    hide Packs, StablePermutation;
    OutputsDistinct(cols, p);
    NibblesInRange(e, p.rehash, |p.output|);
  }

  lemma RehashColumn<C, V>(output: seq<OutCol>, e: ExtSqe, user: seq<C>, eval: (Alg, Desc, C) -> V, mem: seq<V>, k: nat)
    requires RehashRunnable(output, e, user, mem) && k < |output|
    ensures RunRehash(output, e, user, eval, mem)[output[k].usrIdx]
            == eval(Sum, Reads(Sum, OutDesc(output[k])), user[output[k].usrIdx])
  {
    var hw := HwColumns(e, RehashDescs(output), RehashBuffers(output, user), eval);
    assert hw[k] == eval(Sum, Reads(Sum, OutDesc(output[k])), user[output[k].usrIdx]);
    WriteBackAt(output, hw, mem, k);
  }

  /**
  How output column j must be described when it is summed again; count(*) is the last one.
  The sum of 64-bit decimals is to stay one, whatever first made the column.
  */
  function AgainDesc(cols: seq<AggCol>, j: nat): Desc {
    var reqs := Requests(cols);
    if j >= |reqs| then Desc(Sint64, Unset, 0)
    else
      var t := HwOf(reqs[j].result);
      Desc(t, if t == Decimal64 then To64 else Unset, cols[reqs[j].src].info)
  }

  /** No output is a short decimal. */
  predicate NoShort(cols: seq<AggCol>) {
    forall j :: 0 <= j < |Requests(cols)| ==> Requests(cols)[j].result != ShortDecimal
  }

  /** The description an output column carries into a rehash: the wanted one with the choice left unset. */
  lemma RehashDesc(cols: seq<AggCol>, p: Plan, j: nat) returns (k: nat)
    requires Compiled(cols, p.countAll, p) && j < |p.output|
    ensures k < |p.output| && p.output[k].usrIdx == j
    ensures Reads(Sum, OutDesc(p.output[k])) == AgainDesc(cols, j).(sumOut := Unset)
  {
    hide StablePermutation, Requests, InputRight;
    k := ColumnFor(cols, p, j);
  }

  /**
  A rehash pass reads and writes every output column in place and sums it again, described
  as its sum must be, whatever the device computes, when no output is a short decimal.
  */
  lemma RehashInPlace<C, V>(cols: seq<AggCol>, p: Plan, e: ExtSqe, user: seq<C>, eval: (Alg, Desc, C) -> V, mem: seq<V>)
    requires Compiled(cols, p.countAll, p) && Encodes(e, p.rehash) && |user| == |mem| == |p.output|
    ensures RehashRunnable(p.output, e, user, mem)
    ensures NoShort(cols) ==> forall j :: 0 <= j < |mem| ==>
      RunRehash(p.output, e, user, eval, mem)[j] == eval(Sum, AgainDesc(cols, j), user[j])
  {
    RehashFits(cols, p, e, user, mem);
    if NoShort(cols) {
      forall j | 0 <= j < |mem|
        ensures RunRehash(p.output, e, user, eval, mem)[j] == eval(Sum, AgainDesc(cols, j), user[j])
      {
        var k := RehashDesc(cols, p, j);
        RehashColumn(p.output, e, user, eval, mem, k);
        hide Compiled, Encodes, RunRehash, RehashRunnable, Requests;
      }
    }
  }

  /** And only then: a short decimal is summed again without a choice. */
  lemma RehashInPlaceIff<C>(cols: seq<AggCol>, p: Plan, e: ExtSqe, user: seq<C>, mem: seq<SumOut>)
    requires Compiled(cols, p.countAll, p) && Encodes(e, p.rehash) && |user| == |mem| == |p.output|
    ensures RehashRunnable(p.output, e, user, mem)
    ensures (forall j :: 0 <= j < |mem| ==>
               RunRehash(p.output, e, user, Choice(), mem)[j] == AgainDesc(cols, j).sumOut)
            <==> NoShort(cols)
  {
    hide Compiled, Encodes, RunRehash, RehashRunnable, Requests, NoShort, AgainDesc, Reads;
    RehashInPlace(cols, p, e, user, Choice(), mem);
    if !NoShort(cols) {
      var j := ShortUnset(cols, p, e, user, mem);
    }
  }

  lemma ShortUnset<C>(cols: seq<AggCol>, p: Plan, e: ExtSqe, user: seq<C>, mem: seq<SumOut>) returns (j: nat)
    requires Compiled(cols, p.countAll, p) && RehashRunnable(p.output, e, user, mem) && !NoShort(cols)
    ensures j < |mem| && RunRehash(p.output, e, user, Choice(), mem)[j] == Unset && AgainDesc(cols, j).sumOut == To64
  {
    CompiledSizes(cols, p);
    j :| 0 <= j < |Requests(cols)| && Requests(cols)[j].result == ShortDecimal;
    var k := RehashDesc(cols, p, j);
    RehashColumn(p.output, e, user, Choice(), mem, k);
    hide Compiled, RunRehash, Requests;
  }

  /** One short-decimal column with one short-decimal result. */
  function OneShort(a: Alg): (cols: seq<AggCol>) {
    [AggCol(10, ShortDecimal, [Output(a, ShortDecimal)])]
  }

  lemma OneShortFacts(a: Alg)
    requires a != Count
    ensures Acceptable(OneShort(a), 0) && NoRepeats(OneShort(a))
        && !NoShort(OneShort(a)) && |Requests(OneShort(a))| == 1
    ensures AgainDesc(OneShort(a), 0) == Desc(Decimal64, To64, 10)
  {
    var cols := OneShort(a);
    assert cols[..0] == [];
    assert Requests(cols) == [] + ColRequests(0, cols[0]);
    assert Requests(cols)[0] == Req(0, cols[0], cols[0].outs[0]);
  }

  /**
  A sum, a maximum or a minimum of short decimals, accepted by every check: rehashed, the
  device is told to sum 64-bit decimals without a choice of result.
  */
  method RehashWithoutChoice<C>(a: Alg, column: C, before: seq<SumOut>) returns (p: Plan, e: ExtSqe)
    requires a != Count && |before| == 1
    ensures NoRepeats(OneShort(a)) && RehashRunnable(p.output, e, [column], before)
    ensures RunRehash(p.output, e, [column], Choice(), before) == [Unset]
    ensures AgainDesc(OneShort(a), 0).sumOut == To64
  {
    OneShortFacts(a);
    hide Acceptable, Requests, Compiled, Encodes, NoShort, RehashRunnable, RunRehash, OneShort, NoRepeats;
    var r := Compile(OneShort(a), false);
    p := r.value;
    CompiledIs(OneShort(a), false, p);
    CompiledSizes(OneShort(a), p);
    e := FillOutputOrder(OneShort(a), p, true);
    RehashFits(OneShort(a), p, e, [column], before);
    var k := RehashDesc(OneShort(a), p, 0);
    RehashColumn(p.output, e, [column], Choice(), before, k);
  }

  // ---------- key columns ----------

  datatype KeyCol = KeyCol(info: nat, inType: DataType)
  datatype KeyData = KeyData(hwType: HwType, info: nat, usrIdx: nat)

  function Align4(x: nat): (r: nat)
    ensures x <= r < x + 4 && r % 4 == 0
  {
    (x + 3) / 4 * 4
  }

  /** transfer_key_col_info for one key. */
  function KeyInfo(k: KeyCol, j: nat): (r: Result<KeyData>) {
    match k.inType
    case Varchar => Ok(KeyData(VChar, Align4((if k.info == 0 then 30 else k.info) + 2), j))
    case CharType => Ok(KeyData(Char, k.info, j))
    case LongDecimal => if PrecisionOk(k.info, true) then Ok(KeyData(Decimal128, 0, j)) else Invalid
    case ShortDecimal => if PrecisionOk(k.info, false) then Ok(KeyData(Decimal64, 0, j)) else Invalid
    case Long => Ok(KeyData(Sint64, 0, j))
    case _ => Ok(KeyData(Sint32, 0, j))
  }

  function KeyTypes(ks: seq<KeyData>): (r: seq<HwType>) {
    seq(|ks|, i requires 0 <= i < |ks| => ks[i].hwType)
  }

  function KeyUsr(ks: seq<KeyData>): (r: seq<nat>) {
    seq(|ks|, i requires 0 <= i < |ks| => ks[i].usrIdx)
  }

  ghost predicate KeysPicked(tmp: seq<KeyData>, data: seq<KeyData>, picked: seq<nat>) {
    |data| == |picked| && forall k :: 0 <= k < |data| ==> picked[k] < |tmp| && data[k] == tmp[picked[k]]
  }

  /** Decimal keys must fit; every other key is taken. */
  predicate KeyOk(k: KeyCol) {
    && (k.inType == LongDecimal ==> PrecisionOk(k.info, true))
    && (k.inType == ShortDecimal ==> PrecisionOk(k.info, false))
  }

  /** transfer_key_to_hw_type: accepted iff every decimal fits, and then a stable sort by hardware type. */
  method TransferKeyToHwType(keys: seq<KeyCol>) returns (r: Result<seq<KeyData>>)
    ensures r.Ok? <==> forall j :: 0 <= j < |keys| ==> KeyOk(keys[j])
    ensures r.Ok? ==> StablePermutation(KeyTypes(r.value), KeyUsr(r.value), |keys|)
    ensures r.Ok? ==> forall k :: 0 <= k < |r.value| ==>
      && r.value[k].usrIdx < |keys| && r.value[k].hwType == HwOf(keys[r.value[k].usrIdx].inType)
      && KeyInfo(keys[r.value[k].usrIdx], r.value[k].usrIdx) == Ok(r.value[k])
  {
    var tmp: seq<KeyData> := [];
    for j := 0 to |keys|
      invariant |tmp| == j && forall q :: 0 <= q < j ==> KeyInfo(keys[q], q) == Ok(tmp[q]) && KeyOk(keys[q])
    {
      var one := KeyInfo(keys[j], j);
      if one.Invalid? { return Invalid; }
      tmp := tmp + [one.value];
    }
    ghost var types := KeyTypes(tmp);
    var data: seq<KeyData> := [];
    for i := 0 to |ORDER|
      invariant KeysPicked(tmp, data, Picked(types, i, 0))
    {
      for j := 0 to |tmp|
        invariant KeysPicked(tmp, data, Picked(types, i, j))
      {
        if ORDER[i] == tmp[j].hwType {
          assert Picked(types, i, j + 1) == Picked(types, i, j) + [j];
          data := data + [tmp[j]];
        }
      }
    }
    KeysStable(keys, tmp, data);
    return Ok(data);
  }

  lemma KeysStable(keys: seq<KeyCol>, tmp: seq<KeyData>, data: seq<KeyData>)
    requires |tmp| == |keys| && forall q :: 0 <= q < |tmp| ==> KeyInfo(keys[q], q) == Ok(tmp[q])
    requires KeysPicked(tmp, data, Order(KeyTypes(tmp)))
    ensures StablePermutation(KeyTypes(data), KeyUsr(data), |keys|)
  {
    OrderIsStableSort(KeyTypes(tmp));
    forall k | 0 <= k < |data|
      ensures KeyUsr(data)[k] == Order(KeyTypes(tmp))[k]
      ensures KeyTypes(data)[k] == KeyTypes(tmp)[Order(KeyTypes(tmp))[k]]
    {
      assert KeyInfo(keys[Order(KeyTypes(tmp))[k]], Order(KeyTypes(tmp))[k]) == Ok(data[k]);
    }
    assert KeyUsr(data) == Order(KeyTypes(tmp));
  }
}
