/**
The store buffer of drv/hisi_comp.c. A stateful request whose output space is too small
for the device is served through a 236-byte buffer: the device writes there, the driver
hands out what fits and keeps the rest for the following calls, which then skip the
device.
*/
module StoreBuffer {
  import opened ModArith
  import opened Bytes

  const STORE_SIZE := 236
  const THRESHOLD := 200
  const MAX_SIZE := 0x80_0000

  /** Status of a request, or of the device's answer; Bad is WD_IN_EPARA. */
  datatype Status = Success | Again | End | Bad

  /** What a request fixes: output space, direction, first call of the stream, format header. */
  datatype Request = Request(dstLen: nat, compress: bool, isNew: bool, head: seq<Byte>)

  /** What the device answers: the bytes written at its destination address, and its status. */
  datatype Reply = Reply(bytes: seq<Byte>, status: Status)

  /** struct hisi_comp_buf; ended is status == WD_STREAM_END. */
  datatype Buf = Buf(dst: seq<Byte>, pending: nat, offset: nat, ended: bool, skipHw: bool)

  /** What one call hands to the user. */
  datatype Outcome = Outcome(bytes: seq<Byte>, status: Status)

  /** The header goes out in front of the first output of a compressed stream. */
  function Head(q: Request): (h: seq<Byte>) {
    if q.isNew && q.compress then q.head else []
  }

  predicate RequestOk(q: Request) {
    |q.head| <= 10
  }

  /** check_enable_store_buf for a stateful request; the subtraction is on 32 bits. */
  predicate Engaged(q: Request) {
    || (q.isNew && q.compress && (q.dstLen - |q.head|) % 0x1_0000_0000 <= THRESHOLD)
    || q.dstLen <= THRESHOLD
  }

  /** The wrapped subtraction never matters: a short output also passes the second test. */
  lemma EngagedIff(q: Request)
    requires RequestOk(q) && q.dstLen < 0x1_0000_0000
    ensures Engaged(q) <==> q.dstLen <= THRESHOLD + |Head(q)|
  {
  }

  /** Space the device is told it has (dest_avail_out). */
  function Room(q: Request): (n: int) {
    if Engaged(q) then STORE_SIZE - |Head(q)|
    else if q.dstLen - |Head(q)| > MAX_SIZE then MAX_SIZE else q.dstLen - |Head(q)|
  }

  /** The device is told of all the space that is safe: behind the header where it writes, and at most 8 MB. */
  lemma RoomIff(q: Request, n: nat)
    requires RequestOk(q)
    ensures n <= Room(q) <==>
      if Engaged(q) then |Head(q)| + n <= STORE_SIZE else |Head(q)| + n <= q.dstLen && n <= MAX_SIZE
  {
  }

  /** A device that keeps to the space it was told. */
  predicate Fits(q: Request, r: Reply) {
    |r.bytes| <= Room(q)
  }

  // ---------- the buffer as a value ----------

  ghost predicate BufOk(b: Buf) {
    && |b.dst| == STORE_SIZE && b.offset + b.pending <= STORE_SIZE
    && (b.pending == 0 ==> b.offset == 0)
  }

  /** Bytes produced and not handed out yet. */
  ghost function Window(b: Buf): (w: seq<Byte>)
    requires BufOk(b)
    ensures |w| == b.pending
  {
    b.dst[b.offset..b.offset + b.pending]
  }

  /** check_store_buf and the receive that skips the device. */
  ghost function Drained(b: Buf, q: Request): (r: (Buf, Outcome))
    requires BufOk(b) && b.pending > 0
  {
    var n := Min(b.pending, q.dstLen);
    var out := b.dst[b.offset..b.offset + n];
    if n == b.pending
    then (Buf(Zeros(STORE_SIZE), 0, 0, b.ended, false), Outcome(out, if b.ended then End else Success))
    else (b.(pending := b.pending - n, offset := b.offset + n, skipHw := false), Outcome(out, Success))
  }

  /** The store buffer after the driver's header and the device's output. */
  ghost function Written(b: Buf, q: Request, r: Reply): (d: seq<Byte>)
    requires |b.dst| == STORE_SIZE && |Head(q)| + |r.bytes| <= STORE_SIZE
    ensures |d| == STORE_SIZE
  {
    Head(q) + r.bytes + b.dst[|Head(q)| + |r.bytes|..]
  }

  /** The buffer after a request whose preparation or submission failed. */
  ghost function AfterFailure(b: Buf, q: Request): (b': Buf)
    requires BufOk(b) && b.pending == 0 && RequestOk(q)
  {
    if Engaged(q) then b.(dst := Head(q) + b.dst[|Head(q)|..], pending := STORE_SIZE) else b
  }

  /** A call that goes to the device: the store-buffer part of the fill, then copy_from_hw. */
  ghost function Submitted(b: Buf, q: Request, r: Reply): (res: (Buf, Outcome))
    requires BufOk(b) && b.pending == 0 && RequestOk(q) && Fits(q, r)
  {
    if !Engaged(q) then (b, Outcome(Head(q) + r.bytes, r.status))
    else if r.status.Bad? then (AfterFailure(b, q).(dst := Written(b, q, r)), Outcome([], Bad))
    else
      var produced := |Head(q)| + |r.bytes|;
      var n := Min(produced, q.dstLen);
      var d := Written(b, q, r);
      if n == produced then (Buf(Zeros(STORE_SIZE), 0, 0, b.ended, b.skipHw), Outcome(d[..n], r.status))
      else if r.status.End? then (Buf(d, produced - n, n, true, b.skipHw), Outcome(d[..n], Again))
      else (Buf(d, produced - n, n, b.ended, b.skipHw), Outcome(d[..n], r.status))
  }

  /** One call of the stream; the reply is looked at only when the device is used. */
  ghost function Call(b: Buf, q: Request, r: Reply): (res: (Buf, Outcome))
    requires BufOk(b) && RequestOk(q) && Fits(q, r)
  {
    if b.pending > 0 then Drained(b, q) else Submitted(b, q, r)
  }

  /** Bytes a call adds to the stream. */
  ghost function Made(b: Buf, q: Request, r: Reply): (m: seq<Byte>) {
    if b.pending > 0 then [] else Head(q) + r.bytes
  }

  lemma DrainConserves(b: Buf, q: Request)
    requires BufOk(b) && b.pending > 0
    ensures var (b', o) := Drained(b, q);
      && BufOk(b') && |o.bytes| <= q.dstLen
      && o.bytes + Window(b') == Window(b)
  {
    var n := Min(b.pending, q.dstLen);
    assert Window(b) == b.dst[b.offset..b.offset + n] + b.dst[b.offset + n..b.offset + b.pending];
  }

  lemma SplitPrefix(d: seq<Byte>, all: seq<Byte>, n: nat)
    requires n <= |all| && all <= d
    ensures d[..n] + d[n..|all|] == all
  {
  }

  lemma SubmitConserves(b: Buf, q: Request, r: Reply)
    requires BufOk(b) && b.pending == 0 && RequestOk(q) && Fits(q, r) && !r.status.Bad?
    ensures var (b', o) := Submitted(b, q, r);
      && BufOk(b') && |o.bytes| <= q.dstLen
      && o.bytes + Window(b') == Head(q) + r.bytes
  {
    var all := Head(q) + r.bytes;
    if Engaged(q) {
      SplitPrefix(Written(b, q, r), all, Min(|all|, q.dstLen));
    } else {
      assert all + [] == all;
    }
    hide Engaged, Head;
  }

  /** Handed-out bytes never exceed the output space, and nothing is lost, repeated or reordered. */
  lemma CallConserves(b: Buf, q: Request, r: Reply)
    requires BufOk(b) && RequestOk(q) && Fits(q, r) && (b.pending > 0 || !r.status.Bad?)
    ensures var (b', o) := Call(b, q, r);
      && BufOk(b') && |o.bytes| <= q.dstLen
      && o.bytes + Window(b') == Window(b) + Made(b, q, r)
  {
    hide Window, Drained, Submitted, Head, Fits;
    if b.pending > 0 {
      DrainConserves(b, q);
      assert Window(b) + [] == Window(b);
    } else {
      SubmitConserves(b, q, r);
      assert Window(b) == [];
    }
  }

  // ---------- whole streams ----------

  datatype Turn = Turn(q: Request, r: Reply)

  /** The stream's state after some calls: the buffer, all bytes produced, all bytes handed out. */
  datatype Stream = Stream(b: Buf, made: seq<Byte>, given: seq<Byte>, devEnded: bool, told: bool)

  ghost function Fresh(): (s: Stream) {
    Stream(Buf(Zeros(STORE_SIZE), 0, 0, false, false), [], [], false, false)
  }

  /** A call may follow as long as the end was not reported; the device keeps to its space and makes no error. */
  ghost predicate Enabled(s: Stream, t: Turn) {
    BufOk(s.b) && RequestOk(t.q) && Fits(t.q, t.r) && !s.told && (s.b.pending > 0 || !t.r.status.Bad?)
  }

  ghost function Next(s: Stream, t: Turn): (s': Stream)
    requires Enabled(s, t)
  {
    var (b, o) := Call(s.b, t.q, t.r);
    Stream(b, s.made + Made(s.b, t.q, t.r), s.given + o.bytes,
           s.devEnded || (s.b.pending == 0 && t.r.status.End?), o.status.End?)
  }

  ghost predicate StreamInv(s: Stream) {
    && BufOk(s.b) && s.given + Window(s.b) == s.made
    && (s.told <==> s.devEnded && s.b.pending == 0)
    && (!s.told ==> s.b.ended == s.devEnded)
  }

  lemma CallStatus(b: Buf, q: Request, r: Reply)
    requires BufOk(b) && RequestOk(q) && Fits(q, r) && (b.pending > 0 || !r.status.Bad?)
    ensures var (b', o) := Call(b, q, r);
      && (b.pending > 0 ==> b'.ended == b.ended && o.status == if b.ended && b'.pending == 0 then End else Success)
      && (b.pending == 0 ==>
            && o.status == (if r.status.End? && b'.pending > 0 then Again else r.status)
            && (o.status.End? || b'.ended == (b.ended || r.status.End?)))
  {
    hide Engaged, Head, Written, Room;
  }

  lemma NextKeepsInv(s: Stream, t: Turn)
    requires StreamInv(s) && Enabled(s, t)
    ensures StreamInv(Next(s, t))
  {
    CallConserves(s.b, t.q, t.r);
    CallStatus(s.b, t.q, t.r);
    hide Call, Window, Made, Fits;
    var (b, o) := Call(s.b, t.q, t.r);
    Glue(s.given, o.bytes, Window(b), Window(s.b), Made(s.b, t.q, t.r));
  }

  lemma Glue(given: seq<Byte>, out: seq<Byte>, after: seq<Byte>, before: seq<Byte>, made: seq<Byte>)
    requires out + after == before + made
    ensures given + out + after == given + before + made
  {
    assert given + out + after == given + (out + after);
    assert given + (before + made) == given + before + made;
  }

  /** Every call of the run was possible, and s is where it leads. */
  ghost predicate Leads(turns: seq<Turn>, s: Stream)
    decreases |turns|
  {
    if turns == [] then s == Fresh()
    else
      var last := |turns| - 1;
      exists p :: Leads(turns[..last], p) && Enabled(p, turns[last]) && s == Next(p, turns[last])
  }

  /**
  Over every run of one stream: the bytes handed out followed by the pending window are
  the bytes produced, in order and once each; the end is reported by exactly the call
  that leaves nothing pending after the device has ended.
  */
  lemma {:induction false} StreamConserved(turns: seq<Turn>, s: Stream)
    requires Leads(turns, s)
    ensures StreamInv(s)
    decreases |turns|
  {
    if turns == [] {
      assert Window(s.b) == [];
    } else {
      var last := |turns| - 1;
      var p :| Leads(turns[..last], p) && Enabled(p, turns[last]) && s == Next(p, turns[last]);
      StreamConserved(turns[..last], p);
      NextKeepsInv(p, turns[last]);
    }
  }

  /** Once the end is reported the user holds everything. */
  lemma EndMeansComplete(turns: seq<Turn>, s: Stream)
    requires Leads(turns, s) && s.told
    ensures s.given == s.made && s.devEnded
  {
    StreamConserved(turns, s);
    assert Window(s.b) == [];
  }

  // ---------- a send that fails ----------

  /**
  A failed submission leaves the stream intact exactly when the store buffer was not
  engaged; otherwise the next calls hand out 236 bytes that no device produced.
  */
  lemma FailureHarmlessIff(b: Buf, q: Request)
    requires BufOk(b) && b.pending == 0 && RequestOk(q)
    ensures BufOk(AfterFailure(b, q))
    ensures Window(AfterFailure(b, q)) == Window(b) <==> !Engaged(q)
    ensures Engaged(q) ==> |Window(AfterFailure(b, q))| == STORE_SIZE
  {
  }

  /** So does an answer with an error: the rest of the receive is skipped, and 236 bytes stay pending. */
  lemma ErrorHarmlessIff(b: Buf, q: Request, r: Reply)
    requires BufOk(b) && b.pending == 0 && RequestOk(q) && Fits(q, r) && r.status.Bad?
    ensures BufOk(Submitted(b, q, r).0)
    ensures Window(Submitted(b, q, r).0) == Window(b) <==> !Engaged(q)
    ensures Engaged(q) ==> |Window(Submitted(b, q, r).0)| == STORE_SIZE
  {
  }

  // ---------- the driver's object ----------

  datatype Sent = Skipped(o: Outcome) | ToDevice(room: nat) | Failed

  class CompBuf {
    var skipHw: bool
    const dst: array<Byte>
    var pending: nat
    var offset: nat
    var ended: bool

    ghost predicate Valid() reads this, dst {
      dst.Length == STORE_SIZE
    }

    ghost function View(): (b: Buf)
      reads this, dst
    {
      Buf(dst[..], pending, offset, ended, skipHw)
    }

    constructor ()
      ensures Valid() && View() == Fresh().b && fresh(dst)
    {
      dst := new Byte[STORE_SIZE](_ => 0);
      skipHw, pending, offset, ended := false, 0, 0, false;
      new;
      assert dst[..] == Zeros(STORE_SIZE);
    }

    /** copy_to_out for a flat output buffer of dstLen bytes. */
    method CopyToOut(dstLen: nat, total: nat) returns (out: seq<Byte>)
      requires Valid() && offset + total <= STORE_SIZE
      ensures out == dst[offset..offset + Min(total, dstLen)]
    {
      var n := if total > dstLen then dstLen else total;
      out := dst[offset..offset + n];
    }

    method Clear()
      requires Valid()
      modifies dst
      ensures dst[..] == Zeros(STORE_SIZE)
    {
      var i := 0;
      while i < STORE_SIZE
        invariant 0 <= i <= STORE_SIZE && forall k :: 0 <= k < i ==> dst[k] == 0
      {
        dst[i] := 0;
        i := i + 1;
      }
      assert dst[..] == Zeros(STORE_SIZE);
    }

    /** memcpy of bytes to position at. */
    method Write(at: nat, bytes: seq<Byte>)
      requires Valid() && at + |bytes| <= STORE_SIZE
      modifies dst
      ensures dst[..] == old(dst[..at]) + bytes + old(dst[at + |bytes|..])
    {
      var i := 0;
      while i < |bytes|
        invariant i <= |bytes|
        invariant forall k :: 0 <= k < i ==> dst[at + k] == bytes[k]
        invariant forall k :: 0 <= k < STORE_SIZE && !(at <= k < at + i) ==> dst[k] == old(dst[k])
      {
        dst[at + i] := bytes[i];
        i := i + 1;
      }
    }

    /**
    hisi_zip_comp_send: serve from the buffer, or prepare and submit. ok tells whether
    the checks of the preparation and the submission succeed.
    */
    method Send(q: Request, ok: bool) returns (sent: Sent)
      requires Valid() && BufOk(View()) && RequestOk(q) && !skipHw
      modifies this, dst
      ensures Valid()
      ensures old(pending) > 0 ==>
        sent == Skipped(Drained(old(View()), q).1) && View() == Drained(old(View()), q).0.(skipHw := true)
      ensures old(pending) == 0 ==> (sent.Failed? <==> !ok) && (sent.ToDevice? <==> ok)
      ensures sent.Failed? ==> View() == AfterFailure(old(View()), q)
      ensures sent.ToDevice? ==> sent.room == Room(q) && View() == AfterFailure(old(View()), q)
    {
      if pending > 0 {
        var out := CopyToOut(q.dstLen, pending);
        pending := pending - |out|;
        skipHw := true;
        if pending == 0 {
          offset := 0;
          Clear();
          return Skipped(Outcome(out, if ended then End else Success));
        }
        offset := offset + |out|;
        return Skipped(Outcome(out, Success));
      }
      var outSize := q.dstLen;
      var engaged := Engaged(q);
      if engaged {
        outSize := STORE_SIZE;
        pending := STORE_SIZE;
      }
      if q.isNew && q.compress {
        if engaged {
          Write(0, q.head);
        }
        outSize := outSize - |q.head|;
      }
      if outSize > MAX_SIZE {
        outSize := MAX_SIZE;
      }
      assert engaged ==> dst[..] == Head(q) + old(dst[|Head(q)|..]);
      if !ok {
        return Failed;
      }
      return ToDevice(outSize);
    }

    /** The device's write at its destination, behind the header. */
    method DeviceWrites(q: Request, r: Reply)
      requires Valid() && RequestOk(q) && Engaged(q) && Fits(q, r)
      modifies dst
      ensures dst[..] == old(dst[..|Head(q)|]) + r.bytes + old(dst[|Head(q)| + |r.bytes|..])
    {
      Write(|Head(q)|, r.bytes);
    }

    /** copy_from_hw: hand out what fits of the produced bytes and keep the rest. */
    method CopyFromHw(dstLen: nat, produced: nat, status: Status) returns (o: Outcome)
      requires Valid() && offset == 0 && produced <= STORE_SIZE && !status.Bad?
      modifies this, dst
      ensures Valid() && skipHw == old(skipHw)
      ensures var n := Min(produced, dstLen);
        && o.bytes == old(dst[..n]) && pending == produced - n
        && (n == produced ==> dst[..] == Zeros(STORE_SIZE) && offset == 0 && ended == old(ended) && o.status == status)
        && (n < produced ==>
              && dst[..] == old(dst[..]) && offset == n
              && ended == (status.End? || old(ended))
              && o.status == if status.End? then Again else status)
    {
      var out := CopyToOut(dstLen, produced);
      pending := produced - |out|;
      if pending == 0 {
        offset := 0;
        Clear();
        return Outcome(out, status);
      }
      offset := offset + |out|;
      if status.End? {
        ended := true;
        return Outcome(out, Again);
      }
      return Outcome(out, status);
    }

    /** One synchronous call: hisi_zip_comp_send then hisi_zip_comp_recv. */
    method Serve(q: Request, r: Reply) returns (o: Outcome)
      requires Valid() && BufOk(View()) && RequestOk(q) && Fits(q, r) && !skipHw
      modifies this, dst
      ensures Valid() && !skipHw
      ensures (View(), o) == Call(old(View()), q, r)
    {
      var sent := Send(q, true);
      if skipHw {
        skipHw := false;
        return sent.o;
      }
      var produced := |r.bytes| + |Head(q)|;
      if pending > 0 {
        DeviceWrites(q, r);
        assert dst[..] == Written(old(View()), q, r);
        if r.status.Bad? {
          return Outcome([], Bad);
        }
        o := CopyFromHw(q.dstLen, produced, r.status);
      } else {
        o := Outcome(Head(q) + r.bytes, r.status);
      }
    }
  }

  /** A first request for 100 bytes that the queue refuses, and the next call hands out 236 bytes nobody produced. */
  method BusyThenGarbage() returns (o: Outcome)
    ensures |o.bytes| == STORE_SIZE && o.status == Success
  {
    var c := new CompBuf();
    var sent := c.Send(Request(100, false, true, []), false);
    o := c.Serve(Request(300, false, true, []), Reply([], Success));
  }

  /** So does a first request for 100 bytes that the device answers with an error. */
  method ErrorThenGarbage() returns (error: Outcome, o: Outcome)
    ensures error == Outcome([], Bad) && |o.bytes| == STORE_SIZE && o.status == Success
  {
    var c := new CompBuf();
    error := c.Serve(Request(100, false, true, []), Reply([], Bad));
    o := c.Serve(Request(300, false, true, []), Reply([], Success));
  }

  /** The header is handed out once, in front of what the device makes of the first call. */
  method HeaderOnce(first: seq<Byte>, second: seq<Byte>) returns (a: Outcome, b: Outcome)
    requires |first| <= 100 && |second| <= 100
    ensures a == Outcome([0x78, 0x9c] + first, Success) && b == Outcome(second, End)
  {
    var c := new CompBuf();
    a := c.Serve(Request(1000, true, true, [0x78, 0x9c]), Reply(first, Success));
    b := c.Serve(Request(1000, true, false, [0x78, 0x9c]), Reply(second, End));
  }
}
