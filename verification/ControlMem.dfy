/** Memory access through control transfers of at most 64 bytes: Aml_Libusb_Ctrl_RdWr, which
    encodes addresses by shift and mask, and AmlUsbReadMemCtr, AmlUsbWriteMemCtr and
    AmlUsbCtrlWr, which store them little-endian and load two 16-bit halves. */
module ControlMem {
  import opened Bytes
  import opened Link

  function WriteRequest(addr: U32, chunk: seq<Byte>): Request {
    ControlOut(AM_REQ_WRITE_MEM, addr / 0x1_0000, addr % 0x1_0000, chunk)
  }

  function ReadRequest(addr: U32, n: nat): Request {
    ControlIn(AM_REQ_READ_MEM, addr / 0x1_0000, addr % 0x1_0000, n)
  }

  /** How many transfers of at most 64 bytes len bytes take. */
  function Chunks(len: nat): nat {
    (len + 63) / 64
  }

  function ChunkEnd(len: nat, k: nat): nat
    requires k < Chunks(len)
  {
    Min(64 * k + 64, len)
  }

  lemma ChunkStep(len: nat, k: nat)
    ensures k < Chunks(len) <==> 64 * k < len
    ensures 64 * k < len ==> ChunkEnd(len, k) == 64 * k + Min(len - 64 * k, 64)
  {
  }

  /** Reference: the transfers that write data from address addr on. */
  function WritePlan(addr: U32, data: seq<Byte>): (plan: seq<Request>)
    ensures |plan| == Chunks(|data|)
  {
    seq(Chunks(|data|), k requires 0 <= k < Chunks(|data|) =>
      WriteRequest(Next(addr, 64 * k), data[64 * k..ChunkEnd(|data|, k)]))
  }

  /** Reference: the transfers that read n bytes from address addr on. */
  function ReadPlan(addr: U32, n: nat): (plan: seq<Request>)
    ensures |plan| == Chunks(n)
  {
    seq(Chunks(n), k requires 0 <= k < Chunks(n) => ReadRequest(Next(addr, 64 * k), ChunkEnd(n, k) - 64 * k))
  }

  /** Storing an address little-endian and loading two 16-bit halves is shifting and masking. */
  lemma HalvesOfAddress(addr: U32)
    ensures LeValue(Le32(addr)[2..4]) == addr / 0x1_0000
    ensures LeValue(Le32(addr)[0..2]) == addr % 0x1_0000
  {
    var bs := Le32(addr);
    assert bs[2..4] == [bs[2], bs[3]] && bs[0..2] == [bs[0], bs[1]];
    LeValue2(bs[2], bs[3]);
    LeValue2(bs[0], bs[1]);
  }

  /** IOCTL_WRITE_MEM_Handler: four address bytes, then at most 64 bytes of data. inBuf is what
      lies in memory from in_buf on; a length of 3 wraps and reaches past its end. */
  method IoctlWriteMem(dev: Device, inBuf: seq<Byte>, inLen: U32) returns (ok: bool)
    requires dev.Valid() && (inLen > 2 ==> |inBuf| >= 4 + Min((inLen - 4) % WORD, 64))
    modifies dev
    ensures dev.Valid()
    ensures inLen <= 2 ==> !ok && dev.requests == old(dev.requests) && dev.state == old(dev.state)
    ensures forall addr: U32 | inLen > 2 && inBuf[..4] == Le32(addr) ::
              var req, reply := WriteRequest(addr, inBuf[4..4 + Min((inLen - 4) % WORD, 64)]), ReplyAt(dev.script, |old(dev.requests)|);
              && dev.requests == old(dev.requests) + [req]
              && dev.state == After(old(dev.state), req, reply)
              && ok == (Result(req, reply) >= 0)
  {
    hide After, Result;
    if inLen <= 2 {
      return false;
    }
    forall addr: U32 | inBuf[..4] == Le32(addr)
      ensures LeValue(inBuf[2..4]) == addr / 0x1_0000 && LeValue(inBuf[0..2]) == addr % 0x1_0000
    {
      HalvesOfAddress(addr);
      assert inBuf[2..4] == Le32(addr)[2..4] && inBuf[0..2] == Le32(addr)[0..2];
    }
    LeValueBound2(inBuf[2..4]);
    LeValueBound2(inBuf[0..2]);
    var len := Min((inLen - 4) % WORD, 64);
    var r, _ := dev.Transfer(ControlOut(AM_REQ_WRITE_MEM, LeValue(inBuf[2..4]), LeValue(inBuf[0..2]), inBuf[4..4 + len]));
    ok := r >= 0;
  }

  // ---- what a plan does ----

  /** Whose transfer the byte number o is, and how far into it. */
  function ChunkAt(o: nat): nat {
    o / 64
  }

  /** Byte number o got through, with the first k of the transfers. */
  predicate Through(script: seq<Reply>, i: nat, plan: seq<Request>, k: nat, o: nat) {
    ChunkAt(o) < k && ChunkAt(o) < |plan| && o % 64 < Moved(plan[ChunkAt(o)], ReplyAt(script, i + ChunkAt(o)))
  }

  lemma WritePlanAt(addr: U32, data: seq<Byte>, k: nat)
    requires k < Chunks(|data|)
    ensures WritePlan(addr, data)[k] == WriteRequest(Next(addr, 64 * k), data[64 * k..ChunkEnd(|data|, k)])
  {
  }

  /** The plans in numbers: as many transfers as there are 64-byte pieces, the last perhaps shorter,
      each with the two halves of its address. */
  lemma PlansInNumbers(addr: U32, data: seq<Byte>, n: nat, k: nat)
    ensures |data| <= 64 * |WritePlan(addr, data)| < |data| + 64 && n <= 64 * |ReadPlan(addr, n)| < n + 64
    ensures k < |WritePlan(addr, data)| ==>
      var a := (addr + 64 * k) % WORD;
      && 64 * k < |data|
      && WritePlan(addr, data)[k] == ControlOut(0x01, a / 0x1_0000, a % 0x1_0000, data[64 * k..Min(64 * k + 64, |data|)])
    ensures k < |ReadPlan(addr, n)| ==>
      var a := (addr + 64 * k) % WORD;
      ReadPlan(addr, n)[k] == ControlIn(0x02, a / 0x1_0000, a % 0x1_0000, Min(n - 64 * k, 64))
  {
    ChunkStep(|data|, k);
    ChunkStep(n, k);
  }

  /** Which bytes the next transfer adds to those that got through. */
  lemma ThroughStep(script: seq<Reply>, i: nat, plan: seq<Request>, k: nat, o: nat)
    requires k < |plan| && Moved(plan[k], ReplyAt(script, i + k)) <= 64
    ensures Through(script, i, plan, k + 1, o) <==>
      Through(script, i, plan, k, o) || 64 * k <= o < 64 * k + Moved(plan[k], ReplyAt(script, i + k))
    ensures Through(script, i, plan, k, o) ==> o < 64 * k
  {
    hide Moved, ReplyAt;
  }

  /** Whether address p lies among the n bytes from c beyond a. */
  lemma OffsetFurther(a: U32, c: nat, n: nat, p: U32)
    requires c + n <= WORD && c < WORD
    ensures Offset(Next(a, c), p) < n <==> c <= Offset(a, p) < c + n
    ensures c <= Offset(a, p) < c + n ==> Offset(Next(a, c), p) == Offset(a, p) - c
  {
  }

  /** One write transfer, byte by byte. */
  lemma WriteRequestAt(st: DeviceState, a: U32, chunk: seq<Byte>, reply: Reply, p: U32)
    requires |st.mem| == WORD && |chunk| <= 64
    ensures var req := WriteRequest(a, chunk);
            var st' := After(st, req, reply);
            && st'.stream == st.stream
            && st'.mem[p] == if Offset(a, p) < Moved(req, reply) then chunk[Offset(a, p)] else st.mem[p]
  {
    hide Offset, Store;
    var n := Moved(WriteRequest(a, chunk), reply);
    assert 0x1_0000 * (a / 0x1_0000) + a % 0x1_0000 == a;
    StoreAt(st.mem, a, chunk[..n], p);
  }

  /** Transfer number k of a write, byte by byte. */
  lemma WriteStep(st: DeviceState, addr: U32, data: seq<Byte>, k: nat, reply: Reply, p: U32)
    requires |st.mem| == WORD && |data| <= WORD && k < Chunks(|data|)
    ensures var req, o := WritePlan(addr, data)[k], Offset(addr, p);
            var st', moved := After(st, req, reply), Moved(req, reply);
            && 64 * k + moved <= |data| && moved <= 64 && st'.stream == st.stream
            && st'.mem[p] == if 64 * k <= o < 64 * k + moved then data[o] else st.mem[p]
  {
    hide Offset, Next, WritePlan, Chunks, ChunkEnd, After, WriteRequest;
    var c := 64 * k;
    ChunkStep(|data|, k);
    WritePlanAt(addr, data, k);
    var chunk := data[c..ChunkEnd(|data|, k)];
    MovedBound(Next(addr, c), chunk, reply);
    WriteRequestAt(st, Next(addr, c), chunk, reply, p);
    OffsetFurther(addr, c, Moved(WriteRequest(Next(addr, c), chunk), reply), p);
  }

  /** Memory after the first k transfers of a write, byte by byte: the bytes of data that got
      through are in their places, and every other byte is what it was. */
  lemma {:induction false} WrittenBytes(script: seq<Reply>, i: nat, st: DeviceState, addr: U32, data: seq<Byte>, k: nat, p: U32)
    requires |st.mem| == WORD && |data| <= WORD && k <= Chunks(|data|)
    ensures var st', o := Run(script, i, st, WritePlan(addr, data)[..k]), Offset(addr, p);
            && st'.stream == st.stream
            && st'.mem[p] == if o < |data| && Through(script, i, WritePlan(addr, data), k, o) then data[o] else st.mem[p]
    decreases k
  {
    hide After, Moved, Offset, Next, WritePlan, Chunks, ChunkEnd, ReplyAt, Through, WriteRequest, Run, Received;
    var plan, o := WritePlan(addr, data), Offset(addr, p);
    if k == 0 {
      assert plan[..0] == [];
      RunNothing(script, i, st);
      NoneThrough(script, i, plan, o);
    } else {
      var n := k - 1;
      WrittenBytes(script, i, st, addr, data, n, p);
      TakeOneMore(plan, n);
      RunSnoc(script, i, st, plan[..n], plan[n]);
      WriteStep(Run(script, i, st, plan[..n]), addr, data, n, ReplyAt(script, i + n), p);
      ThroughStep(script, i, plan, n, o);
    }
  }

  lemma NoneThrough(script: seq<Reply>, i: nat, plan: seq<Request>, o: nat)
    ensures !Through(script, i, plan, 0, o)
  {
  }

  lemma MovedBound(a: U32, chunk: seq<Byte>, reply: Reply)
    ensures Moved(WriteRequest(a, chunk), reply) <= |chunk|
  {
  }

  /** A write that was told of no failure leaves the flat copy, whatever was in memory before, if
      and only if none of its own transfers came up short. */
  lemma FlatCopyIffNoneShort(script: seq<Reply>, i: nat, stream: Stream, addr: U32, data: seq<Byte>)
    requires |data| <= WORD
    ensures (forall m: seq<Byte> :: |m| == WORD ==> Run(script, i, DeviceState(m, stream), WritePlan(addr, data)).mem == Store(m, addr, data))
            <==> NoneShort(script, i, WritePlan(addr, data))
  {
    hide Run, Store, Offset, Next, WritePlan, Chunks, ChunkEnd, ReplyAt, Received;
    var plan := WritePlan(addr, data);
    assert plan[..|plan|] == plan;
    if NoneShort(script, i, plan) {
      forall m: seq<Byte> | |m| == WORD
        ensures Run(script, i, DeviceState(m, stream), plan).mem == Store(m, addr, data)
      {
        WholeWrite(script, i, DeviceState(m, stream), addr, data);
      }
    } else {
      var k :| 0 <= k < |plan| && Moved(plan[k], ReplyAt(script, i + k)) != plan[k].Size();
      WritePlanAt(addr, data, k);
      ChunkStep(|data|, k);
      var o := 64 * k + Moved(plan[k], ReplyAt(script, i + k));
      var p := Next(addr, o);
      OffsetOfNext(addr, o);
      var other: Byte := if data[o] == 0 then 1 else 0;
      var m: seq<Byte> := seq(WORD, _ => other);
      WrittenBytes(script, i, DeviceState(m, stream), addr, data, |plan|, p);
      StoreAt(m, addr, data, p);
    }
  }

  /** A run taken for a success that copies nothing exists for any data: libusb reports each
      transfer as a success of no bytes. */
  lemma ShortRunSucceeds(addr: U32, data: seq<Byte>)
    requires data != []
    ensures var script := seq(Chunks(|data|), _ => Reply(0, 0, [], 0, 0));
            Succeeds(script, 0, WritePlan(addr, data)) && !NoneShort(script, 0, WritePlan(addr, data))
  {
    hide Next;
    ChunkStep(|data|, 0);
    assert WritePlan(addr, data)[0].Size() > 0;
  }

  lemma WholeWrite(script: seq<Reply>, i: nat, st: DeviceState, addr: U32, data: seq<Byte>)
    requires |st.mem| == WORD && |data| <= WORD && NoneShort(script, i, WritePlan(addr, data))
    ensures Run(script, i, st, WritePlan(addr, data)) == st.(mem := Store(st.mem, addr, data))
  {
    hide Run, Store, Offset, Next, WritePlan, Chunks, ChunkEnd, ReplyAt, Received;
    var plan := WritePlan(addr, data);
    var st' := Run(script, i, st, plan);
    assert plan[..|plan|] == plan;
    WrittenBytes(script, i, st, addr, data, |plan|, addr);
    forall p: U32
      ensures st'.mem[p] == Store(st.mem, addr, data)[p]
    {
      WrittenBytes(script, i, st, addr, data, |plan|, p);
      StoreAt(st.mem, addr, data, p);
      var o := Offset(addr, p);
      if o < |data| {
        var k := ChunkAt(o);
        ChunkStep(|data|, k);
        WritePlanAt(addr, data, k);
        assert plan[k].Size() == Moved(plan[k], ReplyAt(script, i + k));
      }
    }
    assert st'.mem == Store(st.mem, addr, data);
  }

  /** The buffer with data laid over it at the given place. */
  function Put(buf: seq<Byte>, at: nat, data: seq<Byte>): (after: seq<Byte>)
    requires at + |data| <= |buf|
    ensures |after| == |buf|
  {
    buf[..at] + data + buf[at + |data|..]
  }

  lemma PutAt(buf: seq<Byte>, at: nat, data: seq<Byte>, o: nat)
    requires at + |data| <= |buf| && o < |buf|
    ensures Put(buf, at, data)[o] == if at <= o < at + |data| then data[o - at] else buf[o]
  {
  }

  /** Transfer number k of a read: what arrives is device memory, and the device stays as it is. */
  lemma ReadStep(st: DeviceState, addr: U32, n: nat, k: nat, reply: Reply)
    requires |st.mem| == WORD && k < Chunks(n)
    ensures var req := ReadPlan(addr, n)[k];
            var moved := Moved(req, reply);
            && 64 * k + moved <= n && moved <= 64 && After(st, req, reply) == st
            && Payload(st, req, reply) == Load(st.mem, Next(addr, 64 * k), moved)
  {
    ChunkStep(n, k);
    var a := Next(addr, 64 * k);
    assert 0x1_0000 * (a / 0x1_0000) + a % 0x1_0000 == a;
  }

  /** Where the k-th transfer of a read puts what. */
  function ReadSize(script: seq<Reply>, i: nat, addr: U32, n: nat, k: nat): (moved: nat)
    requires k < Chunks(n)
    ensures moved <= 64 && 64 * k + moved <= n
  {
    ReadStep(DeviceState(seq(WORD, _ => 0), Idle), addr, n, k, ReplyAt(script, i + k));
    Moved(ReadPlan(addr, n)[k], ReplyAt(script, i + k))
  }

  /** The host's buffer after the first k transfers of a read: each has put what arrived in its
      place. */
  function Landed(script: seq<Reply>, i: nat, m: seq<Byte>, buf: seq<Byte>, addr: U32, n: nat, k: nat): (after: seq<Byte>)
    requires |m| == WORD && n <= |buf| && k <= Chunks(n)
    ensures |after| == |buf|
  {
    if k == 0 then buf
    else
      Put(Landed(script, i, m, buf, addr, n, k - 1), 64 * (k - 1),
          Load(m, Next(addr, 64 * (k - 1)), ReadSize(script, i, addr, n, k - 1)))
  }

  lemma LoadAt(m: seq<Byte>, addr: U32, c: nat, moved: nat, o: nat)
    requires |m| == WORD && c <= o < c + moved
    ensures Load(m, Next(addr, c), moved)[o - c] == m[Next(addr, o)]
  {
    NextTwice(addr, c, o - c);
  }

  /** Byte by byte: the buffer has device memory where something got through, and keeps its
      bytes elsewhere. */
  lemma {:induction false} LandedBytes(script: seq<Reply>, i: nat, m: seq<Byte>, buf: seq<Byte>, addr: U32, n: nat, k: nat, o: nat)
    requires |m| == WORD && n <= |buf| && k <= Chunks(n) && o < |buf|
    ensures Landed(script, i, m, buf, addr, n, k)[o] ==
      if Through(script, i, ReadPlan(addr, n), k, o) then m[Next(addr, o)] else buf[o]
    decreases k
  {
    hide Next, ReadPlan, Chunks, ReplyAt, Through, Moved, Put, Load;
    if k == 0 {
      NoneThrough(script, i, ReadPlan(addr, n), o);
    } else {
      var j := k - 1;
      var c, moved := 64 * j, ReadSize(script, i, addr, n, j);
      LandedBytes(script, i, m, buf, addr, n, j, o);
      assert Moved(ReadPlan(addr, n)[j], ReplyAt(script, i + j)) == moved;
      ThroughStep(script, i, ReadPlan(addr, n), j, o);
      PutAt(Landed(script, i, m, buf, addr, n, j), c, Load(m, Next(addr, c), moved), o);
      if c <= o < c + moved {
        LoadAt(m, addr, c, moved, o);
      }
    }
  }

  lemma WholeRead(script: seq<Reply>, i: nat, m: seq<Byte>, buf: seq<Byte>, addr: U32, n: nat)
    requires |m| == WORD && n <= |buf| && NoneShort(script, i, ReadPlan(addr, n))
    ensures Landed(script, i, m, buf, addr, n, Chunks(n)) == Load(m, addr, n) + buf[n..]
  {
    hide Next, ReadPlan, Chunks, ChunkEnd, ReplyAt, Landed;
    var plan, landed := ReadPlan(addr, n), Landed(script, i, m, buf, addr, n, Chunks(n));
    forall o | 0 <= o < |buf|
      ensures landed[o] == if o < n then m[Next(addr, o)] else buf[o]
    {
      LandedBytes(script, i, m, buf, addr, n, |plan|, o);
      ThroughInside(script, i, addr, n, |plan|, o);
      if o < n {
        var k := ChunkAt(o);
        ChunkStep(n, k);
        assert plan[k].Size() == Moved(plan[k], ReplyAt(script, i + k));
        ReadPlanSize(addr, n, k);
      }
    }
    assert landed == Load(m, addr, n) + buf[n..];
  }

  lemma ReadPlanSize(addr: U32, n: nat, k: nat)
    requires k < Chunks(n)
    ensures ReadPlan(addr, n)[k].Size() == ChunkEnd(n, k) - 64 * k
  {
  }

  /** Only bytes that were asked for get through. */
  lemma ThroughInside(script: seq<Reply>, i: nat, addr: U32, n: nat, k: nat, o: nat)
    requires k <= Chunks(n)
    ensures Through(script, i, ReadPlan(addr, n), k, o) ==> o < n
  {
    ChunkStep(n, ChunkAt(o));
  }

  /** A read that was told of no failure yields device memory, whatever is there and whatever was
      in the buffer, if and only if none of its own transfers came up short. */
  lemma ExactReadIffNoneShort(script: seq<Reply>, i: nat, addr: U32, n: nat)
    ensures (forall m: seq<Byte>, buf: seq<Byte> :: |m| == WORD && n <= |buf| ==>
               Landed(script, i, m, buf, addr, n, Chunks(n))[..n] == Load(m, addr, n))
            <==> NoneShort(script, i, ReadPlan(addr, n))
  {
    hide Next, ReadPlan, Chunks, ChunkEnd, ReplyAt, Landed;
    var plan := ReadPlan(addr, n);
    if NoneShort(script, i, plan) {
      forall m: seq<Byte>, buf: seq<Byte> | |m| == WORD && n <= |buf|
        ensures Landed(script, i, m, buf, addr, n, Chunks(n))[..n] == Load(m, addr, n)
      {
        WholeRead(script, i, m, buf, addr, n);
      }
    } else {
      var k :| 0 <= k < |plan| && Moved(plan[k], ReplyAt(script, i + k)) != plan[k].Size();
      var m: seq<Byte>, buf: seq<Byte> := seq(WORD, _ => 0), seq(n, _ => 1);
      ReadPlanSize(addr, n, k);
      ChunkStep(n, k);
      var o := 64 * k + Moved(plan[k], ReplyAt(script, i + k));
      LandedBytes(script, i, m, buf, addr, n, |plan|, o);
      assert Landed(script, i, m, buf, addr, n, Chunks(n))[..n][o] == 1 && Load(m, addr, n)[o] == 0;
    }
  }

  // ---- the host ----

  /** The first k transfers of the plan were made, none of them failed, and nothing else
      happened. */
  ghost predicate PlanSoFar(dev: Device, dev0: seq<Request>, st0: DeviceState, plan: seq<Request>, k: nat)
    requires |st0.mem| == WORD
    reads dev
  {
    && k <= |plan| && dev.requests == dev0 + plan[..k]
    && dev.state == Run(dev.script, |dev0|, st0, plan[..k]) && Succeeds(dev.script, |dev0|, plan[..k])
  }

  lemma PlanStarts(script: seq<Reply>, i: nat, st0: DeviceState, plan: seq<Request>)
    requires |st0.mem| == WORD
    ensures plan[..0] == [] && Run(script, i, st0, []) == st0 && Succeeds(script, i, plan[..0])
  {
  }

  lemma LogGoesOn(dev0: seq<Request>, plan: seq<Request>, k: nat)
    requires k < |plan|
    ensures dev0 + plan[..k] + [plan[k]] == dev0 + plan[..k + 1] && |dev0 + plan[..k]| == |dev0| + k
  {
  }

  lemma RunGoesOn(script: seq<Reply>, i: nat, st0: DeviceState, plan: seq<Request>, k: nat)
    requires |st0.mem| == WORD && k < |plan|
    ensures Run(script, i, st0, plan[..k + 1]) == After(Run(script, i, st0, plan[..k]), plan[k], ReplyAt(script, i + k))
  {
    hide After, ReplyAt, Run, Received;
    TakeOneMore(plan, k);
    RunSnoc(script, i, st0, plan[..k], plan[k]);
  }

  /** The next transfer decides whether the plan goes on. */
  lemma PlanGoesOn(script: seq<Reply>, i: nat, plan: seq<Request>, k: nat)
    requires k < |plan| && Succeeds(script, i, plan[..k])
    ensures if Result(plan[k], ReplyAt(script, i + k)) < 0
            then Issued(script, i, plan) == k + 1 && !Succeeds(script, i, plan)
            else Succeeds(script, i, plan[..k + 1])
  {
    hide Result, ReplyAt, Issued, Succeeds;
    IssuedAt(script, i, plan, k);
    if Result(plan[k], ReplyAt(script, i + k)) >= 0 {
      SucceedsOnceMore(script, i, plan, k);
    }
  }

  lemma PlanEnds(script: seq<Reply>, i: nat, plan: seq<Request>, k: nat)
    requires k == |plan| && Succeeds(script, i, plan[..k])
    ensures Issued(script, i, plan) == k && Succeeds(script, i, plan) && plan[..k] == plan
  {
    IssuedAt(script, i, plan, k);
  }

  /** Aml_Libusb_Ctrl_RdWr, host to device: the plan up to the first failure, and nothing else. */
  method CtrlWrite(dev: Device, addr: U32, buf: seq<Byte>) returns (ret: int)
    requires dev.Valid()
    modifies dev
    ensures var i, plan := |old(dev.requests)|, WritePlan(addr, buf);
            var issued := plan[..Issued(dev.script, i, plan)];
            && dev.Valid() && dev.requests == old(dev.requests) + issued
            && dev.state == Run(dev.script, i, old(dev.state), issued)
            && ret == if Succeeds(dev.script, i, plan) then 0 else -646
  {
    hide Next, Chunks, ChunkEnd, After, Payload, Result, Run, WritePlan, WriteRequest, Issued, Succeeds, Received;
    NextZero(addr);
    ChunkStep(|buf|, 0);
    ghost var i, st0, plan := |dev.requests|, dev.state, WritePlan(addr, buf);
    ghost var k := 0;
    var processed, at := 0, addr;
    PlanStarts(dev.script, i, st0, plan);
    while processed < |buf|
      invariant processed == Min(64 * k, |buf|) && k <= |plan| && dev.Valid()
      invariant processed < |buf| ==> at == Next(addr, processed)
      invariant PlanSoFar(dev, old(dev.requests), st0, plan, k)
    {
      ChunkStep(|buf|, k);
      ChunkStep(|buf|, k + 1);
      WritePlanAt(addr, buf, k);
      var chunk := Min(|buf| - processed, 64);
      var r, _ := dev.Transfer(WriteRequest(at, buf[processed..processed + chunk]));
      LogGoesOn(old(dev.requests), plan, k);
      RunGoesOn(dev.script, i, st0, plan, k);
      PlanGoesOn(dev.script, i, plan, k);
      k := k + 1;
      if r < 0 {
        return -646;
      }
      NextTwice(addr, processed, chunk);
      processed := processed + chunk;
      at := Next(at, chunk);
    }
    ChunkStep(|buf|, k);
    PlanEnds(dev.script, i, plan, k);
    return 0;
  }

  /** write_control_usb: the address as four little-endian bytes in front of the data. */
  method WriteControlUsb(dev: Device, addr: U32, chunk: seq<Byte>) returns (ok: bool)
    requires dev.Valid() && |chunk| <= 64
    modifies dev
    ensures dev.Valid()
    ensures var req, reply := WriteRequest(addr, chunk), ReplyAt(dev.script, |old(dev.requests)|);
            && dev.requests == old(dev.requests) + [req]
            && dev.state == After(old(dev.state), req, reply)
            && ok == (Result(req, reply) >= 0)
  {
    hide After, Result, WriteRequest;
    var inBuf := Le32(addr) + chunk;
    assert inBuf[..4] == Le32(addr) && inBuf[4..4 + |chunk|] == chunk;
    ok := IoctlWriteMem(dev, inBuf, |chunk| + 4);
  }

  /** AmlUsbWriteMemCtr over rw_ctrl_usb: the same transfers as CtrlWrite, with the same effect. */
  method WriteMemCtr(dev: Device, addr: U32, buf: seq<Byte>) returns (ret: int)
    requires dev.Valid()
    modifies dev
    ensures var i, plan := |old(dev.requests)|, WritePlan(addr, buf);
            var issued := plan[..Issued(dev.script, i, plan)];
            && dev.Valid() && dev.requests == old(dev.requests) + issued
            && dev.state == Run(dev.script, i, old(dev.state), issued)
            && ret == if Succeeds(dev.script, i, plan) then 1 else 0
  {
    hide Next, Chunks, ChunkEnd, After, Payload, Result, Run, WritePlan, WriteRequest, Issued, Succeeds, Received;
    NextZero(addr);
    ChunkStep(|buf|, 0);
    ghost var i, st0, plan := |dev.requests|, dev.state, WritePlan(addr, buf);
    ghost var k := 0;
    var remain, p, address := |buf|, 0, addr;
    PlanStarts(dev.script, i, st0, plan);
    while remain > 0
      invariant p + remain == |buf| && p == Min(64 * k, |buf|) && k <= |plan| && dev.Valid()
      invariant remain > 0 ==> address == Next(addr, p)
      invariant PlanSoFar(dev, old(dev.requests), st0, plan, k)
    {
      ChunkStep(|buf|, k);
      ChunkStep(|buf|, k + 1);
      WritePlanAt(addr, buf, k);
      var transferSize := Min(remain, 64);
      var ok := WriteControlUsb(dev, address, buf[p..p + transferSize]);
      LogGoesOn(old(dev.requests), plan, k);
      RunGoesOn(dev.script, i, st0, plan, k);
      PlanGoesOn(dev.script, i, plan, k);
      k := k + 1;
      if !ok {
        return 0;
      }
      NextTwice(addr, p, transferSize);
      address := Next(address, transferSize);
      p := p + transferSize;
      remain := remain - transferSize;
    }
    ChunkStep(|buf|, k);
    PlanEnds(dev.script, i, plan, k);
    return 1;
  }

  /** AmlUsbCtrlWr: one IOCTL_WRITE_MEM of the buffer, which has the address in front of the
      data; of more than 64 bytes of data, only the first 64 go out. */
  method AmlUsbCtrlWr(dev: Device, buffer: seq<Byte>, bufferLen: U32) returns (ret: int)
    requires dev.Valid() && (bufferLen > 2 ==> |buffer| >= 4 + Min((bufferLen - 4) % WORD, 64))
    modifies dev
    ensures dev.Valid()
    ensures bufferLen <= 2 ==> ret == -2 && dev.requests == old(dev.requests) && dev.state == old(dev.state)
    ensures forall addr: U32 | bufferLen > 2 && buffer[..4] == Le32(addr) ::
              var req, reply := WriteRequest(addr, buffer[4..4 + Min((bufferLen - 4) % WORD, 64)]), ReplyAt(dev.script, |old(dev.requests)|);
              && dev.requests == old(dev.requests) + [req]
              && dev.state == After(old(dev.state), req, reply)
              && ret == if Result(req, reply) >= 0 then 0 else -2
  {
    hide After, Result, WriteRequest, Le32;
    var ok := IoctlWriteMem(dev, buffer, bufferLen);
    ret := if ok then 0 else -2;
  }

  /** Aml_Libusb_Ctrl_RdWr, device to host: the plan up to the first failure; what arrived is in
      its place in the buffer. */
  method CtrlRead(dev: Device, addr: U32, buf: array<Byte>, len: nat) returns (ret: int)
    requires dev.Valid() && len <= buf.Length
    modifies dev, buf
    ensures var i, plan := |old(dev.requests)|, ReadPlan(addr, len);
            var n := Issued(dev.script, i, plan);
            && dev.Valid() && dev.requests == old(dev.requests) + plan[..n] && dev.state == old(dev.state)
            && buf[..] == Landed(dev.script, i, dev.state.mem, old(buf[..]), addr, len, n)
            && ret == if Succeeds(dev.script, i, plan) then 0 else -646
  {
    hide Next, Chunks, ChunkEnd, After, Payload, Result, ReadPlan, ReadRequest, Issued, Succeeds, ReadSize, Load, Put;
    NextZero(addr);
    ChunkStep(len, 0);
    ghost var i, st0, plan, buf0 := |dev.requests|, dev.state, ReadPlan(addr, len), buf[..];
    ghost var k := 0;
    var processed, at := 0, addr;
    PlanStarts(dev.script, i, st0, plan);
    while processed < len
      invariant processed == Min(64 * k, len) && k <= |plan| && dev.state == st0
      invariant processed < len ==> at == Next(addr, processed)
      invariant dev.requests == old(dev.requests) + plan[..k] && Succeeds(dev.script, i, plan[..k])
      invariant buf[..] == Landed(dev.script, i, st0.mem, buf0, addr, len, k)
    {
      ChunkStep(len, k);
      ChunkStep(len, k + 1);
      ReadPlanAt(addr, len, k);
      var chunk := Min(len - processed, 64);
      ReadStep(st0, addr, len, k, ReplyAt(dev.script, i + k));
      ReadSizeIs(dev.script, i, addr, len, k);
      var r, data := dev.Transfer(ReadRequest(at, chunk));
      PutIn(buf, processed, data);
      LogGoesOn(old(dev.requests), plan, k);
      PlanGoesOn(dev.script, i, plan, k);
      k := k + 1;
      if r < 0 {
        return -646;
      }
      NextTwice(addr, processed, chunk);
      processed := processed + chunk;
      at := Next(at, chunk);
    }
    ChunkStep(len, k);
    PlanEnds(dev.script, i, plan, k);
    return 0;
  }

  lemma ReadPlanAt(addr: U32, n: nat, k: nat)
    requires k < Chunks(n)
    ensures ReadPlan(addr, n)[k] == ReadRequest(Next(addr, 64 * k), ChunkEnd(n, k) - 64 * k)
  {
  }

  lemma ReadSizeIs(script: seq<Reply>, i: nat, addr: U32, n: nat, k: nat)
    requires k < Chunks(n)
    ensures ReadSize(script, i, addr, n, k) == Moved(ReadPlan(addr, n)[k], ReplyAt(script, i + k))
  {
  }

  /** libusb stores what arrived into a part of the buffer. */
  method PutIn(buf: array<Byte>, at: nat, data: seq<Byte>)
    requires at + |data| <= buf.Length
    modifies buf
    ensures buf[..] == Put(old(buf[..]), at, data)
  {
    ghost var was := buf[..];
    Deposit(buf, at, data);
    assert buf[..] == buf[..at + |data|] + buf[at + |data|..];
    assert was[at + |data|..] == old(buf[at + |data|..]) && was[..at] == old(buf[..at]);
  }

  /** IOCTL_READ_MEM_Handler behind read_control_usb: the address as four little-endian bytes. */
  method ReadControlUsb(dev: Device, addr: U32, outLen: nat) returns (ok: bool, data: seq<Byte>)
    requires dev.Valid()
    modifies dev
    ensures dev.Valid()
    ensures outLen == 0 ==> !ok && data == [] && dev.requests == old(dev.requests) && dev.state == old(dev.state)
    ensures outLen > 0 ==>
            var req, reply := ReadRequest(addr, Min(outLen, 64)), ReplyAt(dev.script, |old(dev.requests)|);
            && dev.requests == old(dev.requests) + [req]
            && dev.state == After(old(dev.state), req, reply) && data == Payload(old(dev.state), req, reply)
            && ok == (Result(req, reply) >= 0)
  {
    hide After, Payload, Result;
    if outLen == 0 {
      return false, [];
    }
    var inBuf := Le32(addr);
    HalvesOfAddress(addr);
    var r;
    r, data := dev.Transfer(ControlIn(AM_REQ_READ_MEM, LeValue(inBuf[2..4]), LeValue(inBuf[0..2]), Min(outLen, 64)));
    ok := r >= 0;
  }

  /** AmlUsbReadMemCtr: the same transfers as CtrlRead, with the same effect; dataSize is
      *pDataSize, the bytes before the transfer that failed. */
  method ReadMemCtr(dev: Device, addr: U32, buf: array<Byte>, len: nat) returns (ret: int, dataSize: nat)
    requires dev.Valid() && len <= buf.Length
    modifies dev, buf
    ensures var i, plan := |old(dev.requests)|, ReadPlan(addr, len);
            var n := Issued(dev.script, i, plan);
            && dev.Valid() && dev.requests == old(dev.requests) + plan[..n] && dev.state == old(dev.state)
            && buf[..] == Landed(dev.script, i, dev.state.mem, old(buf[..]), addr, len, n)
            && ret == (if Succeeds(dev.script, i, plan) then 0 else -1)
            && dataSize == if ret == 0 then len else 64 * (n - 1)
  {
    hide Next, Chunks, ChunkEnd, After, Payload, Result, ReadPlan, ReadRequest, Issued, Succeeds, ReadSize, Load, Put;
    NextZero(addr);
    ChunkStep(len, 0);
    ghost var i, st0, plan, buf0 := |dev.requests|, dev.state, ReadPlan(addr, len), buf[..];
    ghost var k := 0;
    var remain, p, address := len, 0, addr;
    PlanStarts(dev.script, i, st0, plan);
    while remain > 0
      invariant p + remain == len && p == Min(64 * k, len) && k <= |plan| && dev.state == st0
      invariant remain > 0 ==> address == Next(addr, p)
      invariant dev.requests == old(dev.requests) + plan[..k] && Succeeds(dev.script, i, plan[..k])
      invariant buf[..] == Landed(dev.script, i, st0.mem, buf0, addr, len, k)
    {
      ChunkStep(len, k);
      ChunkStep(len, k + 1);
      ReadPlanAt(addr, len, k);
      var transferSize := Min(remain, 64);
      ReadStep(st0, addr, len, k, ReplyAt(dev.script, i + k));
      ReadSizeIs(dev.script, i, addr, len, k);
      var ok, data := ReadControlUsb(dev, address, transferSize);
      PutIn(buf, p, data);
      LogGoesOn(old(dev.requests), plan, k);
      PlanGoesOn(dev.script, i, plan, k);
      k := k + 1;
      if !ok {
        return -1, p;
      }
      NextTwice(addr, p, transferSize);
      address := Next(address, transferSize);
      p := p + transferSize;
      remain := remain - transferSize;
    }
    ChunkStep(len, k);
    PlanEnds(dev.script, i, plan, k);
    return 0, p;
  }

  // ---- round trip ----

  /** For a single transfer: a write taken for a success stores its whole chunk, whatever was in
      memory, if and only if it was not cut short. */
  lemma ShortControlWriteLosesData(addr: U32, chunk: seq<Byte>, reply: Reply)
    requires |chunk| <= 64
    ensures var req := WriteRequest(addr, chunk);
            (forall st: DeviceState :: |st.mem| == WORD ==> After(st, req, reply).mem == Store(st.mem, addr, chunk))
            <==> Moved(req, reply) == |chunk|
  {
    var req := WriteRequest(addr, chunk);
    var n := Moved(req, reply);
    PrefixStoreIsExact(addr, chunk, n);
    if n < |chunk| {
      var m: seq<Byte> :| |m| == WORD && Store(m, addr, chunk[..n]) != Store(m, addr, chunk);
      assert After(DeviceState(m, Idle), req, reply).mem != Store(m, addr, chunk);
    }
  }

  /** What a read of n bytes from address addr on leaves in the buffer, after a write of data to
      the same address; the write's transfers start at number i, the read's at number j. */
  function ReadBack(script: seq<Reply>, i: nat, j: nat, st: DeviceState, buf: seq<Byte>, addr: U32, data: seq<Byte>): (got: seq<Byte>)
    requires |st.mem| == WORD && |data| <= |buf|
  {
    Landed(script, j, Run(script, i, st, WritePlan(addr, data)).mem, buf, addr, |data|, Chunks(|data|))[..|data|]
  }

  /** Writing data and reading it back is the identity, whatever was in memory and in the buffer,
      if and only if none of the transfers of either came up short. */
  lemma ControlRoundTrip(script: seq<Reply>, i: nat, j: nat, stream: Stream, addr: U32, data: seq<Byte>)
    requires |data| <= WORD
    ensures (forall m: seq<Byte>, buf: seq<Byte> :: |m| == WORD && |data| <= |buf| ==>
               ReadBack(script, i, j, DeviceState(m, stream), buf, addr, data) == data)
            <==> NoneShort(script, i, WritePlan(addr, data)) && NoneShort(script, j, ReadPlan(addr, |data|))
  {
    hide Next, WritePlan, ReadPlan, Chunks, ChunkEnd, ReplyAt, Landed, Run, Store, Offset, Moved, Received;
    var w, r := WritePlan(addr, data), ReadPlan(addr, |data|);
    if NoneShort(script, i, w) && NoneShort(script, j, r) {
      forall m: seq<Byte>, buf: seq<Byte> | |m| == WORD && |data| <= |buf|
        ensures ReadBack(script, i, j, DeviceState(m, stream), buf, addr, data) == data
      {
        WholeWrite(script, i, DeviceState(m, stream), addr, data);
        WholeRead(script, j, Store(m, addr, data), buf, addr, |data|);
        LoadAfterStore(m, addr, data);
      }
    } else {
      var o := SomethingLost(script, i, j, addr, data);
      var other: Byte := if data[o] == 0 then 1 else 0;
      var m: seq<Byte>, buf: seq<Byte> := seq(WORD, _ => other), seq(|data|, _ => other);
      var st' := Run(script, i, DeviceState(m, stream), w);
      assert w[..|w|] == w;
      OffsetOfNext(addr, o);
      WrittenBytes(script, i, DeviceState(m, stream), addr, data, |w|, Next(addr, o));
      LandedBytes(script, j, st'.mem, buf, addr, |data|, |r|, o);
      assert ReadBack(script, i, j, DeviceState(m, stream), buf, addr, data)[o] == other;
    }
  }

  /** A byte that a short transfer of the write or the read lost. */
  lemma SomethingLost(script: seq<Reply>, i: nat, j: nat, addr: U32, data: seq<Byte>) returns (o: nat)
    requires !NoneShort(script, i, WritePlan(addr, data)) || !NoneShort(script, j, ReadPlan(addr, |data|))
    ensures o < |data|
    ensures !Through(script, i, WritePlan(addr, data), Chunks(|data|), o) || !Through(script, j, ReadPlan(addr, |data|), Chunks(|data|), o)
  {
    hide Next, WritePlan, ReadPlan, Chunks, ChunkEnd, ReplyAt;
    var w, r := WritePlan(addr, data), ReadPlan(addr, |data|);
    if !NoneShort(script, i, w) {
      var k :| 0 <= k < |w| && Moved(w[k], ReplyAt(script, i + k)) != w[k].Size();
      WritePlanAt(addr, data, k);
      ChunkStep(|data|, k);
      o := 64 * k + Moved(w[k], ReplyAt(script, i + k));
    } else {
      var k :| 0 <= k < |r| && Moved(r[k], ReplyAt(script, j + k)) != r[k].Size();
      ReadPlanAt(addr, |data|, k);
      ChunkStep(|data|, k);
      o := 64 * k + Moved(r[k], ReplyAt(script, j + k));
    }
  }

  /** In any run, whatever failed or came up short, a write changes no byte outside its range. */
  lemma ControlWriteFrames(script: seq<Reply>, i: nat, st: DeviceState, addr: U32, data: seq<Byte>, k: nat, p: U32)
    requires |st.mem| == WORD && |data| <= WORD && k <= Chunks(|data|) && Offset(addr, p) >= |data|
    ensures Run(script, i, st, WritePlan(addr, data)[..k]).mem[p] == st.mem[p]
  {
    WrittenBytes(script, i, st, addr, data, k, p);
  }
}
