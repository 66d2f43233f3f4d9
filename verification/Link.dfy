/** The USB link and the device behind it. The device is any script: one reply for every
    transfer the host makes, each free to succeed, come up short, or fail; past the end of the
    script every transfer fails. Request number i is answered by reply number i. */
module Link {
  import opened Bytes

  // ---- requests ----

  const AM_REQ_WRITE_MEM := 0x01
  const AM_REQ_READ_MEM := 0x02
  const AM_REQ_WR_LARGE_MEM := 0x11
  const AM_REQ_RD_LARGE_MEM := 0x12
  const AM_REQ_TPL_CMD := 0x30
  const AM_REQ_TPL_STAT := 0x31
  const AM_REQ_WRITE_MEDIA := 0x32
  const AM_REQ_BULKCMD := 0x34
  const AM_REQ_START := 0x50
  const AM_REQ_CMD4 := 0x60

  /** One call into libusb. */
  datatype Request =
    | ControlOut(request: int, value: U16, index: U16, data: seq<Byte>)
    | ControlIn(request: int, value: U16, index: U16, size: nat)
    | BulkOut(data: seq<Byte>)
    | BulkIn(size: nat)
  {
    function Size(): nat {
      match this
      case ControlOut(_, _, _, data) => |data|
      case ControlIn(_, _, _, size) => size
      case BulkOut(data) => |data|
      case BulkIn(size) => size
    }
  }

  // ---- replies ----

  const LIBUSB_ERROR_TIMEOUT := -7

  /** What libusb and the device make of one transfer: libusb's code, the bytes that got
      through, the bytes an input transfer carries when they are not read from device memory,
      and the milliseconds that pass during the transfer and beyond the next sleep. */
  datatype Reply = Reply(code: int, count: nat, data: seq<Byte>, elapsed: nat, oversleep: nat)

  const GONE := Reply(-4, 0, [], 0, 0)

  function ReplyAt(script: seq<Reply>, i: nat): Reply {
    if i < |script| then script[i] else GONE
  }

  /** compat_err: minus an errno, for any code but success; libusb_to_errno knows no errno 0
      for a failure. */
  function CompatErr(code: int): (e: int)
    ensures e < 0
  {
    match code
    case -1 => -5
    case -2 => -22
    case -3 => -13
    case -4 => -6
    case -5 => -2
    case -6 => -16
    case -7 => -110
    case -8 => -75
    case -9 => -32
    case -10 => -4
    case -11 => -12
    case -12 => -38
    case _ => -34
  }

  /** usb_bulk_io and usb_control_msg: what the host is told, a byte count or an error. A bulk
      transfer that timed out after moving some data counts as a short success. */
  function Result(req: Request, reply: Reply): (r: int)
    ensures r <= req.Size()
  {
    var moved := Min(reply.count, req.Size());
    match req
    case BulkOut(_) => if reply.code == 0 || (reply.code == LIBUSB_ERROR_TIMEOUT && moved > 0) then moved else CompatErr(reply.code)
    case BulkIn(_) => if reply.code == 0 || (reply.code == LIBUSB_ERROR_TIMEOUT && moved > 0) then moved else CompatErr(reply.code)
    case _ => if reply.code >= 0 then moved else CompatErr(reply.code)
  }

  // ---- device memory ----

  /** The address n bytes on: the address space is 32 bits wide and wraps. */
  function Next(a: U32, n: nat): U32 {
    (a + n) % WORD
  }

  /** Bytes written one after the other, starting at address a. */
  function Store(m: seq<Byte>, a: U32, data: seq<Byte>): (m': seq<Byte>)
    requires |m| == WORD
    ensures |m'| == WORD
    decreases |data|
  {
    if data == [] then m else Store(m[a := data[0]], Next(a, 1), data[1..])
  }

  /** n bytes read from address a on. */
  function Load(m: seq<Byte>, a: U32, n: nat): (data: seq<Byte>)
    requires |m| == WORD
    ensures |data| == n
  {
    seq(n, i requires 0 <= i < n => m[Next(a, i)])
  }

  /** How far address p lies beyond a. */
  function Offset(a: U32, p: U32): U32 {
    (p - a) % WORD
  }

  lemma NextZero(a: U32)
    ensures Next(a, 0) == a
  {
  }

  lemma OffsetStep(a: U32, p: U32)
    ensures p == a ==> Offset(a, p) == 0 && Offset(Next(a, 1), p) == WORD - 1
    ensures p != a ==> Offset(a, p) > 0 && Offset(Next(a, 1), p) == Offset(a, p) - 1
  {
  }

  lemma OffsetOfNext(a: U32, n: nat)
    requires n < WORD
    ensures Offset(a, Next(a, n)) == n
  {
  }

  lemma NextTwice(a: U32, m: nat, n: nat)
    ensures Next(Next(a, m), n) == Next(a, m + n)
  {
    WrapAdd(a + m, n);
  }

  /** Two stores in a row, the second where the first ended, are one store. */
  lemma {:induction false} StoreSplits(m: seq<Byte>, a: U32, x: seq<Byte>, y: seq<Byte>)
    requires |m| == WORD
    ensures Store(m, a, x + y) == Store(Store(m, a, x), Next(a, |x|), y)
    decreases |x|
  {
    if x == [] {
      assert x + y == y;
    } else {
      assert (x + y)[1..] == x[1..] + y;
      NextTwice(a, 1, |x| - 1);
      StoreSplits(m[a := x[0]], Next(a, 1), x[1..], y);
    }
  }

  /** Byte by byte: a store of at most the whole space puts data[i] at address a + i and leaves
      every other address alone. */
  lemma {:induction false} StoreAt(m: seq<Byte>, a: U32, data: seq<Byte>, p: U32)
    requires |m| == WORD && |data| <= WORD
    ensures Store(m, a, data)[p] == if Offset(a, p) < |data| then data[Offset(a, p)] else m[p]
    decreases |data|
  {
    hide Next, Offset;
    if data != [] {
      OffsetStep(a, p);
      StoreAt(m[a := data[0]], Next(a, 1), data[1..], p);
    }
  }

  /** What was stored is what is loaded. */
  lemma LoadAfterStore(m: seq<Byte>, a: U32, data: seq<Byte>)
    requires |m| == WORD && |data| <= WORD
    ensures Load(Store(m, a, data), a, |data|) == data
  {
    hide Next, Offset, Store;
    forall i | 0 <= i < |data|
      ensures Load(Store(m, a, data), a, |data|)[i] == data[i]
    {
      StoreAt(m, a, data, Next(a, i));
      OffsetOfNext(a, i);
    }
  }

  /** Storing only a prefix leaves the same memory as storing everything, whatever was there
      before, only if the prefix is everything. */
  lemma PrefixStoreIsExact(a: U32, data: seq<Byte>, k: nat)
    requires k <= |data| <= WORD
    ensures (forall m: seq<Byte> :: |m| == WORD ==> Store(m, a, data[..k]) == Store(m, a, data)) <==> k == |data|
  {
    hide Store, Next, Offset;
    if k == |data| {
      assert data[..k] == data;
    } else {
      var other: Byte := if data[k] == 0 then 1 else 0;
      var m: seq<Byte> := seq(WORD, _ => other);
      var p := Next(a, k);
      OffsetOfNext(a, k);
      StoreAt(m, a, data, p);
      StoreAt(m, a, data[..k], p);
      assert Store(m, a, data[..k])[p] != Store(m, a, data)[p];
    }
  }

  lemma LoadSplits(m: seq<Byte>, a: U32, x: nat, y: nat)
    requires |m| == WORD
    ensures Load(m, a, x + y) == Load(m, a, x) + Load(m, Next(a, x), y)
  {
    forall i | 0 <= i < y
      ensures Load(m, a, x + y)[x + i] == Load(m, Next(a, x), y)[i]
    {
      NextTwice(a, x, i);
    }
  }

  // ---- the device ----

  /** A large-memory session: where the next bulk byte goes or comes from, and how many of the
      announced bytes are left. */
  datatype Stream = Idle | Filling(at: U32, left: nat) | Draining(at: U32, left: nat)

  {
    /** Nothing is open, or all that was announced has passed. */
    predicate Spent() {
      Idle? || left == 0
    }
  }

  datatype DeviceState = DeviceState(mem: seq<Byte>, stream: Stream)

  function Moved(req: Request, reply: Reply): nat {
    Min(reply.count, req.Size())
  }

  /** What the host takes for the length is what was moved. */
  lemma ResultIsMoved(req: Request, reply: Reply)
    requires Result(req, reply) >= 0
    ensures Result(req, reply) == Moved(req, reply)
  {
  }

  /** The first n bytes of bs, with zeros for what is missing. */
  function Padded(bs: seq<Byte>, n: nat): (p: seq<Byte>)
    ensures |p| == n
  {
    if |bs| >= n then bs[..n] else bs + Zeros(n - |bs|)
  }

  /** Padding with zeros adds no word without zeros. */
  lemma StartsWith(data: seq<Byte>, n: nat, word: seq<Byte>)
    requires |word| <= n && forall k :: 0 <= k < |word| ==> word[k] != 0
    ensures word <= Padded(data, n) <==> word <= data
  {
    var padded := Padded(data, n);
    assert |data| < |word| ==> padded[|data|] == 0;
    if word <= padded {
      assert data[..|word|] == padded[..|word|] == word;
    }
  }

  /** The 32-bit fields of a large-memory header. */
  function Word(bs: seq<Byte>, at: nat): U32
    requires at + 4 <= |bs|
  {
    LeValue(bs[at..at + 4]) % WORD
  }

  lemma WordIs(bs: seq<Byte>, at: nat)
    requires at + 4 <= |bs|
    ensures Word(bs, at) ==
      bs[at] as int + 0x100 * bs[at + 1] as int + 0x1_0000 * bs[at + 2] as int + 0x100_0000 * bs[at + 3] as int
  {
    LeValue4(bs[at..at + 4]);
  }

  /** The bytes an input transfer puts into the host's buffer. */
  function Payload(st: DeviceState, req: Request, reply: Reply): (data: seq<Byte>)
    requires |st.mem| == WORD
    ensures |data| == if req.ControlIn? || req.BulkIn? then Moved(req, reply) else 0
  {
    var n := Moved(req, reply);
    match req
    case ControlIn(request, value, index, _) =>
      if request == AM_REQ_READ_MEM then Load(st.mem, 0x1_0000 * value + index, n) else Padded(reply.data, n)
    case BulkIn(_) =>
      if st.stream.Draining? then
        var k := Min(n, st.stream.left);
        Load(st.mem, st.stream.at, k) + Padded(reply.data, n - k)
      else Padded(reply.data, n)
    case _ => []
  }

  /** The device after a transfer. Bytes that got through count whatever the host is told; a
      large-memory header is heard if all of it got through. */
  function After(st: DeviceState, req: Request, reply: Reply): (st': DeviceState)
    requires |st.mem| == WORD
    ensures |st'.mem| == WORD
  {
    var n := Moved(req, reply);
    match req
    case ControlOut(request, value, index, data) =>
      if request == AM_REQ_WRITE_MEM then
        st.(mem := Store(st.mem, 0x1_0000 * value + index, data[..n]))
      else if request == AM_REQ_WR_LARGE_MEM && n == |data| == 16 then
        st.(stream := Filling(Word(data, 0), Word(data, 4)))
      else if request == AM_REQ_RD_LARGE_MEM && n == |data| == 16 then
        st.(stream := Draining(Word(data, 0), Word(data, 4)))
      else
        st
    case ControlIn(_, _, _, _) => st
    case BulkOut(data) =>
      if st.stream.Filling? then
        var k := Min(n, st.stream.left);
        st.(mem := Store(st.mem, st.stream.at, data[..k]),
            stream := Filling(Next(st.stream.at, k), st.stream.left - k))
      else st
    case BulkIn(_) =>
      if st.stream.Draining? then
        var k := Min(n, st.stream.left);
        st.(stream := Draining(Next(st.stream.at, k), st.stream.left - k))
      else st
  }

  class Device {
    const script: seq<Reply>
    var requests: seq<Request>
    var state: DeviceState
    var clock: int  // GetTickCount

    constructor (script: seq<Reply>, mem: seq<Byte>)
      requires |mem| == WORD
      ensures Valid() && this.script == script && requests == [] && state == DeviceState(mem, Idle)
    {
      this.script, requests, state, clock := script, [], DeviceState(mem, Idle), 0;
    }

    ghost predicate Valid()
      reads this
    {
      |state.mem| == WORD
    }

    /** One transfer: what the host is told, and the bytes that arrived. */
    method Transfer(req: Request) returns (r: int, data: seq<Byte>)
      requires Valid()
      modifies this
      ensures Valid() && requests == old(requests) + [req]
      ensures var reply := ReplyAt(script, |old(requests)|);
              && r == Result(req, reply) && data == Payload(old(state), req, reply)
              && state == After(old(state), req, reply) && clock == old(clock) + reply.elapsed
    {
      var reply := ReplyAt(script, |requests|);
      r, data := Result(req, reply), Payload(state, req, reply);
      state := After(state, req, reply);
      requests, clock := requests + [req], clock + reply.elapsed;
    }

    /** usleep: lasts at least as long as asked. */
    method Sleep(ms: nat)
      modifies this`clock
      ensures clock == old(clock) + ms + ReplyAt(script, |requests|).oversleep
    {
      clock := clock + ms + ReplyAt(script, |requests|).oversleep;
    }
  }

  /** libusb stores the bytes that arrived at the front of the given part of the buffer. */
  method Deposit(buf: array<Byte>, at: nat, data: seq<Byte>)
    requires at + |data| <= buf.Length
    modifies buf
    ensures buf[..at + |data|] == old(buf[..at]) + data
    ensures buf[at + |data|..] == old(buf[at + |data|..])
  {
    forall i | 0 <= i < |data| {
      buf[at + i] := data[i];
    }
  }

  // ---- runs ----

  /** The device after the given transfers, the first of which is number i of the script. */
  function Run(script: seq<Reply>, i: nat, st: DeviceState, reqs: seq<Request>): (st': DeviceState)
    requires |st.mem| == WORD
    ensures |st'.mem| == WORD
  {
    if reqs == [] then st
    else
      var n := |reqs| - 1;
      After(Run(script, i, st, reqs[..n]), reqs[n], ReplyAt(script, i + n))
  }

  /** All the bytes these transfers put into host buffers, in order. */
  function Received(script: seq<Reply>, i: nat, st: DeviceState, reqs: seq<Request>): seq<Byte>
    requires |st.mem| == WORD
  {
    if reqs == [] then []
    else
      var n := |reqs| - 1;
      Received(script, i, st, reqs[..n]) + Payload(Run(script, i, st, reqs[..n]), reqs[n], ReplyAt(script, i + n))
  }

  lemma RunNothing(script: seq<Reply>, i: nat, st: DeviceState)
    requires |st.mem| == WORD
    ensures Run(script, i, st, []) == st && Received(script, i, st, []) == []
  {
  }

  lemma RunSnoc(script: seq<Reply>, i: nat, st: DeviceState, reqs: seq<Request>, req: Request)
    requires |st.mem| == WORD
    ensures var before, reply := Run(script, i, st, reqs), ReplyAt(script, i + |reqs|);
            && Run(script, i, st, reqs + [req]) == After(before, req, reply)
            && Received(script, i, st, reqs + [req]) == Received(script, i, st, reqs) + Payload(before, req, reply)
  {
    hide After, Payload, ReplyAt;
    assert (reqs + [req])[..|reqs|] == reqs;
  }

  lemma {:induction false} RunSplits(script: seq<Reply>, i: nat, st: DeviceState, a: seq<Request>, b: seq<Request>)
    requires |st.mem| == WORD
    ensures var mid := Run(script, i, st, a);
            && Run(script, i, st, a + b) == Run(script, i + |a|, mid, b)
            && Received(script, i, st, a + b) == Received(script, i, st, a) + Received(script, i + |a|, mid, b)
    decreases |b|
  {
    hide After, Payload, ReplyAt, Run, Received;
    if b == [] {
      assert a + b == a;
      RunNothing(script, i + |a|, Run(script, i, st, a));
    } else {
      var n := |b| - 1;
      RunSplits(script, i, st, a, b[..n]);
      assert a + b == (a + b[..n]) + [b[n]] && b == b[..n] + [b[n]];
      RunSnoc(script, i, st, a + b[..n], b[n]);
      RunSnoc(script, i + |a|, Run(script, i, st, a), b[..n], b[n]);
    }
  }

  /** Since the log stood at dev0 and the device at st0, exactly these transfers were made. */
  ghost predicate Made(dev: Device, dev0: seq<Request>, st0: DeviceState, reqs: seq<Request>)
    requires |st0.mem| == WORD
    reads dev
  {
    dev.requests == dev0 + reqs && dev.state == Run(dev.script, |dev0|, st0, reqs)
  }

  lemma MadeLog(dev: Device, dev0: seq<Request>, st0: DeviceState, log: seq<Request>)
    requires |st0.mem| == WORD && Made(dev, dev0, st0, log)
    ensures |dev.requests| == |dev0| + |log| && dev.requests == dev0 + log && dev.state == Run(dev.script, |dev0|, st0, log)
  {
  }

  lemma LogMade(dev: Device, dev0: seq<Request>, st0: DeviceState, log: seq<Request>)
    requires |st0.mem| == WORD && dev.requests == dev0 + log && dev.state == Run(dev.script, |dev0|, st0, log)
    ensures Made(dev, dev0, st0, log)
  {
  }

  /** Two stretches of a run, one after the other. */
  lemma MadeInTurn(dev: Device, dev0: seq<Request>, st0: DeviceState, a: seq<Request>, mid: seq<Request>, st1: DeviceState, b: seq<Request>)
    requires |st0.mem| == WORD && mid == dev0 + a && st1 == Run(dev.script, |dev0|, st0, a) && Made(dev, mid, st1, b)
    ensures Made(dev, dev0, st0, a + b)
  {
    hide Run, Received;
    RunInTurn(dev.script, |dev0|, |mid|, st0, a, b);
    InTurn(dev0, a, b);
  }

  lemma RunInTurn(script: seq<Reply>, i: nat, j: nat, st: DeviceState, a: seq<Request>, b: seq<Request>)
    requires |st.mem| == WORD && j == i + |a|
    ensures Run(script, j, Run(script, i, st, a), b) == Run(script, i, st, a + b)
  {
    hide Run, Received;
    RunSplits(script, i, st, a, b);
  }

  lemma InTurn<T>(x: seq<T>, y: seq<T>, z: seq<T>)
    ensures x + y + z == x + (y + z)
  {
  }

  /** One more transfer. */
  lemma MadeSnoc(script: seq<Reply>, dev0: seq<Request>, st0: DeviceState, reqs: seq<Request>, req: Request)
    requires |st0.mem| == WORD
    ensures dev0 + reqs + [req] == dev0 + (reqs + [req]) && |dev0 + reqs| == |dev0| + |reqs|
    ensures Run(script, |dev0|, st0, reqs + [req]) == After(Run(script, |dev0|, st0, reqs), req, ReplyAt(script, |dev0| + |reqs|))
    ensures Received(script, |dev0|, st0, reqs + [req])
         == Received(script, |dev0|, st0, reqs) + Payload(Run(script, |dev0|, st0, reqs), req, ReplyAt(script, |dev0| + |reqs|))
  {
    hide After, Payload, ReplyAt, Run, Received;
    RunSnoc(script, |dev0|, st0, reqs, req);
  }

  /** How many transfers of a plan a host makes that stops at the first failure. */
  function Issued(script: seq<Reply>, i: nat, plan: seq<Request>): (n: nat)
    ensures n <= |plan|
    decreases |plan|
  {
    if plan == [] then 0
    else if Result(plan[0], ReplyAt(script, i)) < 0 then 1
    else 1 + Issued(script, i + 1, plan[1..])
  }

  /** The host was told of no failure. */
  ghost predicate Succeeds(script: seq<Reply>, i: nat, plan: seq<Request>) {
    forall j {:trigger plan[j]} :: 0 <= j < |plan| ==> Result(plan[j], ReplyAt(script, i + j)) >= 0
  }

  /** Every transfer moved all of its bytes, whatever the host was told. */
  ghost predicate NoneShort(script: seq<Reply>, i: nat, plan: seq<Request>) {
    forall j {:trigger plan[j]} :: 0 <= j < |plan| ==> Moved(plan[j], ReplyAt(script, i + j)) == plan[j].Size()
  }

  /** The first k transfers got on without a failure; the next one decides. */
  lemma {:induction false} IssuedAt(script: seq<Reply>, i: nat, plan: seq<Request>, k: nat)
    requires k <= |plan| && Succeeds(script, i, plan[..k])
    ensures k == |plan| ==> Issued(script, i, plan) == k && Succeeds(script, i, plan)
    ensures k < |plan| && Result(plan[k], ReplyAt(script, i + k)) < 0 ==>
      Issued(script, i, plan) == k + 1 && !Succeeds(script, i, plan)
    decreases k
  {
    hide Result, ReplyAt;
    if k == 0 {
      assert k < |plan| ==> plan[0] == plan[k];
    } else {
      assert plan[..k][0] == plan[0];
      var rest := plan[1..];
      assert forall j {:trigger rest[..k - 1][j]} :: 0 <= j < k - 1 ==> rest[..k - 1][j] == plan[..k][j + 1];
      IssuedAt(script, i + 1, rest, k - 1);
      assert k < |plan| ==> rest[k - 1] == plan[k];
      assert forall j :: 0 <= j < |rest| ==> rest[j] == plan[j + 1];
    }
  }

  /** One more transfer without a failure. */
  lemma SucceedsOnceMore(script: seq<Reply>, i: nat, plan: seq<Request>, k: nat)
    requires k < |plan| && Succeeds(script, i, plan[..k]) && Result(plan[k], ReplyAt(script, i + k)) >= 0
    ensures Succeeds(script, i, plan[..k + 1])
  {
    hide Result, ReplyAt;
    assert forall j :: 0 <= j < k ==> plan[..k + 1][j] == plan[..k][j];
  }

  /** In numbers: of a plan of control transfers the host makes all up to the first whose code is
      negative, and it is told of a failure exactly if there is one. */
  lemma {:induction false} StopsAtFailure(script: seq<Reply>, i: nat, plan: seq<Request>)
    requires forall k {:trigger plan[k]} :: 0 <= k < |plan| ==> plan[k].ControlOut? || plan[k].ControlIn?
    ensures var n := Issued(script, i, plan);
            && (forall j :: i <= j < i + n - 1 ==> ReplyAt(script, j).code >= 0)
            && (Succeeds(script, i, plan) ==> n == |plan| && (n > 0 ==> ReplyAt(script, i + n - 1).code >= 0))
            && (!Succeeds(script, i, plan) ==> n > 0 && ReplyAt(script, i + n - 1).code < 0)
    decreases |plan|
  {
    hide ReplyAt;
    if plan != [] {
      var rest := plan[1..];
      assert plan == [plan[0]] + rest;
      StopsAtFailure(script, i + 1, rest);
      assert Succeeds(script, i, plan) <==> Result(plan[0], ReplyAt(script, i)) >= 0 && Succeeds(script, i + 1, rest) by {
        SucceedsCons(script, i, plan);
      }
    }
  }

  lemma SucceedsCons(script: seq<Reply>, i: nat, plan: seq<Request>)
    requires plan != []
    ensures Succeeds(script, i, plan) <==> Result(plan[0], ReplyAt(script, i)) >= 0 && Succeeds(script, i + 1, plan[1..])
  {
    hide Result, ReplyAt;
    var rest := plan[1..];
    assert forall j {:trigger rest[j]} :: 0 <= j < |rest| ==> rest[j] == plan[j + 1] && i + 1 + j == i + (j + 1);
    forall j {:trigger plan[j]} | 0 < j < |plan| && Succeeds(script, i + 1, rest)
      ensures Result(plan[j], ReplyAt(script, i + j)) >= 0
    {
      assert plan[j] == rest[j - 1];
    }
  }

  // ---- conversations outside device memory ----

  /** No large-memory session has bytes left to move. */
  ghost predicate Quiet(dev: Device)
    reads dev
  {
    dev.Valid() && dev.state.stream.Spent()
  }

  /** The request neither reads nor writes device memory, nor opens a session that does. */
  predicate Plain(req: Request) {
    match req
    case ControlOut(request, _, _, _) => request !in {AM_REQ_WRITE_MEM, AM_REQ_WR_LARGE_MEM, AM_REQ_RD_LARGE_MEM}
    case ControlIn(request, _, _, _) => request != AM_REQ_READ_MEM
    case _ => true
  }

  /** What arrives with an input transfer of this kind. */
  function Arrived(req: Request, reply: Reply): (data: seq<Byte>)
    ensures |data| == Moved(req, reply)
  {
    Padded(reply.data, Moved(req, reply))
  }

  /** One transfer of such a conversation. */
  method Talk(dev: Device, req: Request) returns (r: int, data: seq<Byte>)
    requires Quiet(dev) && Plain(req)
    modifies dev
    ensures Quiet(dev) && dev.state.mem == old(dev.state.mem) && dev.requests == old(dev.requests) + [req]
    ensures var reply := ReplyAt(dev.script, |old(dev.requests)|);
            && r == Result(req, reply) && dev.clock == old(dev.clock) + reply.elapsed
            && (req.ControlIn? || req.BulkIn? ==> data == Arrived(req, reply))
  {
    r, data := dev.Transfer(req);
  }
}
