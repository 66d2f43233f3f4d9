/** Several large-memory calls in a row, each made after the one before it came through whole. */
module LargeRuns {
  import opened Bytes
  import opened Link
  import opened LargeMem

  /** One call: what it announced, what it was to move, and how far it got. */
  datatype Turn = Reading(hdr: Request, n: U32, call: Call) | Writing(hdr: Request, data: seq<Byte>, call: Call)
  {
    function Size(): nat {
      match this
      case Reading(_, n, _) => n
      case Writing(_, data, _) => |data|
    }

    function Limit(): nat {
      if Reading? then 0x1_0000 else 0x1000
    }

    function Transfers(script: seq<Reply>, i: nat): seq<Request> {
      match this
      case Reading(hdr, n, call) => ReadTransfers(script, i, hdr, n, call)
      case Writing(hdr, data, call) => WriteTransfers(script, i, hdr, data, call)
    }

    /** The call ran its course, from transfer number i on. */
    ghost predicate Ran(script: seq<Reply>, i: nat) {
      CallRan(script, i, hdr, Size(), Limit(), call)
    }

    /** All of its bytes were reported moved. */
    predicate Whole(script: seq<Reply>, i: nat) {
      CallSize(script, i, Size(), Limit(), call) == Size()
    }

    /** The device heard one of its headers. */
    predicate HeaderHeard(script: seq<Reply>, i: nat) {
      Heard(script, i, hdr, call.headers)
    }
  }

  /** All the transfers of the calls, the first of them number i of the run. */
  function RunLog(script: seq<Reply>, i: nat, turns: seq<Turn>): seq<Request> {
    if turns == [] then []
    else
      var k := |turns| - 1;
      var before := RunLog(script, i, turns[..k]);
      before + turns[k].Transfers(script, i + |before|)
  }

  /** The number of the first transfer of call k. */
  function StartOf(script: seq<Reply>, i: nat, turns: seq<Turn>, k: nat): nat
    requires k < |turns|
  {
    i + |RunLog(script, i, turns[..k])|
  }

  /** The last call came through whole, if there is one. */
  predicate LastWhole(script: seq<Reply>, i: nat, turns: seq<Turn>) {
    turns == [] || turns[|turns| - 1].Whole(script, StartOf(script, i, turns, |turns| - 1))
  }

  /** Each call ran its course, after the one before it came through whole. */
  ghost predicate AllRan(script: seq<Reply>, i: nat, turns: seq<Turn>) {
    turns == [] ||
    var k := |turns| - 1;
    && AllRan(script, i, turns[..k]) && LastWhole(script, i, turns[..k])
    && turns[k].Ran(script, StartOf(script, i, turns, k))
  }

  /** The device heard a header of every call. */
  ghost predicate AllHeard(script: seq<Reply>, i: nat, turns: seq<Turn>) {
    forall k {:trigger turns[k]} :: 0 <= k < |turns| ==> turns[k].HeaderHeard(script, StartOf(script, i, turns, k))
  }

  predicate IsBulk(req: Request, reading: bool) {
    if reading then req.BulkIn? else req.BulkOut?
  }

  /** The log ends with a reason to give up: four refused headers, a bulk transfer that failed, or
      six that were reported empty. A time-out is a failure only if nothing was moved. */
  ghost predicate EndsInFailure(script: seq<Reply>, i: nat, log: seq<Request>, reading: bool) {
    var n := |log|;
    || (n >= 4 && forall j {:trigger log[j]} :: n - 4 <= j < n ==> log[j].ControlOut? && ReplyAt(script, i + j).code < 0)
    || (n >= 1 && IsBulk(log[n - 1], reading) && ReplyAt(script, i + n - 1).code != 0
        && (ReplyAt(script, i + n - 1).code == -7 ==> ReplyAt(script, i + n - 1).count == 0))
    || (n >= 6 && forall j {:trigger log[j]} :: n - 6 <= j < n ==>
          IsBulk(log[j], reading) && ReplyAt(script, i + j).code == 0 && ReplyAt(script, i + j).count == 0)
  }

  lemma OneMoreTurn(script: seq<Reply>, i: nat, turns: seq<Turn>, t: Turn)
    ensures var log, all := RunLog(script, i, turns), turns + [t];
            var at := i + |log|;
            && all[..|turns|] == turns && all[|turns|] == t && StartOf(script, i, all, |turns|) == at
            && RunLog(script, i, all) == log + t.Transfers(script, at)
            && (LastWhole(script, i, all) <==> t.Whole(script, at))
            && (AllRan(script, i, all) <==> AllRan(script, i, turns) && LastWhole(script, i, turns) && t.Ran(script, at))
  {
    hide Turn.Transfers, Turn.Whole, Turn.Ran, RunLog;
    assert (turns + [t])[..|turns|] == turns;
    LogSnoc(script, i, turns, t);
  }

  lemma LogSnoc(script: seq<Reply>, i: nat, turns: seq<Turn>, t: Turn)
    ensures RunLog(script, i, turns + [t]) == RunLog(script, i, turns) + t.Transfers(script, i + |RunLog(script, i, turns)|)
  {
    hide Turn.Transfers;
    var all := turns + [t];
    assert all != [] && |all| - 1 == |turns| && all[..|turns|] == turns && all[|turns|] == t;
  }

  lemma OneMoreHeard(script: seq<Reply>, i: nat, turns: seq<Turn>, t: Turn)
    ensures AllHeard(script, i, turns + [t]) <==> AllHeard(script, i, turns) && t.HeaderHeard(script, i + |RunLog(script, i, turns)|)
  {
    hide Turn.HeaderHeard, StartOf;
    var all := turns + [t];
    forall k | 0 <= k < |turns|
      ensures all[k] == turns[k] && StartOf(script, i, all, k) == StartOf(script, i, turns, k)
    {
      SameStart(script, i, turns, t, k);
    }
    LastStarts(script, i, turns, t);
    assert all[|turns|] == t;
  }

  lemma SameStart(script: seq<Reply>, i: nat, turns: seq<Turn>, t: Turn, k: nat)
    requires k < |turns|
    ensures StartOf(script, i, turns + [t], k) == StartOf(script, i, turns, k)
  {
    hide RunLog;
    assert (turns + [t])[..k] == turns[..k];
  }

  lemma LastStarts(script: seq<Reply>, i: nat, turns: seq<Turn>, t: Turn)
    ensures StartOf(script, i, turns + [t], |turns|) == i + |RunLog(script, i, turns)|
  {
    hide RunLog;
    assert (turns + [t])[..|turns|] == turns;
  }

  lemma NoTurns(script: seq<Reply>, i: nat)
    ensures RunLog(script, i, []) == [] && AllRan(script, i, []) && LastWhole(script, i, []) && AllHeard(script, i, [])
  {
  }

  lemma LastTurn(turns: seq<Turn>)
    requires turns != []
    ensures turns == turns[..|turns| - 1] + [turns[|turns| - 1]]
  {
  }

  /** One call more, in the log. */
  lemma TurnMade(dev: Device, dev0: seq<Request>, st0: DeviceState, turns: seq<Turn>, mid: seq<Request>, st1: DeviceState, t: Turn)
    requires |st0.mem| == WORD
    requires mid == dev0 + RunLog(dev.script, |dev0|, turns) && st1 == Run(dev.script, |dev0|, st0, RunLog(dev.script, |dev0|, turns))
    requires Made(dev, mid, st1, t.Transfers(dev.script, |mid|))
    ensures Made(dev, dev0, st0, RunLog(dev.script, |dev0|, turns + [t]))
  {
    hide Run, Received, RunLog, Made, Turn.Transfers, Turn.Whole, Turn.Ran, AllRan, LastWhole;
    OneMoreTurn(dev.script, |dev0|, turns, t);
    MadeInTurn(dev, dev0, st0, RunLog(dev.script, |dev0|, turns), mid, st1, t.Transfers(dev.script, |mid|));
  }

  /** Every part of a run is one, and only the last call of all may fail. */
  lemma {:induction false} FrontRan(script: seq<Reply>, i: nat, turns: seq<Turn>, n: nat)
    requires AllRan(script, i, turns) && n <= |turns|
    ensures AllRan(script, i, turns[..n]) && (n < |turns| ==> LastWhole(script, i, turns[..n]))
    decreases |turns|
  {
    hide LastWhole, RunLog, Turn.Ran;
    if n == |turns| {
      assert turns[..n] == turns;
    } else if n < |turns| - 1 {
      FrontRan(script, i, turns[..|turns| - 1], n);
      assert turns[..|turns| - 1][..n] == turns[..n];
    }
  }

  /** The replies decide what a call does after equal calls. */
  lemma LastIsDetermined(script: seq<Reply>, i: nat, a: seq<Turn>, b: seq<Turn>)
    requires |a| == |b| > 0 && a[..|a| - 1] == b[..|a| - 1] && AllRan(script, i, a) && AllRan(script, i, b)
    requires a[|a| - 1].(call := b[|a| - 1].call) == b[|a| - 1]
    ensures a == b
  {
    hide RunLog, CallRan, LastWhole;
    var k := |a| - 1;
    CallIsDetermined(script, StartOf(script, i, a, k), a[k].hdr, a[k].Size(), a[k].Limit(), a[k].call, b[k].call);
    LastTurn(a);
    LastTurn(b);
  }
}
