/** Waiting for a device that answers "Continue:..." while it is busy: the loop that both the
    media download and the bulk command run, and what it decides on. */
module Polling {
  import opened Bytes
  import opened Link
  import opened Chunks

  /** How a reply is polled for: its size, what a busy device answers, how long to sleep then,
      and when to give up, in milliseconds. */
  datatype Poll = Poll(size: nat, busy: seq<Byte>, interval: nat, limit: nat)
  {
    function Request(): Request {
      BulkIn(size)
    }
  }

  const MEDIA_POLL := Poll(256, Ascii("Continue:32"), 500, 12 * 60 * 1000)
  const BULKCMD_POLL := Poll(0x200, Ascii("Continue:34"), 3000, 20 * 60 * 1000)

  /** A reply long enough to be compared. */
  predicate Telling(poll: Poll, reply: Reply) {
    Result(poll.Request(), reply) >= |poll.busy|
  }

  /** A telling reply that starts with the given word. */
  predicate Says(poll: Poll, reply: Reply, word: seq<Byte>) {
    Telling(poll, reply) && word <= Arrived(poll.Request(), reply)
  }

  /** In numbers: which replies are compared, and what makes one of them say a word. */
  lemma SaysIs(poll: Poll, reply: Reply, word: seq<Byte>)
    requires 0 < |word| <= |poll.busy| <= poll.size && forall k :: 0 <= k < |word| ==> word[k] != 0
    ensures Telling(poll, reply) <==> reply.code in {0, -7} && reply.count >= |poll.busy|
    ensures Says(poll, reply, word) <==> reply.code in {0, -7} && reply.count >= |poll.busy| && word <= reply.data
  {
    if Telling(poll, reply) {
      StartsWith(reply.data, Min(reply.count, poll.size), word);
    }
  }

  lemma SaysWhat(poll: Poll, reply: Reply, word: seq<Byte>)
    requires reply.code in {0, -7} && reply.count >= |poll.busy| > 0 && poll.size >= |poll.busy|
    ensures Telling(poll, reply) && (Says(poll, reply, word) <==> word <= Arrived(poll.Request(), reply))
  {
    hide Arrived;
  }

  function Polls(poll: Poll, n: nat): (reqs: seq<Request>)
    ensures |reqs| == n
  {
    if n == 0 then [] else Polls(poll, n - 1) + [poll.Request()]
  }

  /** The time that n polls take, the first of which is transfer number i, each with the sleep
      that follows it. */
  function Elapsed(poll: Poll, script: seq<Reply>, i: nat, n: nat): nat {
    if n == 0 then 0
    else
      Elapsed(poll, script, i, n - 1)
      + ReplyAt(script, i + n - 1).elapsed + poll.interval + ReplyAt(script, i + n).oversleep
  }

  /** The device was busy n times, and each time there was time left. */
  ghost predicate StayedBusy(poll: Poll, script: seq<Reply>, i: nat, n: nat) {
    n == 0 ||
    (StayedBusy(poll, script, i, n - 1) && Says(poll, ReplyAt(script, i + n - 1), poll.busy) && Elapsed(poll, script, i, n) < poll.limit)
  }

  /** Polling made exactly n transfers: the device was busy and there was time left after each
      but the last, and it was not busy, or there was no time left, after that. */
  ghost predicate Polled(poll: Poll, script: seq<Reply>, i: nat, n: nat) {
    && n > 0 && StayedBusy(poll, script, i, n - 1)
    && (Says(poll, ReplyAt(script, i + n - 1), poll.busy) ==> Elapsed(poll, script, i, n) >= poll.limit)
  }

  lemma {:induction false} ElapsedAtLeast(poll: Poll, script: seq<Reply>, i: nat, n: nat)
    ensures Elapsed(poll, script, i, n) >= n * poll.interval
  {
    if n > 0 {
      ElapsedAtLeast(poll, script, i, n - 1);
      assert n * poll.interval == (n - 1) * poll.interval + poll.interval;
    }
  }

  /** Because every sleep takes its time, there are at most 1440 polls for one attempt at a media
      chunk and 400 for a bulk command. */
  lemma PollsAreBounded(script: seq<Reply>, i: nat, n: nat)
    ensures Polled(MEDIA_POLL, script, i, n) ==> n <= 1440
    ensures Polled(BULKCMD_POLL, script, i, n) ==> n <= 400
  {
    if n > 1 {
      ElapsedAtLeast(MEDIA_POLL, script, i, n - 1);
      ElapsedAtLeast(BULKCMD_POLL, script, i, n - 1);
    }
  }

  lemma {:induction false} ElapsedEvenly(poll: Poll, script: seq<Reply>, i: nat, n: nat, e: nat)
    requires forall j :: i <= j <= i + n ==> ReplyAt(script, j).elapsed == e && ReplyAt(script, j).oversleep == 0
    ensures Elapsed(poll, script, i, n) == n * (e + poll.interval)
  {
    hide ReplyAt;
    if n > 0 {
      ElapsedEvenly(poll, script, i, n - 1, e);
      assert n * (e + poll.interval) == (n - 1) * (e + poll.interval) + (e + poll.interval);
    }
  }

  /** The host gives up a device that stays busy only when the time is up, twelve minutes for a
      media chunk and twenty for a bulk command, with half a second or three seconds asleep after
      each poll. */
  lemma GivesUpInTime(script: seq<Reply>, i: nat, n: nat, e: nat)
    requires forall j :: i <= j <= i + n ==> ReplyAt(script, j).elapsed == e && ReplyAt(script, j).oversleep == 0
    requires n > 0
    ensures Polled(MEDIA_POLL, script, i, n) && Says(MEDIA_POLL, ReplyAt(script, i + n - 1), Ascii("Continue:32")) ==>
              (n - 1) * (e + 500) < 720_000 <= n * (e + 500)
    ensures Polled(BULKCMD_POLL, script, i, n) && Says(BULKCMD_POLL, ReplyAt(script, i + n - 1), Ascii("Continue:34")) ==>
              (n - 1) * (e + 3000) < 1_200_000 <= n * (e + 3000)
  {
    hide ReplyAt, Says;
    ElapsedEvenly(MEDIA_POLL, script, i, n - 1, e);
    ElapsedEvenly(MEDIA_POLL, script, i, n, e);
    ElapsedEvenly(BULKCMD_POLL, script, i, n - 1, e);
    ElapsedEvenly(BULKCMD_POLL, script, i, n, e);
  }

  lemma {:induction false} BusyBefore(poll: Poll, script: seq<Reply>, i: nat, m: nat, n: nat)
    requires m <= n && StayedBusy(poll, script, i, n)
    ensures StayedBusy(poll, script, i, m)
  {
    if m < n {
      BusyBefore(poll, script, i, m, n - 1);
    }
  }

  /** A run of polls has one length only: the script decides how often the device is polled. */
  lemma PollingIsDetermined(poll: Poll, script: seq<Reply>, i: nat, m: nat, n: nat)
    requires Polled(poll, script, i, m) && Polled(poll, script, i, n)
    ensures m == n
  {
    if m < n {
      BusyBefore(poll, script, i, m, n - 1);
    } else if n < m {
      BusyBefore(poll, script, i, n, m - 1);
    }
  }

  /** One poll: read, judge the front of the buffer, sleep if the device was busy. The buffer is
      not cleared before, but whenever the reply is long enough to be compared, its front is
      fresh. */
  method PollOnce(dev: Device, poll: Poll, buf: array<Byte>) returns (r: int, again: bool)
    requires Quiet(dev) && poll.size <= buf.Length
    modifies dev, buf
    ensures Quiet(dev) && dev.state.mem == old(dev.state.mem)
    ensures dev.requests == old(dev.requests) + [poll.Request()]
    ensures var i := |old(dev.requests)|;
            var reply := ReplyAt(dev.script, i);
            && r == Result(poll.Request(), reply)
            && (r >= |poll.busy| ==> Arrived(poll.Request(), reply) <= buf[..])
            && (again <==> Says(poll, reply, poll.busy))
            && dev.clock == old(dev.clock) + reply.elapsed + if again then poll.interval + ReplyAt(dev.script, i + 1).oversleep else 0
  {
    hide ReplyAt;
    var data;
    r, data := Talk(dev, poll.Request());
    CopyIn(buf, data);
    again := false;
    if r < |poll.busy| {
      return;
    }
    assert buf[..|data|] == data;
    if !(poll.busy <= buf[..]) {
      return;
    }
    assert poll.busy == buf[..][..|poll.busy|] == data[..|poll.busy|];
    again := true;
    dev.Sleep(poll.interval);
  }

  /** The poll loop. */
  method PollLoop(dev: Device, poll: Poll, buf: array<Byte>) returns (r: int, ghost n: nat)
    requires Quiet(dev) && poll.size <= buf.Length && poll.interval > 0 && poll.limit > 0
    modifies dev, buf
    ensures Quiet(dev) && dev.state.mem == old(dev.state.mem)
    ensures dev.requests == old(dev.requests) + Polls(poll, n)
    ensures n > 0 && Polled(poll, dev.script, |old(dev.requests)|, n)
    ensures var last := ReplyAt(dev.script, |old(dev.requests)| + n - 1);
            r == Result(poll.Request(), last) && (r >= |poll.busy| ==> Arrived(poll.Request(), last) <= buf[..])
  {
    hide ReplyAt, Result, Arrived, Says;
    ghost var i := |dev.requests|;
    var startTime, again := dev.clock, true;
    r, n := 0, 0;
    while again && dev.clock - startTime < poll.limit
      invariant Quiet(dev) && dev.state.mem == old(dev.state.mem)
      invariant dev.requests == old(dev.requests) + Polls(poll, n)
      invariant n == 0 ==> again && dev.clock == startTime
      invariant again ==> dev.clock - startTime == Elapsed(poll, dev.script, i, n)
      invariant n > 0 ==>
        var last := ReplyAt(dev.script, i + n - 1);
        && StayedBusy(poll, dev.script, i, n - 1) && (again <==> Says(poll, last, poll.busy))
        && r == Result(poll.Request(), last) && (r >= |poll.busy| ==> Arrived(poll.Request(), last) <= buf[..])
      decreases again, poll.limit - (dev.clock - startTime)
    {
      r, again := PollOnce(dev, poll, buf);
      n := n + 1;
    }
  }
}
