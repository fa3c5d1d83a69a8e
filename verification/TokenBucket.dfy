/**
 * The token-bucket rate limiter (src/vpn/stats.rs).  Tokens and instants are real numbers, the
 * clock is a parameter that never runs backwards, and the rate stays as constructed.
 */
module TokenBucket {
  datatype Limits = Limits(rate: nat, capacity: nat)

  datatype Bucket = Bucket(tokens: real, lastRefill: real)

  datatype Call = Check(bytes: nat, now: real) | Consume(bytes: nat, now: real)

  datatype Answer = Checked(ok: bool) | Taken(bytes: nat)

  /** The bytes that a caller given this answer lets through. */
  function Through(call: Call, answer: Answer): nat {
    match answer
    case Checked(ok) => if ok then call.bytes else 0
    case Taken(bytes) => bytes
  }

  /** Bytes let through at an instant; a limiter's history starts with its creation and 0 bytes. */
  datatype Passed = Passed(at: real, bytes: nat)

  type History = h: seq<Passed> | |h| > 0 witness [Passed(0.0, 0)]

  function Min(a: real, b: real): real { if a <= b then a else b }

  function Created(l: Limits, now: real): Bucket { Bucket(l.capacity as real, now) }

  /** The tokens, or bytes, that an interval is worth. */
  function Gain(l: Limits, elapsed: real): (g: real)
    ensures elapsed >= 0.0 ==> g >= 0.0
    ensures elapsed == 0.0 ==> g == 0.0
  {
    elapsed * l.rate as real
  }

  lemma GainAdds(l: Limits, a: real, b: real)
    ensures Gain(l, a + b) == Gain(l, a) + Gain(l, b)
  {
    var r := l.rate as real;
    assert (a + b) * r == a * r + b * r;
  }

  function Refilled(l: Limits, b: Bucket, now: real): real {
    Min(b.tokens + Gain(l, now - b.lastRefill), l.capacity as real)
  }

  /**
   * The bucket after a call, and the call's answer: the whole amount or nothing, or as many whole
   * bytes as there are.
   */
  function Step(l: Limits, b: Bucket, call: Call): (Bucket, Answer)
    requires b.tokens >= 0.0 && call.now >= b.lastRefill
  {
    var available := Refilled(l, b, call.now);
    match call
    case Check(bytes, now) =>
      if available >= bytes as real then (Bucket(available - bytes as real, now), Checked(true))
      else (Bucket(available, now), Checked(false))
    case Consume(bytes, now) =>
      var taken: nat := Min(bytes as real, available).Floor;
      (Bucket(available - taken as real, now), Taken(taken))
  }

  class RateLimiter {
    const limits: Limits
    var tokens: real
    var lastRefill: real

    ghost function State(): Bucket
      reads this
    {
      Bucket(tokens, lastRefill)
    }

    constructor (ratePerSec: nat, capacity: nat, now: real)
      ensures limits == Limits(ratePerSec, capacity) && State() == Created(limits, now)
    {
      limits := Limits(ratePerSec, capacity);
      tokens, lastRefill := capacity as real, now;
    }

    method Check(bytes: nat, now: real) returns (ok: bool)
      requires tokens >= 0.0 && now >= lastRefill
      modifies this
      ensures (State(), Checked(ok)) == Step(limits, old(State()), Call.Check(bytes, now))
      ensures tokens == Refilled(limits, old(State()), now) - (if ok then bytes as real else 0.0) >= 0.0
      ensures lastRefill == now
    {
      var newTokens := Gain(limits, now - lastRefill);
      tokens := Min(tokens + newTokens, limits.capacity as real);
      lastRefill := now;
      if tokens >= bytes as real {
        tokens := tokens - bytes as real;
        ok := true;
      } else {
        ok := false;
      }
    }

    method Consume(bytes: nat, now: real) returns (consumed: nat)
      requires tokens >= 0.0 && now >= lastRefill
      modifies this
      ensures (State(), Taken(consumed)) == Step(limits, old(State()), Call.Consume(bytes, now))
      ensures tokens == Refilled(limits, old(State()), now) - consumed as real >= 0.0
      ensures lastRefill == now
    {
      var newTokens := Gain(limits, now - lastRefill);
      tokens := Min(tokens + newTokens, limits.capacity as real);
      lastRefill := now;
      consumed := Min(bytes as real, tokens).Floor;
      tokens := tokens - consumed as real;
    }
  }

  // ---------------------------------------------------------------------
  //  The all-windows rule
  // ---------------------------------------------------------------------

  function Total(h: seq<Passed>, first: nat): nat
    requires first <= |h|
    decreases |h| - first
  {
    if first == |h| then 0 else h[first].bytes + Total(h, first + 1)
  }

  /** No more than the capacity at once, and in every window ending now no more than it and the rate allow. */
  ghost predicate Allowed(l: Limits, h: History, now: real, bytes: nat) {
    && bytes <= l.capacity
    && forall j | 0 <= j < |h| ::
      (Total(h, j) + bytes) as real <= l.capacity as real + l.rate as real * (now - h[j].at)
  }

  /** How many more bytes window j has room for. */
  function Room(l: Limits, h: History, j: nat, now: real): real
    requires j < |h|
  {
    l.capacity as real + Gain(l, now - h[j].at) - Total(h, j) as real
  }

  /** The bucket holds exactly the room of the tightest window. */
  ghost predicate Tightest(l: Limits, b: Bucket, h: History) {
    && b.tokens >= 0.0 && b.lastRefill == h[|h| - 1].at
    && (forall j: nat | j < |h| :: b.tokens <= Room(l, h, j, b.lastRefill))
    && exists j: nat :: j < |h| && b.tokens == Room(l, h, j, b.lastRefill)
  }

  lemma {:induction false} TotalAppend(h: seq<Passed>, p: Passed, first: nat)
    requires first <= |h|
    ensures Total(h + [p], first) == Total(h, first) + p.bytes
    decreases |h| - first
  {
    if first == |h| {
      assert Total(h + [p], first + 1) == 0;
    } else {
      TotalAppend(h, p, first + 1);
    }
  }

  lemma RoomLater(l: Limits, h: History, j: nat, earlier: real, now: real)
    requires j < |h|
    ensures Room(l, h, j, now) == Room(l, h, j, earlier) + Gain(l, now - earlier)
  {
    GainAdds(l, earlier - h[j].at, now - earlier);
  }

  lemma RoomAppend(l: Limits, h: History, p: Passed, j: nat, now: real)
    requires j <= |h|
    ensures Room(l, h + [p], j, now) ==
      (if j < |h| then Room(l, h, j, now) else l.capacity as real + Gain(l, now - p.at)) - p.bytes as real
  {
    TotalAppend(h, p, j);
  }

  /** After refilling, the tokens are the least room, or the capacity. */
  lemma RefilledIsTightest(l: Limits, b: Bucket, h: History, now: real)
    requires Tightest(l, b, h) && now >= b.lastRefill
    ensures 0.0 <= Refilled(l, b, now) <= l.capacity as real
    ensures forall j: nat | j < |h| :: Refilled(l, b, now) <= Room(l, h, j, now)
    ensures Refilled(l, b, now) == l.capacity as real ||
      exists j: nat :: j < |h| && Refilled(l, b, now) == Room(l, h, j, now)
  {
    hide Room, Gain;
    forall j: nat | j < |h|
      ensures Room(l, h, j, now) == Room(l, h, j, b.lastRefill) + Gain(l, now - b.lastRefill)
    {
      RoomLater(l, h, j, b.lastRefill, now);
    }
  }

  lemma StepKeepsTightest(l: Limits, b: Bucket, h: History, call: Call)
    requires Tightest(l, b, h) && call.now >= b.lastRefill
    ensures var (after, answer) := Step(l, b, call);
      Tightest(l, after, h + [Passed(call.now, Through(call, answer))])
  {
    hide Room, Gain;
    var (after, answer) := Step(l, b, call);
    var p := Passed(call.now, Through(call, answer));
    RefilledIsTightest(l, b, h, call.now);
    assert p.bytes as real <= Refilled(l, b, call.now);
    forall j: nat | j <= |h|
      ensures Room(l, h + [p], j, call.now) ==
        (if j < |h| then Room(l, h, j, call.now) else l.capacity as real) - p.bytes as real
    {
      RoomAppend(l, h, p, j, call.now);
    }
    if Refilled(l, b, call.now) == l.capacity as real {
      assert after.tokens == Room(l, h + [p], |h|, call.now);
    } else {
      var j: nat :| j < |h| && Refilled(l, b, call.now) == Room(l, h, j, call.now);
      assert after.tokens == Room(l, h + [p], j, call.now);
    }
  }

  lemma GainIs(l: Limits, elapsed: real)
    ensures Gain(l, elapsed) == l.rate as real * elapsed
  {
  }

  lemma EnoughIffAllowed(l: Limits, b: Bucket, h: History, now: real, bytes: nat)
    requires Tightest(l, b, h) && now >= b.lastRefill
    ensures Refilled(l, b, now) >= bytes as real <==> Allowed(l, h, now, bytes)
  {
    hide Gain, Allowed, Room, Refilled;
    RefilledIsTightest(l, b, h, now);
    AllowedIsRoom(l, h, now, bytes);
  }

  /** The rule in terms of the room each window has left. */
  lemma AllowedIsRoom(l: Limits, h: History, now: real, bytes: nat)
    ensures Allowed(l, h, now, bytes) <==>
      bytes <= l.capacity && forall j: nat | j < |h| :: Room(l, h, j, now) >= bytes as real
  {
    hide Gain, Total;
    forall j: nat | j < |h|
      ensures (Total(h, j) + bytes) as real <= l.capacity as real + l.rate as real * (now - h[j].at) <==>
        Room(l, h, j, now) >= bytes as real
    {
      GainIs(l, now - h[j].at);
    }
  }

  // ---------------------------------------------------------------------
  //  Runs
  // ---------------------------------------------------------------------

  /** What the all-windows rule has a call let through: all or nothing, or the most it allows up to the request. */
  ghost predicate Ruled(l: Limits, h: History, call: Call, through: nat) {
    match call
    case Check(bytes, now) => through == if Allowed(l, h, now, bytes) then bytes else 0
    case Consume(bytes, now) =>
      && through <= bytes && Allowed(l, h, now, through)
      && forall more: nat :: through < more <= bytes ==> !Allowed(l, h, now, more)
  }

  function LastTime(start: real, calls: seq<Call>, i: nat): real
    requires i <= |calls|
  {
    if i == 0 then start else calls[i - 1].now
  }

  /** The clock does not go back. */
  ghost predicate InTime(start: real, calls: seq<Call>) {
    forall i: nat | i < |calls| :: calls[i].now >= LastTime(start, calls, i)
  }

  /** A history of bytes let through, starting with the creation, in which every call was answered by the rule. */
  ghost predicate RuledRun(l: Limits, start: real, calls: seq<Call>, h: History) {
    && |h| == |calls| + 1 && h[0] == Passed(start, 0)
    && forall i | 0 <= i < |calls| :: h[i + 1].at == calls[i].now && Ruled(l, h[..i + 1], calls[i], h[i + 1].bytes)
  }

  lemma StepIsRuled(l: Limits, b: Bucket, h: History, call: Call)
    requires Tightest(l, b, h) && call.now >= b.lastRefill
    ensures Ruled(l, h, call, Through(call, Step(l, b, call).1))
  {
    var through := Through(call, Step(l, b, call).1);
    hide Allowed, Tightest, Gain;
    EnoughIffAllowed(l, b, h, call.now, call.bytes);
    if call.Consume? {
      EnoughIffAllowed(l, b, h, call.now, through);
      forall more: nat | through < more <= call.bytes
        ensures !Allowed(l, h, call.now, more)
      {
        EnoughIffAllowed(l, b, h, call.now, more);
      }
    }
  }

  function Between(h: seq<Passed>, first: nat, last: nat): nat
    requires first <= last <= |h|
  {
    Total(h[..last], first)
  }

  /** What a window has let through so far fits what the rule allows in it. */
  lemma WindowFits(l: Limits, b: Bucket, h: History, first: nat)
    requires Tightest(l, b, h) && first < |h|
    ensures Total(h, first) as real <= l.capacity as real + l.rate as real * (h[|h| - 1].at - h[first].at)
  {
    GainIs(l, h[|h| - 1].at - h[first].at);
    assert Room(l, h, first, b.lastRefill) >= 0.0;
  }

  /** Over every window at most the capacity plus the rate times its length gets through. */
  ghost predicate WindowsBounded(l: Limits, h: History) {
    forall first: nat, last: nat | first <= last < |h| ::
      Between(h, first, last + 1) as real <= l.capacity as real + l.rate as real * (h[last].at - h[first].at)
  }

  /** One call on a limiter, added to the history by the answer it gave. */
  method Record(limiter: RateLimiter, call: Call, ghost start: real, ghost calls: seq<Call>, h: History)
    returns (answer: Answer, after: History)
    requires Tightest(limiter.limits, limiter.State(), h) && limiter.tokens >= 0.0 && call.now >= limiter.lastRefill
    requires RuledRun(limiter.limits, start, calls, h) && WindowsBounded(limiter.limits, h)
    modifies limiter
    ensures after == h + [Passed(call.now, Through(call, answer))] && (answer.Checked? <==> call.Check?)
    ensures Tightest(limiter.limits, limiter.State(), after) && limiter.tokens >= 0.0 && limiter.lastRefill == call.now
    ensures RuledRun(limiter.limits, start, calls + [call], after) && WindowsBounded(limiter.limits, after)
  {
    StepIsRuled(limiter.limits, limiter.State(), h, call);
    StepKeepsTightest(limiter.limits, limiter.State(), h, call);
    hide Allowed, Tightest, Gain, Ruled, Total, RuledRun, WindowsBounded, Refilled;
    match call {
      case Check(bytes, now) =>
        var ok := limiter.Check(bytes, now);
        answer := Checked(ok);
      case Consume(bytes, now) =>
        var consumed := limiter.Consume(bytes, now);
        answer := Taken(consumed);
    }
    after := h + [Passed(call.now, Through(call, answer))];
    RunGrows(limiter.limits, start, calls, h, call, Through(call, answer));
    WindowsGrow(limiter.limits, limiter.State(), h, after[|h|]);
  }

  lemma RunGrows(l: Limits, start: real, calls: seq<Call>, h: History, call: Call, through: nat)
    requires RuledRun(l, start, calls, h) && Ruled(l, h, call, through)
    ensures RuledRun(l, start, calls + [call], h + [Passed(call.now, through)])
  {
    hide Ruled;
    var more, after := calls + [call], h + [Passed(call.now, through)];
    forall k: nat | k < |more|
      ensures after[k + 1].at == more[k].now && Ruled(l, after[..k + 1], more[k], after[k + 1].bytes)
    {
      assert after[..k + 1] == h[..k + 1];
      if k == |calls| {
        assert h[..k + 1] == h;
      }
    }
  }

  lemma WindowsGrow(l: Limits, b: Bucket, h: History, p: Passed)
    requires WindowsBounded(l, h) && Tightest(l, b, h + [p])
    ensures WindowsBounded(l, h + [p])
  {
    hide Total, Tightest;
    var after := h + [p];
    forall first: nat, last: nat | first <= last < |after|
      ensures Between(after, first, last + 1) as real <=
        l.capacity as real + l.rate as real * (after[last].at - after[first].at)
    {
      if last == |h| {
        assert after[..last + 1] == after;
        WindowFits(l, b, after, first);
      } else {
        assert after[..last + 1] == h[..last + 1];
      }
    }
  }

  lemma FreshRun(l: Limits, start: real)
    ensures Created(l, start).tokens >= 0.0 && Created(l, start).lastRefill == start
    ensures var h := [Passed(start, 0)];
      Tightest(l, Created(l, start), h) && RuledRun(l, start, [], h) && WindowsBounded(l, h)
  {
    var h := [Passed(start, 0)];
    assert Total(h, 0) == 0;
    assert Room(l, h, 0, start) == l.capacity as real;
    assert h[..1] == h;
  }

  /**
   * Any calls on a fresh limiter: check says yes, and consume takes, exactly what the all-windows
   * rule allows after all that the earlier answers let through; and over every window at most the
   * capacity plus the rate times its length gets through.
   */
  method Replay(ratePerSec: nat, capacity: nat, start: real, calls: seq<Call>)
    returns (answers: seq<Answer>, h: History)
    requires InTime(start, calls)
    ensures var l := Limits(ratePerSec, capacity);
      RuledRun(l, start, calls, h) && WindowsBounded(l, h)
    ensures |answers| == |calls|
    ensures forall i | 0 <= i < |calls| ::
      (answers[i].Checked? <==> calls[i].Check?) && h[i + 1].bytes == Through(calls[i], answers[i])
  {
    hide Tightest, RuledRun, WindowsBounded, Created, Gain, Refilled, Step, Through, Total;
    var limiter := new RateLimiter(ratePerSec, capacity, start);
    answers, h := [], [Passed(start, 0)];
    FreshRun(limiter.limits, start);
    for i := 0 to |calls|
      invariant limiter.limits == Limits(ratePerSec, capacity) && |answers| == i && |h| == i + 1
      invariant Tightest(limiter.limits, limiter.State(), h) && limiter.tokens >= 0.0
      invariant limiter.lastRefill == LastTime(start, calls, i)
      invariant RuledRun(limiter.limits, start, calls[..i], h) && WindowsBounded(limiter.limits, h)
      invariant forall k | 0 <= k < i ::
        (answers[k].Checked? <==> calls[k].Check?) && h[k + 1].bytes == Through(calls[k], answers[k])
    {
      assert calls[i].now >= limiter.lastRefill;
      var answer, after := Record(limiter, calls[i], start, calls[..i], h);
      assert calls[..i] + [calls[i]] == calls[..i + 1];
      answers, h := answers + [answer], after;
    }
    assert calls[..|calls|] == calls;
  }

  /** The rule leaves no choice: the calls alone determine what gets through. */
  lemma {:induction false} RuledHistoryIsUnique(
    l: Limits, start: real, calls: seq<Call>, g: History, h: History, n: nat)
    requires RuledRun(l, start, calls, g) && RuledRun(l, start, calls, h) && n <= |calls|
    ensures g[..n + 1] == h[..n + 1]
  {
    if n > 0 {
      RuledHistoryIsUnique(l, start, calls, g, h, n - 1);
      OneAnswer(l, g[..n], calls[n - 1], g[n].bytes, h[n].bytes);
    }
  }

  lemma OneAnswer(l: Limits, h: History, call: Call, a: nat, b: nat)
    requires Ruled(l, h, call, a) && Ruled(l, h, call, b)
    ensures a == b
  {
    hide Allowed;
    assert call.Consume? && a < b ==> !Allowed(l, h, call.now, b);
    assert call.Consume? && b < a ==> !Allowed(l, h, call.now, a);
  }
}
