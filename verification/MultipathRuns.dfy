/**
 * Whole runs of fragmenting and reordering: any number of sends, with the fragments arriving
 * in any order and any number of times, and the forced skipping of lost ones
 * (src/vpn/multipath.rs).
 */
module MultipathRuns {
  import opened Wrappers
  import opened Slicing
  import opened Multipath
  import Counting

  // ---------------------------------------------------------------------
  //  End to end
  // ---------------------------------------------------------------------

  /**
   * The data given to the sender, the fragments made of it and their numbers, the sender's
   * counter, the receiver, what it has put out, and the numbers it has ever taken in.
   */
  datatype Link = Link(
    data: Bytes, sent: seq<Bytes>, numbers: seq<nat>, nextSeq: nat,
    receiver: Reorder, output: seq<Bytes>, kept: set<nat>)

  const IDLE: Link := Link([], [], [], 0, Reorder(map[], 0), [], {})

  /** A send cuts new data with the fragment size of that moment; an arrival is of any fragment ever sent. */
  datatype Step = Send(data: Bytes, fragmentSize: nat) | Arrive(i: nat)

  ghost predicate Enabled(l: Link, step: Step) {
    match step
    case Send(_, fragmentSize) => fragmentSize > 0
    case Arrive(i) => i < |l.sent| && i < |l.numbers|
  }

  /** An arrival is refused only when it is early and the buffer is full. */
  predicate Refused(r: Reorder, maxSize: nat, sn: nat) { sn > r.expected && |r.buffer| >= maxSize }

  function Emit(out: Option<seq<Bytes>>): seq<Bytes> {
    match out case None => [] case Some(parts) => parts
  }

  function Range(lo: nat, hi: nat): seq<nat>
    requires lo <= hi
  {
    seq(hi - lo, i requires 0 <= i => lo + i)
  }

  function Next(l: Link, maxSize: nat, step: Step): Link
    requires Enabled(l, step)
  {
    match step
    case Send(data, fragmentSize) =>
      var pieces := Pieces(data, fragmentSize);
      l.(data := l.data + data, sent := l.sent + pieces,
         numbers := l.numbers + Range(l.nextSeq, l.nextSeq + |pieces|), nextSeq := l.nextSeq + |pieces|)
    case Arrive(i) =>
      var sn := l.numbers[i];
      var (receiver, out) := Inserted(l.receiver, maxSize, sn, l.sent[i]);
      l.(receiver := receiver, output := l.output + Emit(out),
         kept := if Refused(l.receiver, maxSize, sn) then l.kept else l.kept + {sn})
  }

  ghost predicate Runs(l: Link, maxSize: nat, steps: seq<Step>, last: Link)
    decreases |steps|
  {
    if steps == [] then l == last
    else Enabled(l, steps[0]) && Runs(Next(l, maxSize, steps[0]), maxSize, steps[1..], last)
  }

  /** The numbers of successive sends tile [0, nextSeq): fragment i has number i. */
  ghost predicate Tiled(l: Link) {
    |l.sent| == |l.numbers| == l.nextSeq && forall i | 0 <= i < |l.numbers| :: l.numbers[i] == i
  }

  /**
   * The output is the sent fragments up to the first number never taken in; the buffer holds
   * exactly what was taken in beyond it.
   */
  ghost predicate InOrder(l: Link) {
    && Tiled(l)
    && Concat(l.sent) == l.data
    && l.receiver.expected <= |l.sent|
    && l.output == l.sent[..l.receiver.expected]
    && l.receiver.expected !in l.kept
    && (forall k :: k in l.kept ==> k < |l.sent|)
    && (forall k: nat :: k < l.receiver.expected ==> k in l.kept)
    && (forall k :: k in l.receiver.buffer <==> k in l.kept && k > l.receiver.expected)
    && forall k :: k in l.receiver.buffer ==> l.receiver.buffer[k] == l.sent[k]
  }

  /** An awaited fragment puts out exactly the sent fragments up to the next gap. */
  lemma AwaitedPutsOutRun(l: Link, maxSize: nat)
    requires InOrder(l) && l.receiver.expected < |l.sent|
    ensures var sn := l.receiver.expected;
      var (after, out) := Inserted(l.receiver, maxSize, sn, l.sent[sn]);
      && sn < after.expected <= |l.sent|
      && Emit(out) == l.sent[sn..after.expected]
  {
    hide Concat;
    var r, sn := l.receiver, l.receiver.expected;
    var end := RunEnd(r.buffer, sn + 1);
    if end > sn + 1 {
      assert end - 1 in r.buffer;
    }
    assert [l.sent[sn]] + Slice(r.buffer, sn + 1, end) == l.sent[sn..end];
  }

  lemma AwaitedKeepsOrder(l: Link, maxSize: nat)
    requires InOrder(l) && l.receiver.expected < |l.sent|
    ensures InOrder(Next(l, maxSize, Arrive(l.receiver.expected)))
  {
    hide Concat, Emit;
    AwaitedPutsOutRun(l, maxSize);
    var sn := l.receiver.expected;
    var end := RunEnd(l.receiver.buffer, sn + 1);
    assert l.sent[..sn] + l.sent[sn..end] == l.sent[..end];
  }

  lemma ArrivalKeepsOrder(l: Link, maxSize: nat, sn: nat)
    requires InOrder(l) && sn < |l.sent|
    ensures InOrder(Next(l, maxSize, Arrive(sn)))
  {
    hide Concat, RunEnd;
    if sn == l.receiver.expected {
      AwaitedKeepsOrder(l, maxSize);
    } else {
      assert Emit(None) == [];
    }
  }

  lemma StepKeepsOrder(l: Link, maxSize: nat, step: Step)
    requires InOrder(l) && Enabled(l, step)
    ensures InOrder(Next(l, maxSize, step))
  {
    if step.Arrive? {
      ArrivalKeepsOrder(l, maxSize, step.i);
    } else {
      ConcatOfPieces(step.data, step.fragmentSize);
      ConcatAppend(l.sent, Pieces(step.data, step.fragmentSize));
    }
  }

  lemma {:induction false} RunKeepsOrder(l: Link, maxSize: nat, steps: seq<Step>, last: Link)
    requires InOrder(l) && Runs(l, maxSize, steps, last)
    ensures InOrder(last)
    decreases |steps|
  {
    if steps != [] {
      StepKeepsOrder(l, maxSize, steps[0]);
      RunKeepsOrder(Next(l, maxSize, steps[0]), maxSize, steps[1..], last);
    }
  }

  /**
   * In every run the numbers of successive sends tile; what has come out is the sent data, cut at
   * a fragment boundary, and it is all of the sent data as soon as, and only when, every fragment
   * has been taken in once.
   */
  lemma MultipathIsExact(maxSize: nat, steps: seq<Step>, last: Link)
    requires Runs(IDLE, maxSize, steps, last)
    ensures Tiled(last)
    ensures exists n: nat :: n <= |last.sent| && last.output == last.sent[..n]
    ensures Concat(last.output) <= last.data
    ensures last.output == last.sent <==> forall k: nat :: k < |last.sent| ==> k in last.kept
    ensures last.output == last.sent ==> Concat(last.output) == last.data
  {
    RunKeepsOrder(IDLE, maxSize, steps, last);
    var n := last.receiver.expected;
    ConcatAppend(last.sent[..n], last.sent[n..]);
    assert last.sent == last.sent[..n] + last.sent[n..];
    if last.output == last.sent {
      assert n == |last.sent|;
    }
  }

  /**
   * While at most one more fragment than the buffer holds is outstanding, nothing new is
   * refused: the capacity cannot be hit.
   */
  lemma {:induction false} SmallWindowLosesNothing(l: Link, maxSize: nat, sn: nat)
    requires InOrder(l) && sn < |l.sent| <= l.receiver.expected + maxSize + 1
    ensures sn in Next(l, maxSize, Arrive(sn)).kept
  {
    if Refused(l.receiver, maxSize, sn) && sn !in l.kept {
      var keys := l.receiver.buffer.Keys + {sn};
      assert |keys| == |l.receiver.buffer| + 1;
      Counting.KeysInRange(keys, l.receiver.expected + 1, |l.sent|);
    }
  }

  // ---------------------------------------------------------------------
  //  Skipping lost fragments
  // ---------------------------------------------------------------------

  datatype Event = Insert(sn: nat, data: Bytes) | Skip

  /** A receiver with the numbers it has put out and how far it has skipped in all. */
  datatype Receiver = Receiver(r: Reorder, emitted: seq<nat>, skipped: nat)

  const EMPTY: Receiver := Receiver(Reorder(map[], 0), [], 0)

  ghost predicate EventStep(a: Receiver, maxSize: nat, event: Event, b: Receiver) {
    match event
    case Insert(sn, data) =>
      var (r, out) := Inserted(a.r, maxSize, sn, data);
      && b.r == r && b.skipped == a.skipped
      && b.emitted == a.emitted + (if out == None then [] else Range(sn, sn + |out.value|))
    case Skip =>
      && b.emitted == a.emitted && b.skipped >= a.skipped
      && SkipsTo(a.r, b.r, b.skipped - a.skipped)
  }

  ghost predicate EventRun(states: seq<Receiver>, maxSize: nat, events: seq<Event>) {
    && |states| == |events| + 1
    && forall i: nat | i < |events| :: EventStep(states[i], maxSize, events[i], states[i + 1])
  }

  ghost predicate Increasing(s: seq<nat>) { forall i, j :: 0 <= i < j < |s| ==> s[i] < s[j] }

  ghost predicate Accounts(a: Receiver) {
    && Increasing(a.emitted)
    && (forall i :: 0 <= i < |a.emitted| ==> a.emitted[i] < a.r.expected)
    && a.r.expected == |a.emitted| + a.skipped
  }

  lemma EventKeepsAccounts(a: Receiver, maxSize: nat, event: Event, b: Receiver)
    requires Accounts(a) && EventStep(a, maxSize, event, b)
    ensures Accounts(b)
  {
  }

  /** Numbers come out strictly increasing, and every number below the awaited one came out or was skipped. */
  lemma {:induction false} EmissionIsOrdered(states: seq<Receiver>, maxSize: nat, events: seq<Event>, n: nat)
    requires EventRun(states, maxSize, events) && states[0] == EMPTY && n <= |events|
    ensures Accounts(states[n])
  {
    if n > 0 {
      EmissionIsOrdered(states, maxSize, events, n - 1);
      EventKeepsAccounts(states[n - 1], maxSize, events[n - 1], states[n]);
    }
  }

  /** As long as nothing is skipped, every buffered number lies above the awaited one. */
  lemma {:induction false} BufferedAboveAwaited(states: seq<Receiver>, maxSize: nat, events: seq<Event>, n: nat)
    requires EventRun(states, maxSize, events) && states[0] == EMPTY && n <= |events|
    requires states[n].skipped == 0
    ensures forall k :: k in states[n].r.buffer ==> k > states[n].r.expected
  {
    if n > 0 {
      assert EventStep(states[n - 1], maxSize, events[n - 1], states[n]);
      BufferedAboveAwaited(states, maxSize, events, n - 1);
    }
  }

  /** A fragment of this number arrives. */
  predicate Arrival(event: Event, sn: nat) { event.Insert? && event.sn == sn }

  lemma {:induction false} StaysStuck(states: seq<Receiver>, maxSize: nat, events: seq<Event>, n: nat)
    requires EventRun(states, maxSize, events) && n <= |events|
    requires states[0].r.expected in states[0].r.buffer
    requires forall i: nat | i < n :: !Arrival(events[i], states[0].r.expected)
    ensures states[n].emitted == states[0].emitted && states[n].r.expected == states[0].r.expected
    ensures states[n].r.expected in states[n].r.buffer
  {
    if n > 0 {
      StaysStuck(states, maxSize, events, n - 1);
      assert EventStep(states[n - 1], maxSize, events[n - 1], states[n]);
    }
  }

  lemma {:induction false} ArrivalUnsticks(states: seq<Receiver>, maxSize: nat, events: seq<Event>, n: nat, i: nat)
    requires EventRun(states, maxSize, events) && i < n <= |events|
    requires states[0].r.expected in states[0].r.buffer
    requires Arrival(events[i], states[0].r.expected)
    ensures states[n].r.expected > states[0].r.expected
  {
    assert EventStep(states[n - 1], maxSize, events[n - 1], states[n]);
    if j: nat :| j < n - 1 && Arrival(events[j], states[0].r.expected) {
      ArrivalUnsticks(states, maxSize, events, n - 1, j);
    } else {
      StaysStuck(states, maxSize, events, n - 1);
    }
  }

  /**
   * A skip that moves stops at a buffered number, yet that buffered copy is not put out:
   * something comes out, or the awaited number moves, exactly when that fragment arrives once more.
   */
  lemma SkippedToIsStuck(states: seq<Receiver>, maxSize: nat, events: seq<Event>, n: nat)
    requires EventRun(states, maxSize, events) && n <= |events|
    requires states[0].r.expected in states[0].r.buffer
    ensures states[n].emitted != states[0].emitted || states[n].r.expected != states[0].r.expected <==>
      exists i: nat :: i < n && Arrival(events[i], states[0].r.expected)
  {
    if i: nat :| i < n && Arrival(events[i], states[0].r.expected) {
      ArrivalUnsticks(states, maxSize, events, n, i);
    } else {
      StaysStuck(states, maxSize, events, n);
    }
  }

  lemma {:induction false} LeastKey(buffer: map<nat, Bytes>) returns (m: nat)
    requires buffer != map[]
    ensures IsMinKey(m, buffer)
    decreases buffer.Keys
  {
    var a :| a in buffer;
    var rest := buffer - {a};
    m := a;
    if rest != map[] {
      var k := LeastKey(rest);
      m := if k < a then k else a;
    }
    assert forall x | x in buffer :: x == a || x in rest;
  }

  /** A skip moves exactly if something is buffered and all of it lies above the awaited number. */
  lemma SkipMovesIff(a: Receiver, maxSize: nat, b: Receiver)
    requires EventStep(a, maxSize, Skip, b)
    ensures b.skipped > a.skipped <==> a.r.buffer != map[] && forall k | k in a.r.buffer :: k > a.r.expected
  {
    if a.r.buffer != map[] {
      var m := LeastKey(a.r.buffer);
    }
  }

  /** A buffered number that the awaited one has passed. */
  ghost predicate HasStale(r: Reorder) { exists k :: k in r.buffer && k < r.expected }

  /** The awaited fragment arrives while a copy of it is buffered. */
  predicate HitsBuffered(r: Reorder, event: Event) { Arrival(event, r.expected) && r.expected in r.buffer }

  lemma StaleStep(a: Receiver, maxSize: nat, event: Event, b: Receiver)
    requires EventStep(a, maxSize, event, b)
    ensures HasStale(b.r) <==> HasStale(a.r) || HitsBuffered(a.r, event)
  {
    if event.Insert? {
      InsertStale(a.r, maxSize, event.sn, event.data);
    } else if HasStale(a.r) {
      var k :| k in a.r.buffer && k < a.r.expected;
      assert k in b.r.buffer && k < b.r.expected;
    }
  }

  lemma InsertStale(r: Reorder, maxSize: nat, sn: nat, data: Bytes)
    ensures HasStale(Inserted(r, maxSize, sn, data).0) <==> HasStale(r) || (sn == r.expected && sn in r.buffer)
  {
    var after := Inserted(r, maxSize, sn, data).0;
    if k :| k in r.buffer && k < r.expected {
      assert k in after.buffer && k < after.expected;
    }
    if sn == r.expected && sn in r.buffer {
      assert sn in after.buffer && sn < after.expected;
    }
  }

  /**
   * A run leaves a stale number exactly if some awaited fragment arrived while a copy was
   * buffered, or there was one before.
   */
  lemma {:induction false} StaleIff(states: seq<Receiver>, maxSize: nat, events: seq<Event>, n: nat)
    requires EventRun(states, maxSize, events) && n <= |events|
    ensures HasStale(states[n].r) <==>
      HasStale(states[0].r) || exists i: nat :: i < n && HitsBuffered(states[i].r, events[i])
  {
    hide HasStale, HitsBuffered;
    if n > 0 {
      StaleIff(states, maxSize, events, n - 1);
      StaleStep(states[n - 1], maxSize, events[n - 1], states[n]);
    }
  }

  /** A stale number stays stale, and no later skip moves at all. */
  lemma {:induction false} StaleNumberEndsSkipping(
      states: seq<Receiver>, maxSize: nat, events: seq<Event>, n: nat, stale: nat)
    requires EventRun(states, maxSize, events) && n <= |events|
    requires stale in states[0].r.buffer && stale < states[0].r.expected
    ensures stale in states[n].r.buffer && stale < states[n].r.expected
    ensures states[n].skipped == states[0].skipped
  {
    if n > 0 {
      StaleNumberEndsSkipping(states, maxSize, events, n - 1, stale);
      assert EventStep(states[n - 1], maxSize, events[n - 1], states[n]);
    }
  }

  /** A buffered number at or below the awaited one: no skip can move. */
  ghost predicate Blocked(r: Reorder) { exists k :: k in r.buffer && k <= r.expected }

  lemma BlockedStep(a: Receiver, maxSize: nat, event: Event, b: Receiver)
    requires EventStep(a, maxSize, event, b) && Blocked(a.r)
    ensures Blocked(b.r) && b.skipped == a.skipped
  {
    var k :| k in a.r.buffer && k <= a.r.expected;
    if event.Skip? {
      SkipMovesIff(a, maxSize, b);
    }
    assert k in b.r.buffer && k <= b.r.expected;
  }

  lemma {:induction false} BlockedForGood(states: seq<Receiver>, maxSize: nat, events: seq<Event>, n: nat)
    requires EventRun(states, maxSize, events) && n <= |events| && Blocked(states[0].r)
    ensures Blocked(states[n].r) && states[n].skipped == states[0].skipped
  {
    hide Blocked;
    if n > 0 {
      BlockedForGood(states, maxSize, events, n - 1);
      BlockedStep(states[n - 1], maxSize, events[n - 1], states[n]);
    }
  }

  /** Some continuation contains a skip that moves. */
  ghost predicate CanStillSkip(a: Receiver, maxSize: nat) {
    exists states: seq<Receiver>, events ::
      EventRun(states, maxSize, events) && states[0] == a && states[|events|].skipped > a.skipped
  }

  /**
   * Skipping is over for good exactly when a buffered number is not above the awaited one:
   * stale, or the very number a skip stopped at.
   */
  lemma SkippingIsOverIff(a: Receiver, maxSize: nat)
    requires maxSize > 0
    ensures CanStillSkip(a, maxSize) <==> !Blocked(a.r)
  {
    if Blocked(a.r) {
      forall states: seq<Receiver>, events | EventRun(states, maxSize, events) && states[0] == a
        ensures states[|events|].skipped == a.skipped
      {
        BlockedForGood(states, maxSize, events, |events|);
      }
    } else {
      var first := if a.r.buffer == map[] then [Insert(a.r.expected + 1, [])] else [];
      var held := if a.r.buffer == map[] then a.r.(buffer := map[a.r.expected + 1 := []]) else a.r;
      var b := a.(r := held);
      assert a.r.buffer == map[] ==> EventStep(a, maxSize, first[0], b);
      var m := LeastKey(held.buffer);
      var c := Receiver(held.(expected := m), a.emitted, a.skipped + (m - a.r.expected));
      assert EventStep(b, maxSize, Skip, c);
      var states, events := if first == [] then [b, c] else [a, b, c], first + [Skip];
      assert EventRun(states, maxSize, events) && states[0] == a && states[|events|].skipped > a.skipped;
    }
  }

  lemma {:induction false} BlockedIffSkipped(states: seq<Receiver>, maxSize: nat, events: seq<Event>, n: nat)
    requires EventRun(states, maxSize, events) && states[0] == EMPTY && n <= |events|
    ensures Blocked(states[n].r) <==> states[n].skipped > 0
  {
    if n > 0 {
      BlockedIffSkipped(states, maxSize, events, n - 1);
      assert EventStep(states[n - 1], maxSize, events[n - 1], states[n]);
      if Blocked(states[n - 1].r) {
        BlockedStep(states[n - 1], maxSize, events[n - 1], states[n]);
      } else if states[n].skipped > 0 {
        assert IsMinKey(states[n].r.expected, states[n].r.buffer);
      } else {
        BufferedAboveAwaited(states, maxSize, events, n);
      }
    }
  }

  /**
   * A receiver skips once in its life: from an empty buffer a skip moves exactly if something
   * is buffered and no skip has moved before.
   */
  lemma SkipsOnlyOnce(states: seq<Receiver>, maxSize: nat, events: seq<Event>, n: nat)
    requires EventRun(states, maxSize, events) && states[0] == EMPTY && n < |events|
    ensures states[n + 1].skipped > states[n].skipped <==>
      events[n] == Skip && states[n].r.buffer != map[] && states[n].skipped == 0
  {
    BlockedIffSkipped(states, maxSize, events, n);
    assert EventStep(states[n], maxSize, events[n], states[n + 1]);
    if events[n] == Skip {
      SkipMovesIff(states[n], maxSize, states[n + 1]);
    }
  }

  /** Both happen in a run of three events: fragment 1 is early, 0 is skipped, 1 arrives again. */
  lemma SkippingLeavesStaleNumber(data: Bytes, maxSize: nat) returns (states: seq<Receiver>)
    requires maxSize > 0
    ensures EventRun(states, maxSize, [Insert(1, data), Skip, Insert(1, data)]) && states[0] == EMPTY
    ensures states[2] == Receiver(Reorder(map[1 := data], 1), [], 1)
    ensures states[3] == Receiver(Reorder(map[1 := data], 2), [1], 1)
  {
    var held := map[1 := data];
    states := [EMPTY, Receiver(Reorder(held, 0), [], 0), Receiver(Reorder(held, 1), [], 1),
               Receiver(Reorder(held, 2), [1], 1)];
    var events := [Insert(1, data), Skip, Insert(1, data)];
    assert IsMinKey(1, held);
    assert EventStep(states[0], maxSize, events[0], states[1]);
    assert EventStep(states[1], maxSize, events[1], states[2]);
    assert RunEnd(held, 2) == 2;
    assert EventStep(states[2], maxSize, events[2], states[3]);
    assert EventRun(states, maxSize, events);
  }
}
