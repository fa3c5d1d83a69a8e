/** Whole runs of the download bookkeeping and of its reorder buffer (src/storage/download.rs). */
module DownloadRuns {
  import opened Wrappers
  import opened Download
  import Counting

  // ---------------------------------------------------------------------
  //  Reorder buffer
  // ---------------------------------------------------------------------

  datatype Event = Push(index: nat, data: Bytes) | Drain

  /** A buffer, everything drained from it, and the first data it accepted for each index. */
  datatype Receiver = Receiver(buffer: Buffer, drained: seq<(nat, Bytes)>, accepted: map<nat, Bytes>)

  function Received(r: Receiver, event: Event): Receiver {
    match event
    case Push(index, data) =>
      var (buffer, result) := Pushed(r.buffer, index, data);
      r.(buffer := buffer,
         accepted := if result.Ok? && index !in r.accepted then r.accepted[index := data] else r.accepted)
    case Drain =>
      var (buffer, out) := Drained(r.buffer);
      r.(buffer := buffer, drained := r.drained + out)
  }

  function AllReceived(r: Receiver, events: seq<Event>): Receiver
    decreases |events|
  {
    if events == [] then r else AllReceived(Received(r, events[0]), events[1..])
  }

  /** What has been drained is 0, 1, 2, … with first-accepted data; what is next is buffered as first accepted. */
  ghost predicate DrainedInOrder(r: Receiver) {
    && r.buffer.nextExpected == |r.drained| <= r.buffer.expectedCount
    && (forall k | 0 <= k < |r.drained| ::
        r.drained[k].0 == k && k in r.accepted && r.drained[k].1 == r.accepted[k])
    && (forall k | k in r.accepted :: k < r.buffer.expectedCount)
    && (forall k | k in r.buffer.blocks :: k in r.accepted)
    && forall k | k in r.accepted && k >= |r.drained| :: k in r.buffer.blocks && r.buffer.blocks[k] == r.accepted[k]
  }

  lemma PushKeepsOrder(r: Receiver, index: nat, data: Bytes)
    requires DrainedInOrder(r)
    ensures DrainedInOrder(Received(r, Push(index, data)))
  {
  }

  lemma DrainKeepsOrder(r: Receiver)
    requires DrainedInOrder(r)
    ensures DrainedInOrder(Received(r, Drain)) && |Received(r, Drain).drained| !in r.accepted
  {
    hide Ready;
    var out := Ready(r.buffer.blocks, r.buffer.nextExpected);
    assert forall i | 0 <= i < |out| :: out[i].0 in r.accepted;
    if out != [] {
      assert out[|out| - 1].0 == r.buffer.nextExpected + |out| - 1;
    }
  }

  lemma EventKeepsOrder(r: Receiver, event: Event)
    requires DrainedInOrder(r)
    ensures DrainedInOrder(Received(r, event))
    ensures event.Drain? ==> |Received(r, event).drained| !in r.accepted
  {
    hide DrainedInOrder, Received;
    match event
    case Push(index, data) => PushKeepsOrder(r, index, data);
    case Drain => DrainKeepsOrder(r);
  }

  /**
   * Any interleaving of pushes and drains drains 0, 1, 2, … in order, each with the first data
   * accepted for it; a drain stops exactly at the first index never accepted.
   */
  lemma {:induction false} DrainsAreExact(r: Receiver, events: seq<Event>)
    requires DrainedInOrder(r)
    ensures var last := AllReceived(r, events);
      && DrainedInOrder(last)
      && var after := Received(last, Drain);
      && DrainedInOrder(after) && |after.drained| !in last.accepted
      && forall k: nat | k < |after.drained| :: k in last.accepted && after.drained[k] == (k, last.accepted[k])
    decreases |events|
  {
    if events == [] {
      EventKeepsOrder(r, Drain);
      var after := Received(r, Drain);
      assert forall k: nat | k < |after.drained| :: after.drained[k] == (after.drained[k].0, after.drained[k].1);
    } else {
      EventKeepsOrder(r, events[0]);
      DrainsAreExact(Received(r, events[0]), events[1..]);
    }
  }

  /** Counting the buffered blocks is enough: the file can be assembled exactly when all are buffered. */
  lemma CanAssembleIffAllBuffered(r: Receiver, events: seq<Event>)
    requires DrainedInOrder(r)
    ensures var buffer := AllReceived(r, events).buffer;
      CanAssemble(buffer) <==> forall k: nat | k < buffer.expectedCount :: k in buffer.blocks
  {
    DrainsAreExact(r, events);
    var buffer := AllReceived(r, events).buffer;
    assert |buffer.blocks| == |buffer.blocks.Keys|;
    Counting.FullRange(buffer.blocks.Keys, buffer.expectedCount);
  }

  // ---------------------------------------------------------------------
  //  Node loads
  // ---------------------------------------------------------------------

  const NO_DOWNLOADS: State := State(map[], map[], false)

  /** The blocks of one task in the hands of a node. */
  function HeldIn(assignments: map<nat, string>, node: string): set<nat> {
    set b | b in assignments && assignments[b] == node
  }

  /** The (file, block) pairs currently assigned to a node. */
  function Held(tasks: Tasks, node: string): set<(string, nat)> {
    set f, b | f in tasks && b in tasks[f].assignments && tasks[f].assignments[b] == node :: (f, b)
  }

  function HeldOf(tasks: Tasks, file: string, node: string): nat {
    if file in tasks then |HeldIn(tasks[file].assignments, node)| else 0
  }

  /** The load an operation leaves behind: assignments dropped, or never recorded, without a release. */
  function Leak(s: State, op: Op, node: string): nat {
    if s.poisoned then 0
    else match op
      case Create(file, _, _) => HeldOf(s.tasks, file, node)
      case Cancel(file) => HeldOf(s.tasks, file, node)
      case Assign(file, block, to) =>
        if file !in s.tasks then (if to == node then 1 else 0)
        else if block in s.tasks[file].completed then 0
        else if AssignedTo(s.tasks, file, block) == Some(node) then 1
        else 0
      case Complete(_, _, _) => 0
      case Fail(_, _) => 0
  }

  /** How far a node's load exceeds what it holds. */
  function Slack(s: State, node: string): int { LoadOf(s.load, node) - |Held(s.tasks, node)| }

  function Pairs(file: string, blocks: set<nat>): set<(string, nat)> { set b | b in blocks :: (file, b) }

  lemma {:induction false} PairsCount(file: string, blocks: set<nat>)
    ensures |Pairs(file, blocks)| == |blocks|
    decreases |blocks|
  {
    if blocks != {} {
      var b :| b in blocks;
      PairsCount(file, blocks - {b});
      assert Pairs(file, blocks) == Pairs(file, blocks - {b}) + {(file, b)};
    }
  }

  /** Changing one task changes what a node holds by what it holds of that task. */
  lemma HeldAfter(tasks: Tasks, file: string, after: Tasks, node: string)
    requires forall f | f != file :: (f in tasks <==> f in after) && (f in tasks && f in after ==> tasks[f] == after[f])
    ensures |Held(after, node)| == |Held(tasks, node)| - HeldOf(tasks, file, node) + HeldOf(after, file, node)
  {
    HeldSplits(tasks, file, node);
    HeldSplits(after, file, node);
    assert Held(tasks - {file}, node) == Held(after - {file}, node);
  }

  lemma HeldIsUnion(tasks: Tasks, file: string, node: string)
    requires file in tasks
    ensures Held(tasks, node) == Held(tasks - {file}, node) + Pairs(file, HeldIn(tasks[file].assignments, node))
    ensures Held(tasks - {file}, node) !! Pairs(file, HeldIn(tasks[file].assignments, node))
  {
  }

  lemma HeldSplits(tasks: Tasks, file: string, node: string)
    ensures |Held(tasks, node)| == |Held(tasks - {file}, node)| + HeldOf(tasks, file, node)
  {
    hide Held, HeldIn, Pairs;
    if file in tasks {
      HeldIsUnion(tasks, file, node);
      PairsCount(file, HeldIn(tasks[file].assignments, node));
    } else {
      assert tasks - {file} == tasks;
    }
  }

  lemma HeldInDrops(m: map<nat, string>, block: nat, node: string)
    ensures |HeldIn(m - {block}, node)| == |HeldIn(m, node)| -
      (if block in m && m[block] == node then 1 else 0)
  {
    var before, after := HeldIn(m, node), HeldIn(m - {block}, node);
    if block in m && m[block] == node {
      assert before == after + {block};
    } else {
      assert before == after;
    }
  }

  lemma HeldInGains(m: map<nat, string>, block: nat, to: string, node: string)
    ensures |HeldIn(m[block := to], node)| == |HeldIn(m, node)| + (if to == node then 1 else 0) -
      (if block in m && m[block] == node then 1 else 0)
  {
    HeldInDrops(m, block, node);
    var before, after := HeldIn(m - {block}, node), HeldIn(m[block := to], node);
    if to == node {
      assert after == before + {block};
    } else {
      assert after == before;
    }
  }

  lemma ReleasedLoad(load: Loads, from: string, node: string)
    ensures LoadOf(Released(load, from), node) ==
      if from == node && LoadOf(load, node) > 0 then LoadOf(load, node) - 1 else LoadOf(load, node)
  {
  }

  lemma HolderIsCounted(tasks: Tasks, file: string, block: nat, node: string)
    requires AssignedTo(tasks, file, block) == Some(node)
    ensures |Held(tasks, node)| > 0
  {
    assert (file, block) in Held(tasks, node);
  }

  /** Completing or failing a block takes it off its holder, and off its load. */
  lemma ReleaseBalances(s: State, file: string, block: nat, t: Task, node: string)
    requires file in s.tasks && t.assignments == s.tasks[file].assignments - {block}
    requires Slack(s, node) >= 0
    ensures LoadOf(ReleasedIf(s.load, AssignedTo(s.tasks, file, block)), node) -
      |Held(s.tasks[file := t], node)| == Slack(s, node)
  {
    hide Held, HeldIn, Released;
    HeldAfter(s.tasks, file, s.tasks[file := t], node);
    HeldInDrops(s.tasks[file].assignments, block, node);
    var holder := AssignedTo(s.tasks, file, block);
    if holder.Some? {
      ReleasedLoad(s.load, holder.value, node);
      if holder.value == node {
        HolderIsCounted(s.tasks, file, block, node);
      }
    }
  }

  lemma AssignBalances(s: State, file: string, block: nat, to: string, node: string)
    requires file in s.tasks && !s.poisoned
    ensures Slack(Apply(s, Assign(file, block, to)).0, node) == Slack(s, node) + Leak(s, Assign(file, block, to), node)
  {
    hide Held, HeldIn;
    if block !in s.tasks[file].completed {
      var t := s.tasks[file].(assignments := s.tasks[file].assignments[block := to]);
      HeldAfter(s.tasks, file, s.tasks[file := t], node);
      HeldInGains(s.tasks[file].assignments, block, to, node);
    }
  }

  /** Load is conserved: an operation changes a node's slack by exactly what it leaks. */
  lemma OpConservesLoad(s: State, op: Op, node: string)
    requires Slack(s, node) >= 0
    ensures Slack(Apply(s, op).0, node) == Slack(s, node) + Leak(s, op, node)
  {
    hide Held, HeldIn, CompletedTask, FailedTask, ReleasedIf;
    if !s.poisoned {
      match op
      case Create(file, size, sources) =>
        HeldAfter(s.tasks, file, s.tasks[file := NewTask(size, sources)], node);
        NewTaskHoldsNothing(size, sources, node);
      case Cancel(file) =>
        HeldAfter(s.tasks, file, s.tasks - {file}, node);
      case Assign(file, block, to) =>
        if file in s.tasks {
          AssignBalances(s, file, block, to, node);
        }
      case Complete(file, block, data) =>
        if file in s.tasks {
          CompletedDrops(s.tasks[file], block, data);
          ReleaseBalances(s, file, block, CompletedTask(s.tasks[file], block, data).0, node);
        }
      case Fail(file, block) =>
        if file in s.tasks {
          FailedDrops(s.tasks[file], block);
          ReleaseBalances(s, file, block, FailedTask(s.tasks[file], block).0, node);
        }
    }
  }

  lemma NewTaskHoldsNothing(size: nat, sources: map<nat, seq<string>>, node: string)
    ensures |HeldIn(NewTask(size, sources).assignments, node)| == 0
  {
    assert HeldIn(map[], node) == {};
  }

  lemma CompletedDrops(t: Task, block: nat, data: Bytes)
    ensures CompletedTask(t, block, data).0.assignments == t.assignments - {block}
  {
  }

  lemma FailedDrops(t: Task, block: nat)
    ensures FailedTask(t, block).0.assignments == t.assignments - {block}
  {
  }

  function Execute(s: State, run: seq<Op>): State
    decreases |run|
  {
    if run == [] then s else Execute(Apply(s, run[0]).0, run[1..])
  }

  function TotalLeak(s: State, run: seq<Op>, node: string): nat
    decreases |run|
  {
    if run == [] then 0 else Leak(s, run[0], node) + TotalLeak(Apply(s, run[0]).0, run[1..], node)
  }

  /**
   * In every run a node's load is the number of blocks assigned to it plus everything leaked:
   * never less, and equal exactly when nothing has leaked.
   */
  lemma {:induction false} LoadIsAssignedPlusLeaks(s: State, run: seq<Op>, node: string)
    requires Slack(s, node) >= 0
    ensures Slack(Execute(s, run), node) == Slack(s, node) + TotalLeak(s, run, node)
    decreases |run|
  {
    hide Slack, Apply, Leak;
    if run != [] {
      OpConservesLoad(s, run[0], node);
      LoadIsAssignedPlusLeaks(Apply(s, run[0]).0, run[1..], node);
    }
  }

  ghost predicate NoIdleEntry(load: Loads) { forall node | node in load :: load[node] > 0 }

  lemma OpKeepsEntries(s: State, op: Op)
    requires NoIdleEntry(s.load)
    ensures NoIdleEntry(Apply(s, op).0.load)
  {
    hide CompletedTask, FailedTask;
  }

  /** In every run a node is in the load table exactly while its load is positive. */
  lemma {:induction false} NoIdleEntries(s: State, run: seq<Op>)
    requires NoIdleEntry(s.load)
    ensures forall node :: node in Execute(s, run).load <==> LoadOf(Execute(s, run).load, node) > 0
    ensures NoIdleEntry(Execute(s, run).load)
    decreases |run|
  {
    hide Apply;
    if run != [] {
      OpKeepsEntries(s, run[0]);
      NoIdleEntries(Apply(s, run[0]).0, run[1..]);
    }
  }

  lemma LoadFromStart(run: seq<Op>, node: string)
    ensures LoadOf(Execute(NO_DOWNLOADS, run).load, node) ==
      |Held(Execute(NO_DOWNLOADS, run).tasks, node)| + TotalLeak(NO_DOWNLOADS, run, node)
  {
    assert Held(map[], node) == {};
    LoadIsAssignedPlusLeaks(NO_DOWNLOADS, run, node);
  }

  // ---------------------------------------------------------------------
  //  Tasks
  // ---------------------------------------------------------------------

  /** The buffer holds exactly the completed blocks that exist. */
  ghost predicate TaskInv(t: Task) {
    && t.buffer.expectedCount == |t.blockSources| && t.buffer.nextExpected == 0
    && forall k :: k in t.buffer.blocks <==> k in t.completed && k < |t.blockSources|
  }

  ghost predicate TasksInv(s: State) { forall file | file in s.tasks :: TaskInv(s.tasks[file]) }

  lemma OpKeepsTasks(s: State, op: Op)
    requires TasksInv(s)
    ensures TasksInv(Apply(s, op).0)
    ensures op.Complete? ==> Apply(s, op).1 != Err(Panicked)
  {
    hide TaskInv, CompletedTask, FailedTask;
    match op
    case Create(file, size, sources) => NewTaskInv(size, sources);
    case Cancel(_) =>
    case Assign(file, block, node) =>
      if file in s.tasks {
        ReassignKeepsTask(s.tasks[file], s.tasks[file].assignments[block := node]);
      }
    case Complete(file, block, data) =>
      if file in s.tasks {
        CompleteKeepsTask(s.tasks[file], block, data);
      }
    case Fail(file, block) =>
      if file in s.tasks {
        FailKeepsTask(s.tasks[file], block);
      }
  }

  lemma NewTaskInv(size: nat, sources: map<nat, seq<string>>)
    ensures TaskInv(NewTask(size, sources))
  {
  }

  lemma ReassignKeepsTask(t: Task, assignments: map<nat, string>)
    requires TaskInv(t)
    ensures TaskInv(t.(assignments := assignments))
  {
  }

  lemma PushEffect(b: Buffer, index: nat, data: Bytes)
    ensures var (after, r) := Pushed(b, index, data);
      && (r.Ok? <==> index < b.expectedCount && index !in b.blocks)
      && (r.Err? ==> after == b)
      && after.expectedCount == b.expectedCount && after.nextExpected == b.nextExpected
      && (r.Ok? ==> after.blocks == b.blocks[index := data] && after.blocks.Keys == b.blocks.Keys + {index})
      && r != Err(Panicked)
  {
  }

  lemma OnlyRefusedFails(t: Task, block: nat, data: Bytes)
    requires TaskInv(t) && Pushed(t.buffer, block, data).1.Ok?
    ensures CompletedTask(t, block, data).1.Ok?
  {
    PushEffect(t.buffer, block, data);
    hide Estimated, Fraction, CanAssemble, Pushed;
  }

  lemma AcceptedFields(t: Task, block: nat, data: Bytes)
    requires TaskInv(t) && CompletedTask(t, block, data).1.Ok?
    ensures var after := CompletedTask(t, block, data).0;
      && |t.blockSources| > 0 && after.blockSources == t.blockSources
      && block !in t.completed && block !in t.buffer.blocks
      && after.completed == t.completed + {block} && after.progress.completedBlocks == |after.completed|
      && after.buffer.blocks.Keys == t.buffer.blocks.Keys + {block} && block < |t.blockSources|
      && after.buffer.expectedCount == t.buffer.expectedCount && after.buffer.nextExpected == 0
      && after.status.Downloading?
      && after.status.fraction ==
        if |after.buffer.blocks| == |t.blockSources| then 1.0 else Fraction(|after.completed|, |t.blockSources|)
  {
    PushEffect(t.buffer, block, data);
    hide Estimated, Fraction, Pushed;
  }

  lemma CompleteKeepsTask(t: Task, block: nat, data: Bytes)
    requires TaskInv(t)
    ensures TaskInv(CompletedTask(t, block, data).0) && CompletedTask(t, block, data).1 != Err(Panicked)
  {
    PushEffect(t.buffer, block, data);
    if Pushed(t.buffer, block, data).1.Ok? {
      OnlyRefusedFails(t, block, data);
      AcceptedFields(t, block, data);
      hide CompletedTask, Pushed;
    } else {
      hide Estimated, Fraction, CanAssemble, Pushed;
    }
  }

  lemma FailKeepsTask(t: Task, block: nat)
    requires TaskInv(t)
    ensures TaskInv(FailedTask(t, block).0)
  {
    hide Estimated, FailedNodes;
  }

  /** In every run the buffered blocks of a task are its completed blocks in range, and completing never panics. */
  lemma {:induction false} BufferIsCompleted(s: State, run: seq<Op>)
    requires TasksInv(s)
    ensures TasksInv(Execute(s, run))
    decreases |run|
  {
    hide Apply, TasksInv;
    if run != [] {
      OpKeepsTasks(s, run[0]);
      BufferIsCompleted(Apply(s, run[0]).0, run[1..]);
    }
  }

  lemma CompletedFrame(t: Task, block: nat, data: Bytes)
    ensures CompletedTask(t, block, data).0.blockSources == t.blockSources
  {
  }

  /** A completed block is fully reported, fraction 1, exactly if every block of the file is completed. */
  lemma AssemblyIsCompletion(t: Task, block: nat, data: Bytes)
    requires TaskInv(t)
    ensures var after := CompletedTask(t, block, data).0;
      CanAssemble(after.buffer) <==> forall k: nat | k < |t.blockSources| :: k in after.completed
  {
    CompleteKeepsTask(t, block, data);
    CompletedFrame(t, block, data);
    hide CompletedTask;
    var after := CompletedTask(t, block, data).0;
    assert |after.buffer.blocks| == |after.buffer.blocks.Keys|;
    Counting.FullRange(after.buffer.blocks.Keys, |t.blockSources|);
  }

  /** In reachable states exactly one thing panics: failing a block of a file without sources after completing one. */
  lemma PanicsIff(s: State, op: Op)
    requires TasksInv(s) && !s.poisoned
    ensures Apply(s, op).0.poisoned <==>
      op.Fail? && op.file in s.tasks && EstimatePanics(s.tasks[op.file])
  {
    OpKeepsTasks(s, op);
  }

  /** Three operations get there: the block of a file without sources is refused, yet counted as completed. */
  lemma ThreeOperationsPanic(file: string, size: nat, block: nat, data: Bytes)
    ensures var run := [Create(file, size, map[]), Complete(file, block, data), Fail(file, block)];
      Execute(NO_DOWNLOADS, run).poisoned
  {
    var run := [Create(file, size, map[]), Complete(file, block, data), Fail(file, block)];
    var s1 := Apply(NO_DOWNLOADS, run[0]).0;
    var s2 := Apply(s1, run[1]).0;
    assert block in s2.tasks[file].completed;
    var s3 := Apply(s2, run[2]).0;
    assert run[1..][0] == run[1] && run[1..][1..] == [run[2]];
    assert Execute(s2, [run[2]]) == Execute(s3, []);
  }

  /** Blocks that have failed at least once, counting this failure. */
  function FailedCount(t: Task, block: nat): nat { |t.failed| + (if block in t.failed then 0 else 1) }

  /** A failing block fails the download exactly from the third failed block on. */
  lemma FailsFromThird(t: Task, block: nat)
    requires !t.status.Failed?
    ensures FailedTask(t, block).0.status.Failed? <==> FailedCount(t, block) >= 3
  {
    var after := t.failed[block := FailedNodes(t, block)];
    assert after.Keys == t.failed.Keys + {block};
    assert |after| == |after.Keys| && |t.failed| == |t.failed.Keys|;
  }

  /** The documented rule, more than three, differs at the third failed block and nowhere else. */
  lemma DocumentedLimitDiffersIff(t: Task, block: nat)
    requires !t.status.Failed?
    ensures (FailedTask(t, block).0.status.Failed? <==> FailedCount(t, block) > MAX_FAILED_BLOCKS) <==>
      FailedCount(t, block) != 3
  {
    FailsFromThird(t, block);
  }

  /** One failing block, nothing completed: what the download is left with. */
  lemma FailureOf(t: Task, block: nat)
    requires t.completed == {} && block !in t.failed && TaskInv(t)
    ensures var (after, r) := FailedTask(t, block);
      && r.Ok? && TaskInv(after) && after.completed == {} && after.blockSources == t.blockSources
      && after.failed.Keys == t.failed.Keys + {block} && |after.failed| == |t.failed| + 1
      && (after.status.Failed? <==> t.status.Failed? || |t.failed| >= 2)
  {
    var after := t.failed[block := FailedNodes(t, block)];
    assert after.Keys == t.failed.Keys + {block};
    assert |after| == |after.Keys| && |t.failed| == |t.failed.Keys|;
  }

  lemma {:induction false} ExecuteLast(s: State, run: seq<Op>, op: Op)
    ensures Execute(s, run + [op]) == Apply(Execute(s, run), op).0
    decreases |run|
  {
    hide Apply;
    if run == [] {
      assert [] + [op] == [op] && [op][1..] == [];
      assert Execute(s, [op]) == Execute(Apply(s, op).0, []);
    } else {
      assert (run + [op])[1..] == run[1..] + [op];
      ExecuteLast(Apply(s, run[0]).0, run[1..], op);
    }
  }

  /** A file of four blocks after its first n blocks have failed. */
  function Failures(file: string, size: nat, sources: map<nat, seq<string>>, n: nat): seq<Op> {
    if n == 0 then [Create(file, size, sources)] else Failures(file, size, sources, n - 1) + [Fail(file, n - 1)]
  }

  ghost predicate FailedSoFar(t: Task, sources: map<nat, seq<string>>, n: nat) {
    && TaskInv(t) && t.completed == {} && t.blockSources == sources
    && (forall b | b in t.failed.Keys :: b < n) && |t.failed| == n && (t.status.Failed? <==> n >= 3)
  }

  lemma OneMoreFailure(t: Task, sources: map<nat, seq<string>>, n: nat)
    requires FailedSoFar(t, sources, n)
    ensures FailedTask(t, n).1.Ok? && FailedSoFar(FailedTask(t, n).0, sources, n + 1)
  {
    hide FailedTask, TaskInv;
    FailureOf(t, n);
    OneMoreBelow(t.failed.Keys, n);
  }

  lemma OneMoreBelow(blocks: set<nat>, n: nat)
    requires forall b | b in blocks :: b < n
    ensures forall b | b in blocks + {n} :: b < n + 1
    ensures n !in blocks
  {
  }

  lemma {:induction false} AfterFailures(file: string, size: nat, sources: map<nat, seq<string>>, n: nat)
    ensures var s := Execute(NO_DOWNLOADS, Failures(file, size, sources, n));
      !s.poisoned && file in s.tasks && FailedSoFar(s.tasks[file], sources, n)
  {
    hide FailedTask, CompletedTask, Execute;
    if n == 0 {
      NewTaskInv(size, sources);
      assert [] + [Create(file, size, sources)] == Failures(file, size, sources, 0);
      ExecuteLast(NO_DOWNLOADS, [], Create(file, size, sources));
      NothingExecuted(NO_DOWNLOADS);
    } else {
      hide FailedSoFar;
      AfterFailures(file, size, sources, n - 1);
      var before := Execute(NO_DOWNLOADS, Failures(file, size, sources, n - 1));
      ExecuteLast(NO_DOWNLOADS, Failures(file, size, sources, n - 1), Fail(file, n - 1));
      OneMoreFailure(before.tasks[file], sources, n - 1);
    }
  }

  lemma NothingExecuted(s: State)
    ensures Execute(s, []) == s
  {
  }

  /** A failed download that comes back: from an empty manager, three of four blocks fail, the fourth arrives. */
  lemma FourthBlockRevives(file: string, size: nat, sources: map<nat, seq<string>>, data: Bytes)
    requires sources.Keys == {0, 1, 2, 3}
    ensures var run := Failures(file, size, sources, 3);
      && file in Execute(NO_DOWNLOADS, run).tasks && Execute(NO_DOWNLOADS, run).tasks[file].status.Failed?
      && var after := Execute(NO_DOWNLOADS, run + [Complete(file, 3, data)]);
      file in after.tasks && after.tasks[file].status.Downloading?
  {
    hide FailedTask, CompletedTask, Execute;
    var run := Failures(file, size, sources, 3);
    AfterFailures(file, size, sources, 3);
    ExecuteLast(NO_DOWNLOADS, run, Complete(file, 3, data));
    assert |sources| == |sources.Keys| == 4;
    AcceptedIsDownloading(Execute(NO_DOWNLOADS, run).tasks[file], 3, data);
  }

  lemma AcceptedIsDownloading(t: Task, block: nat, data: Bytes)
    requires TaskInv(t) && block < |t.blockSources| && block !in t.completed
    ensures CompletedTask(t, block, data).0.status.Downloading?
  {
  }

  /** A failed download stops being failed exactly when one more of its blocks is accepted. */
  lemma FailureIsRevokedIff(t: Task, op: Op)
    requires t.status.Failed? && (op.Complete? || op.Fail?) && TaskInv(t)
    ensures var after := if op.Complete? then CompletedTask(t, op.block, op.data).0 else FailedTask(t, op.block).0;
      !after.status.Failed? <==> op.Complete? && op.block < |t.blockSources| && op.block !in t.completed
  {
  }

  // ---------------------------------------------------------------------
  //  What an operation does to a task
  // ---------------------------------------------------------------------

  /** A block that is taken in: the file has it and it is not buffered. */
  predicate Accepted(t: Task, block: nat) { block < t.buffer.expectedCount && block !in t.buffer.blocks }

  /** The sources recorded for a failing block: those before, and the one that holds it now. */
  function WithHolder(t: Task, block: nat): seq<string> {
    (if block in t.failed then t.failed[block] else []) +
    (if block in t.assignments then [t.assignments[block]] else [])
  }

  /** The set bookkeeping of one task: which blocks are completed, failed, assigned and buffered afterwards. */
  ghost predicate Books(t: Task, op: Op, d: Task) {
    && d.totalSize == t.totalSize && d.blockSources == t.blockSources
    && d.buffer.expectedCount == t.buffer.expectedCount && d.buffer.nextExpected == t.buffer.nextExpected
    && d.completed == (if op.Complete? then t.completed + {op.block} else t.completed)
    && d.failed == (if op.Fail? then t.failed[op.block := WithHolder(t, op.block)] else t.failed)
    && d.buffer.blocks ==
      (if op.Complete? && Accepted(t, op.block) then t.buffer.blocks[op.block := op.data] else t.buffer.blocks)
    && d.assignments ==
      (if op.Assign? && op.block !in t.completed then t.assignments[op.block := op.node]
       else if op.Complete? || op.Fail? then t.assignments - {op.block}
       else t.assignments)
  }

  /** Every operation changes the one task it names, and that only by its own entries. */
  lemma TaskAfter(s: State, op: Op, file: string)
    requires !s.poisoned
    ensures var d := Apply(s, op).0;
      && (file in d.tasks <==>
        if op.file == file then op.Create? || (file in s.tasks && !op.Cancel?) else file in s.tasks)
      && (file in s.tasks && op.file != file ==> d.tasks[file] == s.tasks[file])
      && (op.Create? && op.file == file ==>
        d.tasks[file] == Task(op.totalSize, op.blockSources, Pending, Progress(0, 0, 0),
          Buffer(map[], |op.blockSources|, 0), {}, map[], map[]))
      && (file in s.tasks && op.file == file && !op.Create? && !op.Cancel? ==> Books(s.tasks[file], op, d.tasks[file]))
  {
    hide CompletedTask, FailedTask, Books, ReleasedIf;
    if file in s.tasks && op.file == file {
      match op
      case Complete(_, block, data) => CompletedBooks(s.tasks[file], op);
      case Fail(_, block) => FailedBooks(s.tasks[file], op);
      case Assign(_, block, node) => AssignedBooks(s, op);
      case Create(_, _, _) =>
      case Cancel(_) =>
    }
  }

  lemma ReportKeepsBooks(t: Task)
    requires |t.blockSources| > 0
    ensures Reported(t) == t.(progress := Reported(t).progress, status := Reported(t).status)
  {
    hide Estimated, Fraction, CanAssemble;
  }

  lemma CompletedBooks(t: Task, op: Op)
    requires op.Complete?
    ensures Books(t, op, CompletedTask(t, op.block, op.data).0)
  {
    var b := Pushed(t.buffer, op.block, op.data).0;
    PushEffect(t.buffer, op.block, op.data);
    if |t.blockSources| > 0 {
      ReportKeepsBooks(Marked(t, op.block).(buffer := b));
    }
    hide Reported, Pushed;
  }

  lemma FailedBooks(t: Task, op: Op)
    requires op.Fail?
    ensures Books(t, op, FailedTask(t, op.block).0)
  {
    hide Estimated;
    assert FailedNodes(t, op.block) == WithHolder(t, op.block);
  }

  lemma AssignedBooks(s: State, op: Op)
    requires !s.poisoned && op.Assign? && op.file in s.tasks
    ensures op.file in Apply(s, op).0.tasks && Books(s.tasks[op.file], op, Apply(s, op).0.tasks[op.file])
  {
  }

  /**
   * The numbers shown: counts of completed and failed blocks, the completed ones times the whole
   * part of size over blocks, and after the last block the whole size; a failing block shows only
   * the failure, from the third failed block on.
   */
  lemma ReportAfter(s: State, op: Op)
    requires !s.poisoned && op.file in s.tasks && (op.Complete? || op.Fail?) && Apply(s, op).1.Ok?
    ensures op.file in Apply(s, op).0.tasks
    ensures var t, d := s.tasks[op.file], Apply(s, op).0.tasks[op.file];
      var n := |t.blockSources|;
      && d.progress.completedBlocks == |d.completed| && d.progress.failedBlocks == |d.failed|
      && (d.completed == {} ==> d.progress.downloadedBytes == 0)
      && (d.completed != {} ==> n > 0 && d.progress.downloadedBytes == |d.completed| * (t.totalSize / n))
      && (op.Complete? ==>
        && d.status.Downloading? && d.status.totalBytes == t.totalSize
        && d.status.downloadedBytes ==
          if |d.buffer.blocks| == d.buffer.expectedCount then t.totalSize else d.progress.downloadedBytes)
      && (op.Fail? ==> d.status == if |d.failed| >= 3 then Failed(|d.failed|) else t.status)
  {
    hide ReleasedIf, Fraction;
  }

  /**
   * The answer of every operation, in the order of the checks; a poisoned manager refuses all but
   * a creation, and does nothing.
   */
  lemma AnswerIs(s: State, op: Op)
    ensures s.poisoned ==> Apply(s, op) == (s, if op.Create? then Ok(()) else Err(LockPoisoned))
    ensures !s.poisoned ==>
      Apply(s, op).1 ==
        match op
        case Create(_, _, _) => Ok(())
        case Cancel(file) => if file in s.tasks then Ok(()) else Err(TaskNotFound)
        case Assign(file, block, _) =>
          if file in s.tasks && block in s.tasks[file].completed then Err(AlreadyCompleted) else Ok(())
        case Complete(file, block, _) =>
          if file !in s.tasks then Err(TaskNotFound)
          else
            var t := s.tasks[file];
            if block >= t.buffer.expectedCount then Err(OutOfRange)
            else if block in t.buffer.blocks then Err(AlreadyReceived)
            else if |t.blockSources| == 0 then Err(Panicked)
            else Ok(())
        case Fail(file, _) =>
          if file !in s.tasks then Err(TaskNotFound)
          else if s.tasks[file].completed != {} && |s.tasks[file].blockSources| == 0 then Err(Panicked)
          else Ok(())
  {
    hide Estimated, Fraction, CanAssemble, ReleasedIf;
  }

  // ---------------------------------------------------------------------
  //  Progress
  // ---------------------------------------------------------------------

  /** Blocks counted as completed although the file has no such block. */
  function StrayBlocks(t: Task): set<nat> { set b | b in t.completed && b >= |t.blockSources| }

  /** How many blocks of the file are not buffered yet. */
  function Missing(t: Task): int { |t.blockSources| - |t.buffer.blocks| }

  lemma CompletedSplits(t: Task)
    requires TaskInv(t)
    ensures |t.completed| == |StrayBlocks(t)| + |t.buffer.blocks|
  {
    assert t.completed == StrayBlocks(t) + t.buffer.blocks.Keys;
    assert |t.buffer.blocks| == |t.buffer.blocks.Keys|;
  }

  lemma AcceptedTask(t: Task, block: nat, data: Bytes)
    requires TaskInv(t) && CompletedTask(t, block, data).1.Ok?
    ensures var after := CompletedTask(t, block, data).0;
      && |t.blockSources| > 0 && after.blockSources == t.blockSources
      && |after.completed| == |t.completed| + 1 == after.progress.completedBlocks
      && after.status.Downloading?
      && after.status.fraction ==
        if |t.buffer.blocks| + 1 == |t.blockSources| then 1.0 else Fraction(|t.completed| + 1, |t.blockSources|)
  {
    AcceptedFields(t, block, data);
    hide CompletedTask, Fraction, TaskInv, Estimated;
    var after := CompletedTask(t, block, data).0;
    assert |after.buffer.blocks| == |after.buffer.blocks.Keys| && |t.buffer.blocks| == |t.buffer.blocks.Keys|;
  }

  lemma FractionIsAtMostOne(completed: nat, total: nat)
    requires total > 0
    ensures Fraction(completed, total) <= 1.0 <==> completed <= total
  {
    var share := Fraction(completed, total);
    assert share * total as real == completed as real;
    if share <= 1.0 {
      assert share * total as real <= 1.0 * total as real;
    } else {
      assert share * total as real > 1.0 * total as real;
    }
  }

  /**
   * Progress is documented to stay within 1.  After an accepted block the counted fraction does
   * exactly when fewer stray blocks had been completed than blocks were missing; the status also
   * does with the last missing block.
   */
  lemma FractionWithinOneIff(t: Task, block: nat, data: Bytes)
    requires TaskInv(t) && CompletedTask(t, block, data).1.Ok?
    ensures var after := CompletedTask(t, block, data).0;
      && after.status.Downloading?
      && (Fraction(after.progress.completedBlocks, |after.blockSources|) <= 1.0 <==> |StrayBlocks(t)| < Missing(t))
      && (after.status.fraction <= 1.0 <==> |StrayBlocks(t)| < Missing(t) || Missing(t) == 1)
  {
    AcceptedTask(t, block, data);
    CompletedSplits(t);
    FractionIsAtMostOne(|t.completed| + 1, |t.blockSources|);
    hide CompletedTask, StrayBlocks, Fraction, TaskInv;
  }

  lemma RefusedBlock(t: Task, block: nat, data: Bytes)
    requires TaskInv(t) && block >= |t.blockSources|
    ensures CompletedTask(t, block, data) == (Marked(t, block), Err(OutOfRange)) && TaskInv(Marked(t, block))
  {
  }

  /** A file of two blocks after two completions of blocks it does not have and one of a block it has. */
  lemma StrayBlocksOverflow(file: string, size: nat, sources: map<nat, seq<string>>, data: Bytes)
    requires sources.Keys == {0, 1}
    ensures var run := [Create(file, size, sources), Complete(file, 5, data), Complete(file, 6, data)];
      var after := Execute(NO_DOWNLOADS, run + [Complete(file, 0, data)]);
      && file in after.tasks && after.tasks[file].status.Downloading? && after.tasks[file].status.fraction == 1.5
  {
    hide CompletedTask, FailedTask, Execute, TaskInv;
    var created, t := [Create(file, size, sources)], NewTask(size, sources);
    assert |sources| == |sources.Keys| == 2;
    assert [] + created == created;
    NothingExecuted(NO_DOWNLOADS);
    NewTaskInv(size, sources);
    ExecuteLast(NO_DOWNLOADS, [], created[0]);
    RefusedBlock(t, 5, data);
    ExecuteLast(NO_DOWNLOADS, created, Complete(file, 5, data));
    RefusedBlock(Marked(t, 5), 6, data);
    ExecuteLast(NO_DOWNLOADS, created + [Complete(file, 5, data)], Complete(file, 6, data));
    var run := [Create(file, size, sources), Complete(file, 5, data), Complete(file, 6, data)];
    assert created + [Complete(file, 5, data)] + [Complete(file, 6, data)] == run;
    ExecuteLast(NO_DOWNLOADS, run, Complete(file, 0, data));
    OneOfTwo(Marked(Marked(t, 5), 6), data);
  }

  lemma OneOfTwo(t: Task, data: Bytes)
    requires TaskInv(t) && |t.blockSources| == 2 && t.completed == {5, 6} && t.buffer.blocks == map[]
    ensures var (after, r) := CompletedTask(t, 0, data);
      r.Ok? && after.status.Downloading? && after.status.fraction == 1.5
  {
    AcceptedTask(t, 0, data);
  }

  // ---------------------------------------------------------------------
  //  Balancing
  // ---------------------------------------------------------------------

  /** The loads over a node list differ by at most one. */
  ghost predicate Balanced(load: Loads, nodes: seq<string>) {
    forall i, j | 0 <= i < |nodes| && 0 <= j < |nodes| :: LoadOf(load, nodes[i]) <= LoadOf(load, nodes[j]) + 1
  }

  /** A run that selects among the nodes and assigns to the selected one, each time some block of some file. */
  ghost predicate SelectAndAssign(states: seq<State>, nodes: seq<string>, blocks: seq<(string, nat)>) {
    && |states| == |blocks| + 1
    && forall k: nat | k < |blocks| :: Selected(states[k], nodes, blocks[k].0, blocks[k].1, states[k + 1])
  }

  ghost predicate Selected(s: State, nodes: seq<string>, file: string, block: nat, after: State) {
    exists i: nat :: IsFirstLeast(s.load, nodes, i) && after == Apply(s, Assign(file, block, nodes[i])).0
  }

  /** Selecting and assigning keeps the loads within one of each other, refused assignments included. */
  lemma {:induction false} SelectionKeepsBalance(
      states: seq<State>, nodes: seq<string>, blocks: seq<(string, nat)>, k: nat)
    requires SelectAndAssign(states, nodes, blocks) && Balanced(states[0].load, nodes) && k <= |blocks|
    ensures Balanced(states[k].load, nodes)
  {
    hide Balanced, Selected;
    if k > 0 {
      SelectionKeepsBalance(states, nodes, blocks, k - 1);
      assert Selected(states[k - 1], nodes, blocks[k - 1].0, blocks[k - 1].1, states[k]);
      SelectedKeepsBalance(states[k - 1], nodes, blocks[k - 1].0, blocks[k - 1].1, states[k]);
    }
  }

  lemma SelectedKeepsBalance(s: State, nodes: seq<string>, file: string, block: nat, after: State)
    requires Balanced(s.load, nodes) && Selected(s, nodes, file, block, after)
    ensures Balanced(after.load, nodes)
  {
    hide Apply, Balanced;
    var i: nat :| IsFirstLeast(s.load, nodes, i) && after == Apply(s, Assign(file, block, nodes[i])).0;
    AssignKeepsBalance(s, nodes, i, Assign(file, block, nodes[i]));
  }

  lemma AssignKeepsBalance(s: State, nodes: seq<string>, i: nat, op: Op)
    requires Balanced(s.load, nodes) && IsFirstLeast(s.load, nodes, i)
    requires op.Assign? && op.node == nodes[i]
    ensures Balanced(Apply(s, op).0.load, nodes)
  {
  }
}
