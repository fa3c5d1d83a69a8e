/**
 * Multi-source downloads: the reorder buffer and the manager's bookkeeping
 * (src/storage/download.rs).  Time estimates are left out; fractions are real numbers.
 */
module Download {
  import opened Wrappers
  import opened Identity

  type Bytes = seq<byte>

  const MAX_FAILED_BLOCKS: nat := 3

  datatype DownloadError = LockPoisoned | TaskNotFound | AlreadyCompleted | OutOfRange | AlreadyReceived | Panicked

  // ---------------------------------------------------------------------
  //  Reorder buffer
  // ---------------------------------------------------------------------

  datatype Buffer = Buffer(blocks: map<nat, Bytes>, expectedCount: nat, nextExpected: nat)

  function Pushed(b: Buffer, index: nat, data: Bytes): (Buffer, Result<(), DownloadError>) {
    if index >= b.expectedCount then (b, Err(OutOfRange))
    else if index in b.blocks then (b, Err(AlreadyReceived))
    else (b.(blocks := b.blocks[index := data]), Ok(()))
  }

  /** Consecutive blocks from `next` on, each as buffered. */
  ghost predicate IsRun(blocks: map<nat, Bytes>, next: nat, out: seq<(nat, Bytes)>) {
    && (forall k :: next <= k < next + |out| ==> k in blocks)
    && forall i | 0 <= i < |out| :: out[i].0 == next + i && out[i].0 in blocks && out[i].1 == blocks[out[i].0]
  }

  /** All of them, up to the first gap. */
  ghost predicate IsReady(blocks: map<nat, Bytes>, next: nat, out: seq<(nat, Bytes)>) {
    IsRun(blocks, next, out) && next + |out| !in blocks
  }

  /** The blocks buffered without a gap from `next` on. */
  function Ready(blocks: map<nat, Bytes>, next: nat): (out: seq<(nat, Bytes)>)
    ensures IsReady(blocks, next, out)
    decreases blocks.Keys
  {
    if next in blocks then [(next, blocks[next])] + Ready(blocks - {next}, next + 1) else []
  }

  function Without(blocks: map<nat, Bytes>, lo: nat, hi: nat): map<nat, Bytes> {
    map k | k in blocks && !(lo <= k < hi) :: blocks[k]
  }

  function Drained(b: Buffer): (Buffer, seq<(nat, Bytes)>) {
    var out := Ready(b.blocks, b.nextExpected);
    var next := b.nextExpected + |out|;
    (Buffer(Without(b.blocks, b.nextExpected, next), b.expectedCount, next), out)
  }

  predicate CanAssemble(b: Buffer) { |b.blocks| == b.expectedCount }

  class ReorderBuffer {
    var blocks: map<nat, Bytes>
    var nextExpected: nat
    const expectedCount: nat

    ghost function State(): Buffer
      reads this
    {
      Buffer(blocks, expectedCount, nextExpected)
    }

    constructor (expectedCount: nat)
      ensures State() == Buffer(map[], expectedCount, 0)
    {
      this.expectedCount := expectedCount;
      blocks, nextExpected := map[], 0;
    }

    method Push(index: nat, data: Bytes) returns (r: Result<(), DownloadError>)
      modifies this
      ensures (State(), r) == Pushed(old(State()), index, data)
    {
      if index >= expectedCount {
        return Err(OutOfRange);
      }
      if index in blocks {
        return Err(AlreadyReceived);
      }
      blocks := blocks[index := data];
      return Ok(());
    }

    method DrainOrdered() returns (result: seq<(nat, Bytes)>)
      modifies this
      ensures (State(), result) == Drained(old(State()))
      ensures nextExpected == old(nextExpected) + |result| && nextExpected !in blocks
      ensures forall k :: k in blocks <==> k in old(blocks) && !(old(nextExpected) <= k < nextExpected)
      ensures forall k | k in blocks :: blocks[k] == old(blocks)[k]
    {
      result := [];
      ghost var all, first := blocks, nextExpected;
      while nextExpected in blocks
        invariant nextExpected == first + |result|
        invariant blocks == Without(all, first, nextExpected)
        invariant IsRun(all, first, result)
        decreases blocks.Keys
      {
        result := result + [(nextExpected, blocks[nextExpected])];
        blocks := blocks - {nextExpected};
        nextExpected := nextExpected + 1;
      }
      ReadyIsUnique(all, first, result);
    }
  }

  lemma ReadyIsUnique(blocks: map<nat, Bytes>, next: nat, out: seq<(nat, Bytes)>)
    requires IsReady(blocks, next, out)
    ensures out == Ready(blocks, next)
  {
    var r := Ready(blocks, next);
    assert |r| == |out|;
    assert forall i | 0 <= i < |out| :: out[i].0 == r[i].0;
  }

  // ---------------------------------------------------------------------
  //  Manager
  // ---------------------------------------------------------------------

  datatype Status =
    | Pending
    | Downloading(fraction: real, downloadedBytes: nat, totalBytes: nat)
    | Failed(failedBlocks: nat)

  datatype Progress = Progress(completedBlocks: nat, failedBlocks: nat, downloadedBytes: nat)

  datatype Task = Task(
    totalSize: nat, blockSources: map<nat, seq<string>>, status: Status, progress: Progress, buffer: Buffer,
    completed: set<nat>, failed: map<nat, seq<string>>, assignments: map<nat, string>)

  type Tasks = map<string, Task>

  type Loads = map<string, nat>

  /** A panic while the table of tasks is locked for writing poisons it for good. */
  datatype State = State(tasks: Tasks, load: Loads, poisoned: bool)

  datatype Op =
    | Create(file: string, totalSize: nat, blockSources: map<nat, seq<string>>)
    | Cancel(file: string)
    | Assign(file: string, block: nat, node: string)
    | Complete(file: string, block: nat, data: Bytes)
    | Fail(file: string, block: nat)

  function NewTask(totalSize: nat, sources: map<nat, seq<string>>): Task {
    Task(totalSize, sources, Pending, Progress(0, 0, 0), Buffer(map[], |sources|, 0), {}, map[], map[])
  }

  function LoadOf(load: Loads, node: string): nat { if node in load then load[node] else 0 }

  /** One block less on a node; a node without blocks has no entry. */
  function Released(load: Loads, node: string): Loads {
    if node !in load then load
    else if load[node] <= 1 then load - {node}
    else load[node := load[node] - 1]
  }

  function AssignedTo(tasks: Tasks, file: string, block: nat): Option<string> {
    if file in tasks && block in tasks[file].assignments then Some(tasks[file].assignments[block]) else None
  }

  function ReleasedIf(load: Loads, node: Option<string>): Loads {
    match node case Some(n) => Released(load, n) case None => load
  }

  function Fraction(completed: nat, total: nat): real {
    if total == 0 then 1.0 else completed as real / total as real
  }

  function Estimated(t: Task): nat
    requires t.completed == {} || |t.blockSources| > 0
  {
    if t.completed == {} then 0 else |t.completed| * (t.totalSize / |t.blockSources|)
  }

  /** The bookkeeping before the block is pushed. */
  function Marked(t: Task, block: nat): Task {
    t.(completed := t.completed + {block}, assignments := t.assignments - {block})
  }

  /** Progress and status after an accepted block. */
  function Reported(t: Task): Task
    requires |t.blockSources| > 0
  {
    var bytes := Estimated(t);
    var fraction := if CanAssemble(t.buffer) then 1.0 else Fraction(|t.completed|, |t.blockSources|);
    var total := if CanAssemble(t.buffer) then t.totalSize else bytes;
    t.(progress := Progress(|t.completed|, |t.failed|, bytes), status := Downloading(fraction, total, t.totalSize))
  }

  function CompletedTask(t: Task, block: nat, data: Bytes): (Task, Result<(), DownloadError>) {
    var marked := Marked(t, block);
    var (buffer, pushed) := Pushed(t.buffer, block, data);
    if pushed.Err? then (marked, pushed)
    else if |t.blockSources| == 0 then (marked.(buffer := buffer), Err(Panicked))
    else
      (Reported(marked.(buffer := buffer)), Ok(()))
  }

  function FailedNodes(t: Task, block: nat): seq<string> {
    (if block in t.failed then t.failed[block] else []) +
    (if block in t.assignments then [t.assignments[block]] else [])
  }

  /** The bookkeeping before the progress is estimated. */
  function Charged(t: Task, block: nat): Task {
    var failed := t.failed[block := FailedNodes(t, block)];
    t.(assignments := t.assignments - {block}, failed := failed,
       status := if |failed| >= MAX_FAILED_BLOCKS then Failed(|failed|) else t.status)
  }

  /** Estimating the bytes divides by the number of blocks once per completed one. */
  predicate EstimatePanics(t: Task) { t.completed != {} && |t.blockSources| == 0 }

  function FailedTask(t: Task, block: nat): (Task, Result<(), DownloadError>) {
    var charged := Charged(t, block);
    if EstimatePanics(t) then (charged, Err(Panicked))
    else (charged.(progress := Progress(|t.completed|, |charged.failed|, Estimated(t))), Ok(()))
  }

  function Apply(s: State, op: Op): (State, Result<(), DownloadError>) {
    if s.poisoned then (s, if op.Create? then Ok(()) else Err(LockPoisoned))
    else match op
      case Create(file, size, sources) => (s.(tasks := s.tasks[file := NewTask(size, sources)]), Ok(()))
      case Cancel(file) =>
        if file in s.tasks then (s.(tasks := s.tasks - {file}), Ok(())) else (s, Err(TaskNotFound))
      case Assign(file, block, node) =>
        if file in s.tasks && block in s.tasks[file].completed then (s, Err(AlreadyCompleted))
        else
          var load := s.load[node := LoadOf(s.load, node) + 1];
          if file in s.tasks then
            var t := s.tasks[file];
            (State(s.tasks[file := t.(assignments := t.assignments[block := node])], load, false), Ok(()))
          else (s.(load := load), Ok(()))
      case Complete(file, block, data) =>
        if file !in s.tasks then (s, Err(TaskNotFound))
        else
          var (t, r) := CompletedTask(s.tasks[file], block, data);
          (State(s.tasks[file := t], ReleasedIf(s.load, AssignedTo(s.tasks, file, block)), r == Err(Panicked)), r)
      case Fail(file, block) =>
        if file !in s.tasks then (s, Err(TaskNotFound))
        else
          var (t, r) := FailedTask(s.tasks[file], block);
          (State(s.tasks[file := t], ReleasedIf(s.load, AssignedTo(s.tasks, file, block)), r == Err(Panicked)), r)
  }

  /** The first of the least loaded nodes. */
  ghost predicate IsFirstLeast(load: Loads, nodes: seq<string>, i: nat) {
    && i < |nodes|
    && (forall j | 0 <= j < |nodes| :: LoadOf(load, nodes[i]) <= LoadOf(load, nodes[j]))
    && (forall j | 0 <= j < i :: LoadOf(load, nodes[i]) < LoadOf(load, nodes[j]))
  }

  class DownloadManager {
    var tasks: Tasks
    var nodeLoad: Loads
    var poisoned: bool

    ghost function Value(): State
      reads this
    {
      State(tasks, nodeLoad, poisoned)
    }

    constructor ()
      ensures Value() == State(map[], map[], false)
    {
      tasks, nodeLoad, poisoned := map[], map[], false;
    }

    method CreateTask(file: string, totalSize: nat, blockSources: map<nat, seq<string>>)
      modifies this
      ensures Value() == Apply(old(Value()), Create(file, totalSize, blockSources)).0
    {
      if !poisoned {
        tasks := tasks[file := NewTask(totalSize, blockSources)];
      }
    }

    method Cancel(file: string) returns (r: Result<(), DownloadError>)
      modifies this
      ensures (Value(), r) == Apply(old(Value()), Op.Cancel(file))
    {
      if poisoned {
        return Err(LockPoisoned);
      }
      if file !in tasks {
        return Err(TaskNotFound);
      }
      tasks := tasks - {file};
      return Ok(());
    }

    method SelectSource(availableNodes: seq<string>) returns (r: Option<string>)
      ensures r == None <==> availableNodes == []
      ensures r.Some? ==> exists i: nat :: IsFirstLeast(nodeLoad, availableNodes, i) && availableNodes[i] == r.value
    {
      if availableNodes == [] {
        return None;
      }
      var best := 0;
      for k := 1 to |availableNodes|
        invariant best < k
        invariant forall j | 0 <= j < k ::
            LoadOf(nodeLoad, availableNodes[best]) <= LoadOf(nodeLoad, availableNodes[j])
        invariant forall j | 0 <= j < best ::
            LoadOf(nodeLoad, availableNodes[best]) < LoadOf(nodeLoad, availableNodes[j])
      {
        if LoadOf(nodeLoad, availableNodes[k]) < LoadOf(nodeLoad, availableNodes[best]) {
          best := k;
        }
      }
      assert IsFirstLeast(nodeLoad, availableNodes, best);
      return Some(availableNodes[best]);
    }

    method AssignBlock(file: string, block: nat, node: string) returns (r: Result<(), DownloadError>)
      modifies this
      ensures (Value(), r) == Apply(old(Value()), Assign(file, block, node))
    {
      if poisoned {
        return Err(LockPoisoned);
      }
      if file in tasks && block in tasks[file].completed {
        return Err(AlreadyCompleted);
      }
      nodeLoad := nodeLoad[node := LoadOf(nodeLoad, node) + 1];
      if file in tasks {
        var t := tasks[file];
        tasks := tasks[file := t.(assignments := t.assignments[block := node])];
      }
      return Ok(());
    }

    method Release(node: string)
      modifies this`nodeLoad
      ensures nodeLoad == Released(old(nodeLoad), node)
    {
      if node in nodeLoad {
        var count := if nodeLoad[node] == 0 then 0 else nodeLoad[node] - 1;
        nodeLoad := nodeLoad[node := count];
        if count == 0 {
          nodeLoad := nodeLoad - {node};
        }
      }
    }

    static method Report(t: Task) returns (task: Task)
      requires |t.blockSources| > 0 && t.completed != {}
      ensures task == Reported(t)
    {
      task := t;
      var completed, failed := |task.completed|, |task.failed|;
      var downloaded := completed * (task.totalSize / |task.blockSources|);
      task := task.(progress := Progress(completed, failed, downloaded));
      if CanAssemble(task.buffer) {
        task := task.(status := Downloading(1.0, task.totalSize, task.totalSize));
      } else {
        task := task.(status := Downloading(Fraction(completed, |task.blockSources|), downloaded, task.totalSize));
      }
    }

    method CompleteBlock(file: string, block: nat, data: Bytes) returns (r: Result<(), DownloadError>)
      modifies this
      ensures (Value(), r) == Apply(old(Value()), Complete(file, block, data))
    {
      hide Reported, Released;
      if poisoned {
        return Err(LockPoisoned);
      }
      var node := AssignedTo(tasks, file, block);
      if node.Some? {
        Release(node.value);
      }
      if file !in tasks {
        return Err(TaskNotFound);
      }
      var task := tasks[file];
      task := task.(completed := task.completed + {block});
      task := task.(assignments := task.assignments - {block});
      var (buffer, pushed) := Pushed(task.buffer, block, data);
      if pushed.Err? {
        tasks := tasks[file := task];
        return pushed;
      }
      task := task.(buffer := buffer);
      if |task.blockSources| == 0 {
        tasks := tasks[file := task];
        poisoned := true;
        return Err(Panicked);
      }
      task := Report(task);
      tasks := tasks[file := task];
      return Ok(());
    }

    method FailBlock(file: string, block: nat) returns (r: Result<(), DownloadError>)
      modifies this
      ensures (Value(), r) == Apply(old(Value()), Fail(file, block))
    {
      if poisoned {
        return Err(LockPoisoned);
      }
      var node := AssignedTo(tasks, file, block);
      if node.Some? {
        Release(node.value);
      }
      if file !in tasks {
        return Err(TaskNotFound);
      }
      var task := tasks[file];
      task := task.(assignments := task.assignments - {block});
      var failedNodes := if block in task.failed then task.failed[block] else [];
      if node.Some? {
        failedNodes := failedNodes + [node.value];
      }
      assert failedNodes == FailedNodes(tasks[file], block);
      task := task.(failed := task.failed[block := failedNodes]);
      var totalFailed := |task.failed|;
      if totalFailed >= MAX_FAILED_BLOCKS {
        task := task.(status := Failed(totalFailed));
      }
      if EstimatePanics(task) {
        tasks := tasks[file := task];
        poisoned := true;
        return Err(Panicked);
      }
      task := task.(progress := Progress(|task.completed|, totalFailed, Estimated(task)));
      tasks := tasks[file := task];
      return Ok(());
    }
  }
}
