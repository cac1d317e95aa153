/** The demo's worker threads.  A coordinator thread locks the global mutex, writes a
    worker's number into the argument block that all its workers share, and creates
    the worker; the worker unlocks the mutex when it is done with the block.  Any
    number of coordinators share the mutex, and every thread is one step at a time.
    Runs in which a pthread or JNI call fails are not modelled.
 */
module WorkerHandOff {

  // ---------------------------------------------------------------- states

  /** `NativeWorkerArgs` on the heap. */
  datatype Block = Block(id: int, threads: nat, iterations: nat, freed: bool)

  /** Where a worker is in `nativeWorkerThread` and `nativeWorker`. */
  datatype Worker =
    | Started                                    // about to read the block's id
    | KnowsId(id: int)                           // about to read its iterations
    | Looping(id: int, iterations: nat, i: nat)  // the message loop
    | Unlocking
    | Detaching
    | Finished

  /** Where a coordinator is in `startThreads`; `i` is its loop counter. */
  datatype Phase =
    | Locking(i: nat)
    | Writing(i: nat)
    | Creating(i: nat)
    | Joining(i: nat)
    | Freeing
    | Done

  /** One call of `posixThreads`. */
  datatype Call = Call(phase: Phase, block: Block, workers: seq<Worker>)

  datatype Message = Iteration(call: nat, worker: int, i: nat) | Returned(call: nat, worker: int)

  /** `owner` is the call whose coordinator locked the mutex last, or -1 when it is unlocked. */
  datatype State = State(owner: int, calls: seq<Call>, log: seq<Message>)

  /** Which thread moves. */
  datatype Action = Coordinator(c: nat) | WorkerOf(c: nat, w: nat)

  predicate Initial(s: State) {
    && s.owner == -1 && s.log == []
    && forall c :: 0 <= c < |s.calls| ==>
         s.calls[c].phase == Locking(0) && s.calls[c].workers == [] && !s.calls[c].block.freed
  }

  predicate Final(s: State) {
    forall c :: 0 <= c < |s.calls| ==> s.calls[c].phase == Done
  }

  // ---------------------------------------------------------------- steps

  predicate Enabled(s: State, a: Action) {
    && a.c < |s.calls|
    && var call := s.calls[a.c];
       match a
       case Coordinator(c) =>
         (match call.phase
          case Locking(i) => i < call.block.threads ==> s.owner == -1     // pthread_mutex_lock blocks
          case Joining(i) => i < |call.workers| ==> call.workers[i] == Finished  // pthread_join blocks
          case Done => false
          case _ => true)
       case WorkerOf(c, w) => w < |call.workers| && call.workers[w] != Finished
  }

  /** The next state of call `c` when its coordinator moves. */
  function CoordinatorCall(call: Call): Call {
    match call.phase
    case Locking(i) => call.(phase := if i < call.block.threads then Writing(i) else Joining(0))
    case Writing(i) => call.(phase := Creating(i), block := call.block.(id := i))
    case Creating(i) => call.(phase := Locking(i + 1), workers := call.workers + [Started])
    case Joining(i) => call.(phase := if i < call.block.threads then Joining(i + 1) else Freeing)
    case Freeing => call.(phase := Done, block := call.block.(freed := true))
    case Done => call
  }

  function WorkerNext(w: Worker, block: Block): Worker {
    match w
    case Started => KnowsId(block.id)
    case KnowsId(id) => Looping(id, block.iterations, 0)
    case Looping(id, n, i) => if i < n then Looping(id, n, i + 1) else Unlocking
    case Unlocking => Detaching
    case Detaching => Finished
    case Finished => Finished
  }

  function Step(s: State, a: Action): State
    requires Enabled(s, a)
  {
    var call := s.calls[a.c];
    match a
    case Coordinator(c) =>
      var owner := if call.phase.Locking? && call.phase.i < call.block.threads then c else s.owner;
      var log := if call.phase.Joining? && call.phase.i < call.block.threads then s.log + [Returned(c, call.phase.i)] else s.log;
      State(owner, s.calls[c := CoordinatorCall(call)], log)
    case WorkerOf(c, w) =>
      var me := call.workers[w];
      var owner := if me == Unlocking then -1 else s.owner;
      var log := if me.Looping? && me.i < me.iterations then s.log + [Iteration(c, me.id, me.i)] else s.log;
      State(owner, s.calls[c := call.(workers := call.workers[w := WorkerNext(me, call.block)])], log)
  }

  /** A run: each action is enabled where it is taken. */
  ghost predicate IsRun(s: State, actions: seq<Action>)
    decreases |actions|
  {
    actions == [] || (Enabled(s, actions[0]) && IsRun(Step(s, actions[0]), actions[1..]))
  }

  ghost function After(s: State, actions: seq<Action>): State
    requires IsRun(s, actions)
    decreases |actions|
  {
    if actions == [] then s else After(Step(s, actions[0]), actions[1..])
  }

  // ---------------------------------------------------------------- the invariant

  /** Between its creation and its unlocking of the mutex. */
  predicate Holding(w: Worker) { w.Started? || w.KnowsId? || w.Looping? || w.Unlocking? }

  /** The block can no longer be read by the worker. */
  predicate PastReading(w: Worker) { !w.Started? && !w.KnowsId? }

  predicate Tight(call: Call) {
    var n := call.block.threads;
    match call.phase
    case Locking(i) => i <= n && |call.workers| == i
    case Writing(i) => i < n && |call.workers| == i
    case Creating(i) => i < n && |call.workers| == i && call.block.id == i
    case Joining(i) => i <= n && |call.workers| == n
    case Freeing => |call.workers| == n
    case Done => |call.workers| == n
  }

  /** How many workers have been joined. */
  function Joined(call: Call): nat {
    match call.phase
    case Joining(i) => i
    case Freeing => |call.workers|
    case Done => |call.workers|
    case _ => 0
  }

  /** The whole invariant of one call; `mine` says whether it holds the mutex. */
  predicate CallOk(call: Call, mine: bool) {
    && Tight(call)
    && Joined(call) <= |call.workers|
    && (call.block.freed <==> call.phase.Done?)
    && (call.phase.Writing? || call.phase.Creating? ==> mine)
    && (forall w :: 0 <= w < |call.workers| ==> WorkerOk(call, w, mine))
    // the mutex is held by the coordinator or by the newest worker
    && (mine && !call.phase.Writing? && !call.phase.Creating? ==>
          call.workers != [] && Holding(call.workers[|call.workers| - 1]))
  }

  predicate WorkerOk(call: Call, w: nat, mine: bool)
    requires w < |call.workers|
  {
    var me := call.workers[w];
    && (w < Joined(call) ==> me == Finished)
    && (Holding(me) ==> mine && w == |call.workers| - 1 && !call.phase.Writing? && !call.phase.Creating?)
    && (me.Started? ==> call.block.id == w)
    && (me.KnowsId? ==> me.id == w)
    && (me.Looping? ==> me.id == w && me.iterations == call.block.iterations && me.i <= me.iterations)
  }

  ghost predicate Inv(s: State) {
    && -1 <= s.owner < |s.calls|
    && forall c :: 0 <= c < |s.calls| ==> CallOk(s.calls[c], s.owner == c)
  }

  lemma InitialInv(s: State)
    requires Initial(s)
    ensures Inv(s)
  {
  }

  lemma CoordinatorKeeps(call: Call, mine: bool, free: bool)
    requires CallOk(call, mine) && call.phase != Done && !(mine && free)
    requires call.phase.Locking? && call.phase.i < call.block.threads ==> free
    requires call.phase.Joining? && call.phase.i < |call.workers| ==> call.workers[call.phase.i] == Finished
    ensures CallOk(CoordinatorCall(call), mine || (call.phase.Locking? && call.phase.i < call.block.threads))
  {
    var call', mine' := CoordinatorCall(call), mine || (call.phase.Locking? && call.phase.i < call.block.threads);
    forall w | 0 <= w < |call'.workers| ensures WorkerOk(call', w, mine') {
      if w < |call.workers| { assert WorkerOk(call, w, mine); }
    }
  }

  lemma WorkerKeeps(call: Call, w: nat, mine: bool)
    requires CallOk(call, mine) && w < |call.workers| && call.workers[w] != Finished
    ensures CallOk(call.(workers := call.workers[w := WorkerNext(call.workers[w], call.block)]),
                   mine && call.workers[w] != Unlocking)
  {
    var call', mine' := call.(workers := call.workers[w := WorkerNext(call.workers[w], call.block)]),
                        mine && call.workers[w] != Unlocking;
    forall v | 0 <= v < |call'.workers| ensures WorkerOk(call', v, mine') {
      assert WorkerOk(call, v, mine) && WorkerOk(call, w, mine);
    }
  }

  lemma StepKeepsInv(s: State, a: Action)
    requires Inv(s) && Enabled(s, a)
    ensures Inv(Step(s, a))
  {
    var call, s' := s.calls[a.c], Step(s, a);
    match a
    case Coordinator(c) => CoordinatorKeeps(call, s.owner == c, s.owner == -1);
    case WorkerOf(c, w) => WorkerKeeps(call, w, s.owner == c); assert WorkerOk(call, w, s.owner == c);
    hide CallOk;
    forall c | 0 <= c < |s'.calls| ensures CallOk(s'.calls[c], s'.owner == c) {
      if c != a.c { assert s'.calls[c] == s.calls[c]; }
    }
  }

  lemma {:induction false} RunKeepsInv(s: State, actions: seq<Action>)
    requires Inv(s) && IsRun(s, actions)
    ensures Inv(After(s, actions))
    decreases |actions|
  {
    if actions != [] {
      StepKeepsInv(s, actions[0]);
      RunKeepsInv(Step(s, actions[0]), actions[1..]);
    }
  }

  // ---------------------------------------------------------------- safety

  /** What a state and the action taken in it must satisfy. */
  ghost predicate SafeAction(s: State, a: Action)
    requires Enabled(s, a)
  {
    var call := s.calls[a.c];
    match a
    case WorkerOf(c, w) =>
      // reads happen while the block is allocated, and find the reader's own number
      && (!PastReading(call.workers[w]) ==> !call.block.freed)
      && (call.workers[w].Started? ==> call.block.id == w)
    case Coordinator(c) =>
      // the block is freed after its last read, and written when nobody is about to read it
      && (call.phase.Freeing? ==> forall v :: 0 <= v < |call.workers| ==> call.workers[v] == Finished)
      && (call.phase.Writing? ==> !call.block.freed && forall v :: 0 <= v < |call.workers| ==> PastReading(call.workers[v]))
  }

  predicate HolderAt(s: State, c: int, w: int) {
    0 <= c < |s.calls| && 0 <= w < |s.calls[c].workers| && Holding(s.calls[c].workers[w])
  }

  /** At most one worker, of all calls together, is between its creation and its unlock. */
  ghost predicate OneHolder(s: State) {
    forall c, w, d, v :: HolderAt(s, c, w) && HolderAt(s, d, v) ==> c == d && w == v
  }

  lemma InvOneHolder(s: State)
    requires Inv(s)
    ensures OneHolder(s)
  {
    forall c, w | HolderAt(s, c, w)
      ensures s.owner == c && w == |s.calls[c].workers| - 1
    {
      assert CallOk(s.calls[c], s.owner == c);
      assert WorkerOk(s.calls[c], w, s.owner == c);
    }
  }

  lemma InvSafe(s: State, a: Action)
    requires Inv(s) && Enabled(s, a)
    ensures SafeAction(s, a)
  {
    var call, mine := s.calls[a.c], s.owner == a.c;
    assert CallOk(call, mine);
    match a
    case WorkerOf(c, w) => assert WorkerOk(call, w, mine);
    case Coordinator(c) =>
      forall v | 0 <= v < |call.workers|
        ensures (call.phase.Freeing? ==> call.workers[v] == Finished) && (call.phase.Writing? ==> PastReading(call.workers[v]))
      {
        assert WorkerOk(call, v, mine);
      }
  }

  /** Safety of the hand-off over every interleaving. */
  lemma HandOffSafe(s: State, actions: seq<Action>, a: Action)
    requires Initial(s) && IsRun(s, actions)
    ensures OneHolder(After(s, actions))
    ensures Enabled(After(s, actions), a) ==> SafeAction(After(s, actions), a)
  {
    InitialInv(s);
    RunKeepsInv(s, actions);
    InvOneHolder(After(s, actions));
    if Enabled(After(s, actions), a) { InvSafe(After(s, actions), a); }
  }

  // ---------------------------------------------------------------- progress

  /** Some thread can always move until every coordinator is done, and then the mutex is free. */
  lemma NoDeadlock(s: State) returns (a: Action)
    requires Inv(s)
    ensures !Final(s) ==> Enabled(s, a)
    ensures Final(s) ==> s.owner == -1
  {
    if s.owner >= 0 {
      a := MoveOf(s, s.owner);
    } else if !Final(s) {
      var c :| 0 <= c < |s.calls| && s.calls[c].phase != Done;
      a := MoveOf(s, c);
    } else {
      a := Coordinator(0);
    }
  }

  /** A call that holds the mutex, or that is unfinished while the mutex is free, can move. */
  lemma MoveOf(s: State, c: nat) returns (a: Action)
    requires Inv(s) && c < |s.calls|
    requires s.owner == c || (s.owner == -1 && s.calls[c].phase != Done)
    ensures Enabled(s, a) && s.calls[c].phase != Done
  {
    var call, mine := s.calls[c], s.owner == c;
    assert CallOk(call, mine);
    a := Coordinator(c);
    if mine && !call.phase.Writing? && !call.phase.Creating? {
      var w := |call.workers| - 1;
      assert WorkerOk(call, w, mine);
      a := WorkerOf(c, w);
    } else if call.phase.Joining? && call.phase.i < |call.workers| && call.workers[call.phase.i] != Finished {
      a := WorkerOf(c, call.phase.i);
    }
  }

  /** Steps a worker still has to make. */
  function WorkerLeft(w: Worker, iterations: nat): nat {
    match w
    case Started => iterations + 5
    case KnowsId(_) => iterations + 4
    case Looping(_, n, i) => if i <= n then n - i + 3 else 3
    case Unlocking => 2
    case Detaching => 1
    case Finished => 0
  }

  function WorkersLeft(ws: seq<Worker>, iterations: nat): nat {
    if ws == [] then 0 else WorkersLeft(ws[..|ws| - 1], iterations) + WorkerLeft(ws[|ws| - 1], iterations)
  }

  /** Steps that workers not yet created, and the coordinator's rounds for them, will take. */
  function Unborn(n: int, iterations: nat): nat
    decreases n
  {
    if n <= 0 then 0 else Unborn(n - 1, iterations) + iterations + 8
  }

  function CoordinatorLeft(call: Call): nat {
    var n := call.block.threads;
    match call.phase
    case Locking(i) => Unborn(n - i, call.block.iterations) + n + 4
    case Writing(i) => Unborn(n - i, call.block.iterations) + n + 3
    case Creating(i) => Unborn(n - i, call.block.iterations) + n + 2
    case Joining(i) => if i <= n then n - i + 2 else 2
    case Freeing => 1
    case Done => 0
  }

  function CallLeft(call: Call): nat {
    CoordinatorLeft(call) + WorkersLeft(call.workers, call.block.iterations)
  }

  /** Steps left in the whole system. */
  function Left(calls: seq<Call>): nat {
    if calls == [] then 0 else Left(calls[..|calls| - 1]) + CallLeft(calls[|calls| - 1])
  }

  lemma {:induction false} WorkersLeftUpdate(ws: seq<Worker>, w: nat, x: Worker, iterations: nat)
    requires w < |ws|
    ensures WorkersLeft(ws[w := x], iterations) + WorkerLeft(ws[w], iterations) ==
            WorkersLeft(ws, iterations) + WorkerLeft(x, iterations)
    decreases |ws|
  {
    var n := |ws| - 1;
    if w < n {
      WorkersLeftUpdate(ws[..n], w, x, iterations);
      assert ws[w := x][..n] == ws[..n][w := x];
    } else {
      assert ws[w := x][..n] == ws[..n];
    }
  }

  lemma {:induction false} LeftUpdate(calls: seq<Call>, c: nat, x: Call)
    requires c < |calls|
    ensures Left(calls[c := x]) + CallLeft(calls[c]) == Left(calls) + CallLeft(x)
    decreases |calls|
  {
    var n := |calls| - 1;
    if c < n {
      LeftUpdate(calls[..n], c, x);
      assert calls[c := x][..n] == calls[..n][c := x];
    } else {
      assert calls[c := x][..n] == calls[..n];
    }
  }

  lemma WorkerDecreases(call: Call, w: nat, mine: bool)
    requires w < |call.workers| && call.workers[w] != Finished && WorkerOk(call, w, mine)
    ensures CallLeft(call.(workers := call.workers[w := WorkerNext(call.workers[w], call.block)])) < CallLeft(call)
  {
    hide WorkersLeft, Unborn;
    WorkersLeftUpdate(call.workers, w, WorkerNext(call.workers[w], call.block), call.block.iterations);
  }

  lemma CallDecreases(s: State, a: Action)
    requires Inv(s) && Enabled(s, a)
    ensures CallLeft(Step(s, a).calls[a.c]) < CallLeft(s.calls[a.c])
  {
    hide CallLeft, Tight, WorkerOk;
    var call := s.calls[a.c];
    assert CallOk(call, s.owner == a.c);
    match a
    case Coordinator(c) => CoordinatorDecreases(call);
    case WorkerOf(c, w) => WorkerDecreases(call, w, s.owner == c);
  }

  /** Every step uses one of the steps left, so every run is finite. */
  lemma StepDecreases(s: State, a: Action)
    requires Inv(s) && Enabled(s, a)
    ensures Left(Step(s, a).calls) < Left(s.calls)
  {
    hide CallLeft, Inv, CoordinatorCall, WorkerNext, Left;
    CallDecreases(s, a);
    LeftUpdate(s.calls, a.c, Step(s, a).calls[a.c]);
  }

  lemma CoordinatorDecreases(call: Call)
    requires Tight(call) && call.phase != Done
    ensures CallLeft(CoordinatorCall(call)) < CallLeft(call)
  {
    if call.phase.Creating? {
      var ws := call.workers + [Started];
      assert ws[..|ws| - 1] == call.workers;
    }
  }

  /** A run that cannot go on has finished every call and left the mutex unlocked, and no
      run is longer than the number of steps left at its start. */
  lemma {:induction false} RunsFinish(s: State, actions: seq<Action>)
    requires Inv(s) && IsRun(s, actions)
    ensures |actions| + Left(After(s, actions).calls) <= Left(s.calls)
    ensures (forall a :: !Enabled(After(s, actions), a)) ==> Final(After(s, actions)) && After(s, actions).owner == -1
    decreases |actions|
  {
    if actions == [] {
      var a := NoDeadlock(s);
    } else {
      StepDecreases(s, actions[0]);
      StepKeepsInv(s, actions[0]);
      RunsFinish(Step(s, actions[0]), actions[1..]);
    }
  }

  // ---------------------------------------------------------------- message order

  /** The iteration messages of call `c`, in the order in which they were sent. */
  function IterationsOf(log: seq<Message>, c: nat): seq<Message> {
    if log == [] then [] else
    var last := log[|log| - 1];
    IterationsOf(log[..|log| - 1], c) + if last.Iteration? && last.call == c then [last] else []
  }

  /** Worker `w`'s first `n` messages. */
  function Messages(c: nat, w: nat, n: nat): seq<Message> {
    seq(n, i requires 0 <= i => Iteration(c, w, i))
  }

  /** Worker 0's messages, then worker 1's, and so on. */
  function InOrder(c: nat, threads: nat, iterations: nat): seq<Message> {
    if threads == 0 then [] else InOrder(c, threads - 1, iterations) + Messages(c, threads - 1, iterations)
  }

  /** How many messages a worker has sent. */
  function Sent(w: Worker, iterations: nat): nat {
    match w
    case Started => 0
    case KnowsId(_) => 0
    case Looping(_, _, i) => i
    case _ => iterations
  }

  /** What the workers of a call have sent, by worker. */
  function Said(ws: seq<Worker>, c: nat, iterations: nat): seq<Message> {
    if ws == [] then [] else
    var w := |ws| - 1;
    Said(ws[..w], c, iterations) + Messages(c, w, Sent(ws[w], iterations))
  }

  ghost predicate Ordered(s: State) {
    forall c :: 0 <= c < |s.calls| ==> OrderedCall(s, c)
  }

  ghost predicate OrderedCall(s: State, c: nat)
    requires c < |s.calls|
  {
    IterationsOf(s.log, c) == Said(s.calls[c].workers, c, s.calls[c].block.iterations)
  }

  /** A worker that sends nothing in a step leaves what was said; only the last worker may send. */
  lemma {:induction false} SaidUpdate(ws: seq<Worker>, c: nat, iterations: nat, w: nat, x: Worker)
    requires w < |ws|
    requires Sent(x, iterations) == Sent(ws[w], iterations) ||
             (w == |ws| - 1 && Sent(x, iterations) == Sent(ws[w], iterations) + 1)
    ensures Said(ws[w := x], c, iterations) ==
            Said(ws, c, iterations) +
            if Sent(x, iterations) == Sent(ws[w], iterations) then [] else [Iteration(c, w, Sent(ws[w], iterations))]
    decreases |ws|
  {
    var n := |ws| - 1;
    if w < n {
      SaidUpdate(ws[..n], c, iterations, w, x);
      assert ws[w := x][..n] == ws[..n][w := x];
    } else {
      assert ws[w := x][..n] == ws[..n];
      var k := Sent(ws[w], iterations);
      assert Messages(c, w, k + 1) == Messages(c, w, k) + [Iteration(c, w, k)];
    }
  }

  lemma SaidCreated(ws: seq<Worker>, c: nat, iterations: nat)
    ensures Said(ws + [Started], c, iterations) == Said(ws, c, iterations)
  {
    var ws' := ws + [Started];
    assert ws'[..|ws'| - 1] == ws;
  }

  lemma IterationsAppend(log: seq<Message>, m: Message, c: nat)
    ensures IterationsOf(log + [m], c) ==
            IterationsOf(log, c) + if m.Iteration? && m.call == c then [m] else []
  {
    var log' := log + [m];
    assert log'[..|log'| - 1] == log;
  }

  lemma WorkerKeepsOrder(s: State, c: nat, w: nat)
    requires Inv(s) && Enabled(s, WorkerOf(c, w)) && OrderedCall(s, c)
    ensures OrderedCall(Step(s, WorkerOf(c, w)), c)
  {
    hide IterationsOf, Said, Messages;
    var call := s.calls[c];
    var me := call.workers[w];
    assert CallOk(call, s.owner == c);
    assert WorkerOk(call, w, s.owner == c);
    SaidUpdate(call.workers, c, call.block.iterations, w, WorkerNext(me, call.block));
    if me.Looping? && me.i < me.iterations {
      IterationsAppend(s.log, Iteration(c, me.id, me.i), c);
    }
  }

  lemma CoordinatorKeepsOrder(s: State, c: nat)
    requires Enabled(s, Coordinator(c)) && OrderedCall(s, c)
    ensures OrderedCall(Step(s, Coordinator(c)), c)
  {
    hide IterationsOf, Said, Messages;
    var call := s.calls[c];
    if call.phase.Creating? { SaidCreated(call.workers, c, call.block.iterations); }
    if call.phase.Joining? { IterationsAppend(s.log, Returned(c, call.phase.i), c); }
  }

  lemma StepKeepsOrder(s: State, a: Action)
    requires Inv(s) && Enabled(s, a) && Ordered(s)
    ensures Ordered(Step(s, a))
  {
    var s' := Step(s, a);
    match a {
      case Coordinator(c) => CoordinatorKeepsOrder(s, c);
      case WorkerOf(c, w) => WorkerKeepsOrder(s, c, w);
    }
    hide Inv, IterationsOf, Said;
    forall c | 0 <= c < |s'.calls| ensures OrderedCall(s', c) {
      if c != a.c {
        assert OrderedCall(s, c);
        if s'.log != s.log {
          IterationsAppend(s.log, s'.log[|s.log|], c);
        }
      }
    }
  }

  /** The requests of the calls never change. */
  ghost predicate SameRequests(s: State, s': State) {
    && |s'.calls| == |s.calls|
    && forall c :: 0 <= c < |s.calls| ==>
         && s'.calls[c].block.threads == s.calls[c].block.threads
         && s'.calls[c].block.iterations == s.calls[c].block.iterations
  }

  lemma {:induction false} RunKeepsOrder(s: State, actions: seq<Action>)
    requires Inv(s) && Ordered(s) && IsRun(s, actions)
    ensures Ordered(After(s, actions)) && SameRequests(s, After(s, actions))
    decreases |actions|
  {
    if actions != [] {
      StepKeepsInv(s, actions[0]);
      StepKeepsOrder(s, actions[0]);
      StepKeepsRequests(s, actions[0]);
      hide Inv, Ordered, Step, Enabled;
      RunKeepsOrder(Step(s, actions[0]), actions[1..]);
    }
  }

  lemma StepKeepsRequests(s: State, a: Action)
    requires Enabled(s, a)
    ensures SameRequests(s, Step(s, a))
  {
  }

  lemma {:induction false} SaidAll(ws: seq<Worker>, c: nat, iterations: nat)
    requires forall w :: 0 <= w < |ws| ==> ws[w] == Finished
    ensures Said(ws, c, iterations) == InOrder(c, |ws|, iterations)
    decreases |ws|
  {
    if ws != [] { SaidAll(ws[..|ws| - 1], c, iterations); }
  }

  /** Once a call is done, its iteration messages are worker 0's in order, then worker 1's,
      and so on, whatever other calls did meanwhile. */
  lemma MessagesInOrder(s: State, actions: seq<Action>, c: nat)
    requires Initial(s) && IsRun(s, actions) && c < |s.calls|
    ensures var s' := After(s, actions);
            && SameRequests(s, s')
            && (s'.calls[c].phase == Done ==>
                  IterationsOf(s'.log, c) == InOrder(c, s.calls[c].block.threads, s.calls[c].block.iterations))
  {
    InitialInv(s);
    assert Ordered(s) by {
      forall d | 0 <= d < |s.calls| ensures OrderedCall(s, d) {}
    }
    RunKeepsInv(s, actions);
    RunKeepsOrder(s, actions);
    var s' := After(s, actions);
    assert OrderedCall(s', c);
    var call := s'.calls[c];
    if call.phase == Done {
      assert CallOk(call, s'.owner == c);
      forall w | 0 <= w < |call.workers| ensures call.workers[w] == Finished {
        assert WorkerOk(call, w, s'.owner == c);
      }
      SaidAll(call.workers, c, call.block.iterations);
    }
  }

  // ---------------------------------------------------------------- returned workers

  /** The messages of call `c` that say that a worker returned, in the order in which they were sent. */
  function ReturnsOf(log: seq<Message>, c: nat): seq<Message> {
    if log == [] then [] else
    var last := log[|log| - 1];
    ReturnsOf(log[..|log| - 1], c) + if last.Returned? && last.call == c then [last] else []
  }

  /** Workers 0 to `n` - 1, once each. */
  function Returns(c: nat, n: nat): seq<Message> {
    seq(n, w requires 0 <= w => Returned(c, w))
  }

  lemma ReturnsAppend(log: seq<Message>, m: Message, c: nat)
    ensures ReturnsOf(log + [m], c) == ReturnsOf(log, c) + if m.Returned? && m.call == c then [m] else []
  {
    var log' := log + [m];
    assert log'[..|log'| - 1] == log;
  }

  /** `later` may come after `earlier`: of a call of `threads` workers, once a worker has returned
      only the last one sends, and not after it has returned itself. */
  predicate MayFollow(earlier: Message, later: Message, c: nat, threads: nat) {
    earlier.Returned? && earlier.call == c && later.Iteration? && later.call == c ==>
      later.worker == threads - 1 && earlier.worker < later.worker
  }

  ghost predicate Reported(s: State, c: nat)
    requires c < |s.calls|
  {
    && ReturnsOf(s.log, c) == Returns(c, Joined(s.calls[c]))
    && (forall p :: 0 <= p < |s.log| && s.log[p].Returned? && s.log[p].call == c ==> 0 <= s.log[p].worker < Joined(s.calls[c]))
    && (forall p, q :: 0 <= p < q < |s.log| ==> MayFollow(s.log[p], s.log[q], c, s.calls[c].block.threads))
  }

  lemma CoordinatorReports(s: State, c: nat)
    requires Inv(s) && Enabled(s, Coordinator(c)) && Reported(s, c)
    ensures Reported(Step(s, Coordinator(c)), c)
  {
    hide ReturnsOf;
    var call := s.calls[c];
    assert CallOk(call, s.owner == c);
    hide CallOk, Inv;
    if call.phase.Joining? && call.phase.i < call.block.threads {
      ReturnsAppend(s.log, Returned(c, call.phase.i), c);
      assert Returns(c, call.phase.i + 1) == Returns(c, call.phase.i) + [Returned(c, call.phase.i)];
    }
  }

  lemma WorkerReports(s: State, c: nat, w: nat)
    requires Inv(s) && Enabled(s, WorkerOf(c, w)) && Reported(s, c)
    ensures Reported(Step(s, WorkerOf(c, w)), c)
  {
    hide ReturnsOf, Returns;
    var call := s.calls[c];
    var me := call.workers[w];
    assert CallOk(call, s.owner == c) && WorkerOk(call, w, s.owner == c);
    hide CallOk, Inv;
    if me.Looping? && me.i < me.iterations {
      ReturnsAppend(s.log, Iteration(c, me.id, me.i), c);
    }
  }

  lemma OthersReport(s: State, a: Action, c: nat)
    requires Inv(s) && Enabled(s, a) && c < |s.calls| && c != a.c && Reported(s, c)
    ensures Reported(Step(s, a), c)
  {
    hide ReturnsOf, Returns;
    var s' := Step(s, a);
    if s'.log != s.log { ReturnsAppend(s.log, s'.log[|s.log|], c); }
  }

  lemma {:induction false} RunReports(s: State, actions: seq<Action>, c: nat)
    requires Inv(s) && c < |s.calls| && Reported(s, c) && IsRun(s, actions)
    ensures c < |After(s, actions).calls| && Reported(After(s, actions), c)
    decreases |actions|
  {
    if actions != [] {
      var a := actions[0];
      StepKeepsInv(s, a);
      if a.c == c {
        match a
        case Coordinator(_) => CoordinatorReports(s, c);
        case WorkerOf(_, w) => WorkerReports(s, c, w);
      } else {
        OthersReport(s, a, c);
      }
      hide Inv, Reported, Enabled;
      RunReports(Step(s, a), actions[1..], c);
    }
  }

  /** Once a call is done it has reported workers 0 to threads - 1, once each and in order; in
      every state, no worker sends after it was reported, and after the first report only
      the last worker sends. */
  lemma ReturnedInOrder(s: State, actions: seq<Action>, c: nat)
    requires Initial(s) && IsRun(s, actions) && c < |s.calls|
    ensures var s', n := After(s, actions), s.calls[c].block.threads;
            && SameRequests(s, s')
            && (s'.calls[c].phase == Done ==> ReturnsOf(s'.log, c) == Returns(c, n))
            && forall p, q :: 0 <= p < q < |s'.log| ==> MayFollow(s'.log[p], s'.log[q], c, n)
  {
    hide ReturnsOf;
    InitialInv(s);
    assert Reported(s, c) by { NothingReported(s, c); }
    RunKeepsInv(s, actions);
    MessagesInOrder(s, actions, c);
    RunReports(s, actions, c);
    var s' := After(s, actions);
    assert CallOk(s'.calls[c], s'.owner == c);
    hide IsRun, After, Inv, CallOk;
  }

  lemma NothingReported(s: State, c: nat)
    requires Initial(s) && c < |s.calls|
    ensures Reported(s, c)
  {
  }

  lemma {:induction false} Extend(s: State, actions: seq<Action>, a: Action)
    requires IsRun(s, actions) && Enabled(After(s, actions), a)
    ensures IsRun(s, actions + [a]) && After(s, actions + [a]) == Step(After(s, actions), a)
    decreases |actions|
  {
    var longer := actions + [a];
    if actions != [] {
      assert longer[0] == actions[0] && longer[1..] == actions[1..] + [a];
      Extend(Step(s, actions[0]), actions[1..], a);
    } else {
      assert longer[1..] == [];
    }
  }

  /** One call with two workers of one iteration each. */
  function TwoWorkers(owner: int, phase: Phase, id: int, workers: seq<Worker>, log: seq<Message>): State {
    State(owner, [Call(phase, Block(id, 2, 1, false), workers)], log)
  }

  lemma Updates()
    ensures forall x: Call, y: Call :: [x][0 := y] == [y]
    ensures forall x: Worker, y: Worker :: [x][0 := y] == [y]
    ensures forall x: Worker, y: Worker, z: Worker :: [x, y][1 := z] == [x, z]
  {
  }

  /** One more step of a run, to a known state. */
  lemma Then(s: State, actions: seq<Action>, now: State, a: Action, next: State)
    requires IsRun(s, actions) && After(s, actions) == now && Enabled(now, a) && Step(now, a) == next
    ensures IsRun(s, actions + [a]) && After(s, actions + [a]) == next
  {
    Extend(s, actions, a);
  }

  /** The coordinator creates a worker. */
  lemma Creates(s: State, actions: seq<Action>, i: nat, id: int, ws: seq<Worker>, log: seq<Message>) returns (longer: seq<Action>)
    requires IsRun(s, actions) && After(s, actions) == TwoWorkers(-1, Locking(i), id, ws, log) && i < 2
    ensures IsRun(s, longer) && After(s, longer) == TwoWorkers(0, Locking(i + 1), i, ws + [Started], log)
  {
    hide IsRun, After;
    Updates();
    var c := Coordinator(0);
    var s1, s2 := TwoWorkers(0, Writing(i), id, ws, log), TwoWorkers(0, Creating(i), i, ws, log);
    Then(s, actions, TwoWorkers(-1, Locking(i), id, ws, log), c, s1);
    Then(s, actions + [c], s1, c, s2);
    Then(s, actions + [c] + [c], s2, c, TwoWorkers(0, Locking(i + 1), i, ws + [Started], log));
    longer := actions + [c] + [c] + [c];
  }

  /** The newest worker `w` reads its number and sends its one message. */
  lemma Sends(s: State, actions: seq<Action>, phase: Phase, w: nat, older: seq<Worker>, log: seq<Message>) returns (longer: seq<Action>)
    requires |older| == w && IsRun(s, actions) && After(s, actions) == TwoWorkers(0, phase, w, older + [Started], log)
    ensures IsRun(s, longer) && After(s, longer) == TwoWorkers(0, phase, w, older + [Looping(w, 1, 1)], log + [Iteration(0, w, 0)])
  {
    hide IsRun, After;
    Updates();
    var a := WorkerOf(0, w);
    assert forall x: Worker, y: Worker :: (older + [x])[w := y] == older + [y];
    var s1, s2 := TwoWorkers(0, phase, w, older + [KnowsId(w)], log), TwoWorkers(0, phase, w, older + [Looping(w, 1, 0)], log);
    Then(s, actions, TwoWorkers(0, phase, w, older + [Started], log), a, s1);
    Then(s, actions + [a], s1, a, s2);
    Then(s, actions + [a] + [a], s2, a, TwoWorkers(0, phase, w, older + [Looping(w, 1, 1)], log + [Iteration(0, w, 0)]));
    longer := actions + [a] + [a] + [a];
  }

  lemma Finishes(s: State, actions: seq<Action>, log: seq<Message>) returns (longer: seq<Action>)
    requires IsRun(s, actions) && After(s, actions) == TwoWorkers(0, Locking(1), 0, [Looping(0, 1, 1)], log)
    ensures IsRun(s, longer) && After(s, longer) == TwoWorkers(-1, Locking(1), 0, [Finished], log)
  {
    hide IsRun, After;
    Updates();
    var a := WorkerOf(0, 0);
    var s1, s2 := TwoWorkers(0, Locking(1), 0, [Unlocking], log), TwoWorkers(-1, Locking(1), 0, [Detaching], log);
    Then(s, actions, TwoWorkers(0, Locking(1), 0, [Looping(0, 1, 1)], log), a, s1);
    Then(s, actions + [a], s1, a, s2);
    Then(s, actions + [a] + [a], s2, a, TwoWorkers(-1, Locking(1), 0, [Finished], log));
    longer := actions + [a] + [a] + [a];
  }

  lemma Joins(s: State, actions: seq<Action>, log: seq<Message>) returns (longer: seq<Action>)
    requires IsRun(s, actions) && After(s, actions) == TwoWorkers(0, Locking(2), 1, [Finished, Started], log)
    ensures IsRun(s, longer) && After(s, longer) == TwoWorkers(0, Joining(1), 1, [Finished, Started], log + [Returned(0, 0)])
  {
    hide IsRun, After;
    Updates();
    var c, s1 := Coordinator(0), TwoWorkers(0, Joining(0), 1, [Finished, Started], log);
    Then(s, actions, TwoWorkers(0, Locking(2), 1, [Finished, Started], log), c, s1);
    Then(s, actions + [c], s1, c, TwoWorkers(0, Joining(1), 1, [Finished, Started], log + [Returned(0, 0)]));
    longer := actions + [c] + [c];
  }

  /** Worker 0 of a fresh call runs to its end. */
  lemma FirstRuns(s: State) returns (actions: seq<Action>)
    requires s == TwoWorkers(-1, Locking(0), 0, [], [])
    ensures Initial(s) && IsRun(s, actions) && After(s, actions) == TwoWorkers(-1, Locking(1), 0, [Finished], [] + [Iteration(0, 0, 0)])
  {
    assert Initial(s) && IsRun(s, []) && After(s, []) == s;
    hide IsRun, After, Initial;
    assert [] + [Started] == [Started] && [] + [Looping(0, 1, 1)] == [Looping(0, 1, 1)];
    hide TwoWorkers;
    actions := Creates(s, [], 0, 0, [], []);
    actions := Sends(s, actions, Locking(1), 0, [], []);
    actions := Finishes(s, actions, [] + [Iteration(0, 0, 0)]);
  }

  /** Worker 1 sends after worker 0 has been reported. */
  lemma SecondLate(s: State, first: seq<Action>, log: seq<Message>) returns (actions: seq<Action>)
    requires IsRun(s, first) && After(s, first) == TwoWorkers(-1, Locking(1), 0, [Finished], log)
    ensures IsRun(s, actions)
    ensures After(s, actions) == TwoWorkers(0, Joining(1), 1, [Finished] + [Looping(1, 1, 1)], log + [Returned(0, 0)] + [Iteration(0, 1, 0)])
  {
    hide IsRun, After;
    assert [Finished] + [Started] == [Finished, Started];
    hide TwoWorkers;
    actions := Creates(s, first, 1, 0, [Finished], log);
    actions := Joins(s, actions, log);
    actions := Sends(s, actions, Joining(1), 1, [Finished], log + [Returned(0, 0)]);
  }

  /** Not all of a call's messages come before its first report: the last worker can be late. */
  lemma ReportBeforeLast() returns (s: State, actions: seq<Action>)
    ensures Initial(s) && IsRun(s, actions)
    ensures After(s, actions).log == [Iteration(0, 0, 0), Returned(0, 0), Iteration(0, 1, 0)]
  {
    hide IsRun, After, Initial;
    s := TwoWorkers(-1, Locking(0), 0, [], []);
    actions := FirstRuns(s);
    actions := SecondLate(s, actions, [] + [Iteration(0, 0, 0)]);
  }
}
