/** Many client threads, one connection per request, one server handling connections one at a time:
    the exchange as interleaved steps (RpcClient::send in crates/netfilum-client/src/rpc_client.rs,
    RpcServer::serve and handle_data in crates/netfilum-server/src/server.rs). */
module Exchange {
  import opened Wrappers
  import opened Protocol
  import opened FileTree
  import opened ServerSpec
  import opened Runs

  datatype Outcome = Pending | Got(reply: Reply, at: nat) | Lost(at: nat)

  // One call of `send`, and what is in its connection.
  datatype Sending = Sending(
    request: Request,
    invokedAt: nat,
    connected: bool,
    written: bool,
    reply: Option<Reply>,
    outcome: Outcome)

  datatype Serving =
    | Idle
    | Reading(c: nat)
    | Replying(c: nat, reply: Reply)

  // A request as the server ran it; `at` is the time of the step.
  datatype Entry = Entry(c: nat, call: Call, reply: Reply, at: nat)

  datatype World = World(
    fs: Fs,
    calls: map<nat, Sending>,
    waiting: set<nat>,
    serving: Serving,
    log: seq<Entry>,
    clock: nat)

  function Start(fs: Fs): World {
    World(fs, map[], {}, Idle, [], 0)
  }

  datatype Step =
    | Invoke(c: nat, request: Request)
    | Connect(c: nat)
    | WriteRequest(c: nat)
    | Accept(c: nat)
    | FailToRead
    | Execute(env: Env)
    | WriteReply
    | FailToReply
    | ReceiveReply(c: nat)
    | GiveUp(c: nat)

  predicate Active(w: World, c: nat) {
    c in w.calls && w.calls[c].outcome.Pending?
  }

  predicate Enabled(w: World, step: Step) {
    match step
    case Invoke(c, _) => c !in w.calls
    case Connect(c) => Active(w, c) && !w.calls[c].connected
    case WriteRequest(c) => Active(w, c) && w.calls[c].connected && !w.calls[c].written
    case Accept(c) => w.serving.Idle? && c in w.waiting
    case FailToRead => w.serving.Reading?
    case Execute(_) => w.serving.Reading? && w.serving.c in w.calls && w.calls[w.serving.c].written
    case WriteReply => w.serving.Replying? && w.serving.c in w.calls
    case FailToReply => w.serving.Replying?
    case ReceiveReply(c) => Active(w, c) && w.calls[c].reply.Some?
    case GiveUp(c) => Active(w, c)
  }

  function Put(w: World, c: nat, s: Sending): World {
    w.(calls := w.calls[c := s])
  }

  ghost function Change(ex: Export, w: World, step: Step): World
    requires Served(ex.root, w.fs) && Enabled(w, step)
  {
    match step
    case Invoke(c, request) => Put(w, c, Sending(request, w.clock, false, false, None, Pending))
    case Connect(c) => Put(w, c, w.calls[c].(connected := true)).(waiting := w.waiting + {c})
    case WriteRequest(c) => Put(w, c, w.calls[c].(written := true))
    case Accept(c) => w.(serving := Reading(c), waiting := w.waiting - {c})
    case FailToRead => w.(serving := Idle)
    case Execute(env) =>
      var c := w.serving.c;
      var call := Call(w.calls[c].request, env);
      var reply := Dispatch(ex, w.fs, call.request, env).1;
      w.(fs := Runs.Step(ex, w.fs, call), serving := Replying(c, reply), log := w.log + [Entry(c, call, reply, w.clock)])
    case WriteReply => Put(w, w.serving.c, w.calls[w.serving.c].(reply := Some(w.serving.reply))).(serving := Idle)
    case FailToReply => w.(serving := Idle)
    case ReceiveReply(c) => Put(w, c, w.calls[c].(outcome := Got(w.calls[c].reply.value, w.clock)))
    case GiveUp(c) => Put(w, c, w.calls[c].(outcome := Lost(w.clock)))
  }

  ghost function Apply(ex: Export, w: World, step: Step): (w': World)
    requires Served(ex.root, w.fs) && Enabled(w, step)
    ensures Served(ex.root, w'.fs)
  {
    var w' := Change(ex, w, step);
    w'.(clock := w.clock + 1)
  }

  ghost predicate Reaches(ex: Export, w: World, steps: seq<Step>, w': World)
    requires Served(ex.root, w.fs)
    decreases |steps|
  {
    if steps == [] then w' == w
    else Enabled(w, steps[0]) && Reaches(ex, Apply(ex, w, steps[0]), steps[1..], w')
  }

  // ---- What every reachable world satisfies ----

  function CallsOf(log: seq<Entry>): (calls: seq<Call>)
    ensures |calls| == |log| && forall i :: 0 <= i < |log| ==> calls[i] == log[i].call
  {
    seq(|log|, i requires 0 <= i < |log| => log[i].call)
  }

  predicate InLog(w: World, c: nat) {
    exists i :: 0 <= i < |w.log| && w.log[i].c == c
  }

  // The i-th logged request got the answer of its place in the order.
  ghost predicate InPlace(ex: Export, fs0: Fs, log: seq<Entry>, i: nat)
    requires Served(ex.root, fs0) && i < |log|
  {
    log[i].reply == Dispatch(ex, Run(ex, fs0, CallsOf(log[..i])), log[i].call.request, log[i].call.env).1
  }

  ghost predicate Logged(w: World, c: nat, reply: Reply, before: nat) {
    exists i :: 0 <= i < |w.log| && w.log[i].c == c && w.log[i].reply == reply && w.log[i].at < before
  }

  ghost predicate LogIsOrdered(w: World) {
    && (forall i, j {:trigger w.log[i], w.log[j]} :: 0 <= i < j < |w.log| ==> w.log[i].at < w.log[j].at && w.log[i].c != w.log[j].c)
    && (forall i {:trigger w.log[i]} :: 0 <= i < |w.log| ==>
          && w.log[i].at < w.clock && w.log[i].c in w.calls && w.log[i].c !in w.waiting
          && w.calls[w.log[i].c].connected
          && w.calls[w.log[i].c].request == w.log[i].call.request
          && w.calls[w.log[i].c].invokedAt < w.log[i].at)
  }

  ghost predicate WaitersAreSound(w: World) {
    && (forall c :: c in w.waiting ==> c in w.calls && w.calls[c].connected)
    && (forall c :: c in w.calls ==> w.calls[c].invokedAt < w.clock)
    && (w.serving.Reading? ==> w.serving.c in w.calls && w.calls[w.serving.c].connected && w.serving.c !in w.waiting && !InLog(w, w.serving.c))
  }

  // Every answer on its way or arrived is one the server logged, earlier.
  ghost predicate AnswersAreLogged(w: World) {
    && (w.serving.Replying? ==> Logged(w, w.serving.c, w.serving.reply, w.clock))
    && (forall c :: c in w.calls && w.calls[c].reply.Some? ==> Logged(w, c, w.calls[c].reply.value, w.clock))
    && (forall c :: c in w.calls && w.calls[c].outcome.Got? ==> Logged(w, c, w.calls[c].outcome.reply, w.calls[c].outcome.at))
  }

  ghost predicate StateIsFold(ex: Export, fs0: Fs, w: World)
    requires Served(ex.root, fs0)
  {
    && w.fs == Run(ex, fs0, CallsOf(w.log))
    && forall i: nat {:trigger InPlace(ex, fs0, w.log, i)} :: i < |w.log| ==> InPlace(ex, fs0, w.log, i)
  }

  ghost predicate Invariant(ex: Export, fs0: Fs, w: World)
    requires Served(ex.root, fs0)
  {
    LogIsOrdered(w) && WaitersAreSound(w) && AnswersAreLogged(w) && StateIsFold(ex, fs0, w)
  }

  lemma LoggedGrows(w: World, w': World, c: nat, reply: Reply, before: nat)
    requires Logged(w, c, reply, before) && w.log <= w'.log
    ensures forall later: nat :: before <= later ==> Logged(w', c, reply, later)
  {
    var i :| 0 <= i < |w.log| && w.log[i].c == c && w.log[i].reply == reply && w.log[i].at < before;
    assert w'.log[i] == w.log[i];
  }

  lemma StepKeepsOrder(ex: Export, w: World, step: Step)
    requires Served(ex.root, w.fs) && Enabled(w, step) && LogIsOrdered(w) && WaitersAreSound(w)
    ensures LogIsOrdered(Apply(ex, w, step))
  {
    hide Served, Runs.Step, Dispatch;
    if step.Execute? {
      forall i | 0 <= i < |w.log| ensures w.log[i].c != w.serving.c {
        assert !InLog(w, w.serving.c);
      }
    }
  }

  lemma StepKeepsWaiters(ex: Export, w: World, step: Step)
    requires Served(ex.root, w.fs) && Enabled(w, step) && LogIsOrdered(w) && WaitersAreSound(w)
    ensures WaitersAreSound(Apply(ex, w, step))
  {
    hide Served, Runs.Step, Dispatch;
  }

  lemma StepKeepsAnswers(ex: Export, w: World, step: Step)
    requires Served(ex.root, w.fs) && Enabled(w, step) && AnswersAreLogged(w)
    ensures AnswersAreLogged(Apply(ex, w, step))
  {
    var w' := Apply(ex, w, step);
    assert w.log <= w'.log;
    forall c, reply, before: nat | Logged(w, c, reply, before)
      ensures forall later: nat :: before <= later ==> Logged(w', c, reply, later)
    {
      LoggedGrows(w, w', c, reply, before);
    }
    if step.Execute? {
      assert w'.log[|w.log|].c == w.serving.c;
    }
    hide Served, Runs.Step, Dispatch;
  }

  lemma StepKeepsFold(ex: Export, fs0: Fs, w: World, step: Step)
    requires Served(ex.root, fs0) && Served(ex.root, w.fs) && Enabled(w, step) && StateIsFold(ex, fs0, w)
    ensures StateIsFold(ex, fs0, Apply(ex, w, step))
  {
    hide Served, Runs.Step, Dispatch;
    var w' := Apply(ex, w, step);
    if step.Execute? {
      var n := |w.log|;
      assert CallsOf(w'.log)[..n] == CallsOf(w.log);
      assert w'.log[..n] == w.log;
      forall i: nat | i < |w'.log| ensures InPlace(ex, fs0, w'.log, i) {
        if i < n {
          assert InPlace(ex, fs0, w.log, i);
          assert w'.log[..i] == w.log[..i];
        }
      }
    }
  }

  lemma {:induction false} RunKeepsInvariant(ex: Export, fs0: Fs, w: World, steps: seq<Step>, w': World)
    requires Served(ex.root, fs0) && Served(ex.root, w.fs)
    requires Invariant(ex, fs0, w) && Reaches(ex, w, steps, w')
    ensures Invariant(ex, fs0, w')
    decreases |steps|
  {
    hide LogIsOrdered, WaitersAreSound, AnswersAreLogged, StateIsFold, Served, Apply;
    if steps != [] {
      StepKeepsOrder(ex, w, steps[0]);
      StepKeepsWaiters(ex, w, steps[0]);
      StepKeepsAnswers(ex, w, steps[0]);
      StepKeepsFold(ex, fs0, w, steps[0]);
      RunKeepsInvariant(ex, fs0, Apply(ex, w, steps[0]), steps[1..], w');
    }
  }

  // Call `c` has its answer: it stands in the log once, with the answer of its place there.
  ghost predicate AnsweredInPlace(ex: Export, fs0: Fs, w: World, c: nat, i: nat)
    requires Served(ex.root, fs0) && c in w.calls && w.calls[c].outcome.Got?
  {
    && i < |w.log| && w.log[i].c == c && w.log[i].call.request == w.calls[c].request
    && w.calls[c].outcome.reply == Dispatch(ex, Run(ex, fs0, CallsOf(w.log[..i])), w.log[i].call.request, w.log[i].call.env).1
    && w.calls[c].invokedAt < w.log[i].at < w.calls[c].outcome.at
  }

  predicate AnsweredBefore(w: World, a: nat, b: nat) {
    a in w.calls && b in w.calls && w.calls[a].outcome.Got? && w.calls[a].outcome.at <= w.calls[b].invokedAt
  }

  lemma AnswersAreInPlace(ex: Export, fs0: Fs, w: World, c: nat)
    requires Served(ex.root, fs0) && Invariant(ex, fs0, w) && c in w.calls && w.calls[c].outcome.Got?
    ensures exists i: nat :: AnsweredInPlace(ex, fs0, w, c, i)
  {
    hide Served, Dispatch, Run;
    var i: nat :| i < |w.log| && w.log[i].c == c && w.log[i].reply == w.calls[c].outcome.reply && w.log[i].at < w.calls[c].outcome.at;
    assert InPlace(ex, fs0, w.log, i);
    assert AnsweredInPlace(ex, fs0, w, c, i);
  }

  lemma RealTimeOrder(w: World, i: nat, j: nat)
    requires LogIsOrdered(w) && AnswersAreLogged(w)
    requires i < |w.log| && j < |w.log| && AnsweredBefore(w, w.log[i].c, w.log[j].c)
    ensures i < j
  {
    var c := w.log[i].c;
    var k: nat :| k < |w.log| && w.log[k].c == c && w.log[k].reply == w.calls[c].outcome.reply && w.log[k].at < w.calls[c].outcome.at;
    assert k == i;
    assert w.log[i].at < w.log[j].at;
  }

  // Linearizability and at-most-once execution, for every interleaving of any number of threads,
  // timeouts and dropped connections.
  lemma ExchangeIsLinearizable(ex: Export, fs0: Fs, steps: seq<Step>, w: World)
    requires Served(ex.root, fs0) && Reaches(ex, Start(fs0), steps, w)
    // each call is run at most once, whatever it returned
    ensures forall i, j :: 0 <= i < j < |w.log| ==> w.log[i].c != w.log[j].c
    // the disk is what running the log in order leaves
    ensures w.fs == Run(ex, fs0, CallsOf(w.log))
    // an answered call was run between its invocation and its return, with that very answer
    ensures forall c :: c in w.calls && w.calls[c].outcome.Got? ==> exists i: nat :: AnsweredInPlace(ex, fs0, w, c, i)
    // a call answered before another was invoked comes first
    ensures forall i, j :: 0 <= i < |w.log| && 0 <= j < |w.log| && AnsweredBefore(w, w.log[i].c, w.log[j].c) ==> i < j
  {
    RunKeepsInvariant(ex, fs0, Start(fs0), steps, w);
    forall c | c in w.calls && w.calls[c].outcome.Got? ensures exists i: nat :: AnsweredInPlace(ex, fs0, w, c, i) {
      AnswersAreInPlace(ex, fs0, w, c);
    }
    forall i, j | 0 <= i < |w.log| && 0 <= j < |w.log| && AnsweredBefore(w, w.log[i].c, w.log[j].c) ensures i < j {
      RealTimeOrder(w, i, j);
    }
    hide Served, Dispatch, Run, WaitersAreSound, AnswersAreLogged, AnsweredInPlace, AnsweredBefore;
  }

  // ---- A lost call is not over ----

  lemma {:induction false} OneMore(ex: Export, w: World, steps: seq<Step>, mid: World, step: Step)
    requires Served(ex.root, w.fs) && Served(ex.root, mid.fs) && Reaches(ex, w, steps, mid) && Enabled(mid, step)
    ensures Reaches(ex, w, steps + [step], Apply(ex, mid, step))
    decreases |steps|
  {
    hide Served, Change, Apply;
    if steps == [] {
      assert (steps + [step])[1..] == [];
    } else {
      assert (steps + [step])[1..] == steps[1..] + [step];
      OneMore(ex, Apply(ex, w, steps[0]), steps[1..], mid, step);
    }
  }

  // Call 1 has connected and written its request, and given up; its connection is waiting.
  ghost predicate GivenUp(w: World, fs0: Fs, first: Request) {
    && w.calls == map[1 := Sending(first, 0, true, true, None, Lost(3))]
    && w.fs == fs0 && w.waiting == {1} && w.serving.Idle? && w.log == [] && w.clock == 4
  }

  lemma FirstGivesUp(ex: Export, fs0: Fs, first: Request) returns (steps: seq<Step>, w: World)
    requires Served(ex.root, fs0)
    ensures Served(ex.root, w.fs) && Reaches(ex, Start(fs0), steps, w) && GivenUp(w, fs0, first)
  {
    hide Served, Dispatch, Runs.Step, Reaches;
    steps, w := [], Start(fs0);
    EmptyReaches(ex, w);
    steps, w := Extend(ex, fs0, steps, w, Invoke(1, first));
    steps, w := Extend(ex, fs0, steps, w, Connect(1));
    steps, w := Extend(ex, fs0, steps, w, WriteRequest(1));
    steps, w := Extend(ex, fs0, steps, w, GiveUp(1));
  }

  // Meanwhile call 2 has been invoked, run and answered.
  ghost predicate SecondAnswered(w: World, first: Request, second: Request) {
    && 1 in w.calls && w.calls[1] == Sending(first, 0, true, true, None, Lost(3))
    && 2 in w.calls && w.calls[2].invokedAt == 4 && w.calls[2].outcome.Got? && w.calls[2].outcome.at < w.clock
    && w.waiting == {1} && w.serving.Idle?
    && |w.log| == 1 && w.log[0].c == 2 && w.log[0].call.request == second
  }

  lemma SecondGoesThrough(ex: Export, fs0: Fs, first: Request, second: Request, env: Env, steps0: seq<Step>, w0: World)
    returns (steps: seq<Step>, w: World)
    requires Served(ex.root, fs0) && Served(ex.root, w0.fs)
    requires Reaches(ex, Start(fs0), steps0, w0) && GivenUp(w0, fs0, first)
    ensures Served(ex.root, w.fs) && Reaches(ex, Start(fs0), steps, w) && SecondAnswered(w, first, second)
  {
    hide Served, Dispatch, Runs.Step, Reaches;
    steps, w := Extend(ex, fs0, steps0, w0, Invoke(2, second));
    steps, w := Extend(ex, fs0, steps, w, Connect(2));
    steps, w := Extend(ex, fs0, steps, w, WriteRequest(2));
    steps, w := Extend(ex, fs0, steps, w, Accept(2));
    steps, w := Extend(ex, fs0, steps, w, Execute(env));
    steps, w := Extend(ex, fs0, steps, w, WriteReply);
    steps, w := Extend(ex, fs0, steps, w, ReceiveReply(2));
  }

  // Whatever the two requests, a call that gave up can still be run, and run after a call that
  // was invoked later and has long been answered: real-time order is promised to answered calls only.
  lemma LostCallMayRunLate(ex: Export, fs0: Fs, first: Request, second: Request, env: Env)
    returns (steps: seq<Step>, w: World)
    requires Served(ex.root, fs0)
    ensures Reaches(ex, Start(fs0), steps, w)
    ensures |w.log| == 2 && w.log[0].c == 2 && w.log[1].c == 1
    ensures w.log[1].call.request == first && w.log[0].call.request == second
    ensures 1 in w.calls && 2 in w.calls && w.calls[1].outcome.Lost? && w.calls[2].outcome.Got?
    ensures w.calls[1].outcome.at < w.calls[2].invokedAt && w.calls[2].outcome.at < w.log[1].at
  {
    hide Served, Dispatch, Runs.Step, Reaches;
    steps, w := FirstGivesUp(ex, fs0, first);
    steps, w := SecondGoesThrough(ex, fs0, first, second, env, steps, w);
    steps, w := Extend(ex, fs0, steps, w, Accept(1));
    steps, w := Extend(ex, fs0, steps, w, Execute(env));
  }

  lemma EmptyReaches(ex: Export, w: World)
    requires Served(ex.root, w.fs)
    ensures Reaches(ex, w, [], w)
  {
  }

  lemma Extend(ex: Export, fs0: Fs, steps: seq<Step>, w: World, step: Step) returns (steps': seq<Step>, w': World)
    requires Served(ex.root, fs0) && Served(ex.root, w.fs) && Reaches(ex, Start(fs0), steps, w) && Enabled(w, step)
    ensures steps' == steps + [step] && w' == Apply(ex, w, step)
    ensures Served(ex.root, w'.fs) && Reaches(ex, Start(fs0), steps', w')
  {
    steps', w' := steps + [step], Apply(ex, w, step);
    OneMore(ex, Start(fs0), steps, w, step);
  }

  // ---- The server serves ----

  // Whatever it is doing, the server can be done with it: a connection that fails to send or to take
  // its reply does not hold it.
  lemma ServerFrees(ex: Export, fs0: Fs, steps: seq<Step>, w: World) returns (steps': seq<Step>, w': World)
    requires Served(ex.root, fs0) && Served(ex.root, w.fs) && Reaches(ex, Start(fs0), steps, w)
    ensures Served(ex.root, w'.fs) && Reaches(ex, Start(fs0), steps', w') && steps <= steps'
    ensures w'.serving.Idle? && w'.fs == w.fs && w'.log == w.log && w'.calls == w.calls
  {
    hide Served, Dispatch, Runs.Step, Reaches;
    steps', w' := steps, w;
    if w.serving.Reading? {
      steps', w' := Extend(ex, fs0, steps, w, FailToRead);
    } else if w.serving.Replying? {
      steps', w' := Extend(ex, fs0, steps, w, FailToReply);
    }
  }

  lemma {:induction false} ReachedIsServed(ex: Export, w: World, steps: seq<Step>, w': World)
    requires Served(ex.root, w.fs) && Reaches(ex, w, steps, w')
    ensures Served(ex.root, w'.fs)
    decreases |steps|
  {
    hide Served, Apply;
    if steps != [] {
      ReachedIsServed(ex, Apply(ex, w, steps[0]), steps[1..], w');
    }
  }

  // A new call accepted and run: on the disk as it is, next in the order.
  ghost predicate JustRun(ex: Export, w: World, w': World, c: nat, request: Request, env: Env)
    requires Served(ex.root, w.fs)
  {
    var call := Call(request, env);
    && w'.fs == Runs.Step(ex, w.fs, call)
    && |w'.log| == |w.log| + 1 && w'.log[..|w.log|] == w.log
    && w'.log[|w.log|].c == c && w'.log[|w.log|].call == call
    && w'.log[|w.log|].reply == Dispatch(ex, w.fs, request, env).1
    && c in w'.calls && w'.calls[c].request == request
  }

  lemma CallRuns(ex: Export, fs0: Fs, steps: seq<Step>, w: World, c: nat, request: Request, env: Env)
    returns (steps': seq<Step>, w': World)
    requires Served(ex.root, fs0) && Served(ex.root, w.fs) && Reaches(ex, Start(fs0), steps, w) && c !in w.calls
    ensures Served(ex.root, w'.fs) && Reaches(ex, Start(fs0), steps', w') && steps <= steps'
    ensures JustRun(ex, w, w', c, request, env) && w'.calls[c].outcome.Pending?
    ensures w'.serving == Replying(c, Dispatch(ex, w.fs, request, env).1)
  {
    hide Served, Dispatch, Runs.Step, Reaches;
    steps', w' := ServerFrees(ex, fs0, steps, w);
    steps', w' := Extend(ex, fs0, steps', w', Invoke(c, request));
    steps', w' := Extend(ex, fs0, steps', w', Connect(c));
    steps', w' := Extend(ex, fs0, steps', w', WriteRequest(c));
    steps', w' := Extend(ex, fs0, steps', w', Accept(c));
    steps', w' := Extend(ex, fs0, steps', w', Execute(env));
  }

  // From every reachable world, whatever calls are pending, waiting or lost, a new call can be run
  // next and get its answer.
  lemma AnyCallCanBeAnswered(ex: Export, fs0: Fs, steps: seq<Step>, w: World, c: nat, request: Request, env: Env)
    returns (steps': seq<Step>, w': World)
    requires Served(ex.root, fs0) && Reaches(ex, Start(fs0), steps, w) && c !in w.calls
    ensures Served(ex.root, w.fs)
    ensures Reaches(ex, Start(fs0), steps', w') && steps <= steps' && JustRun(ex, w, w', c, request, env)
    ensures w'.calls[c].outcome.Got? && w'.calls[c].outcome.reply == Dispatch(ex, w.fs, request, env).1 && w'.serving.Idle?
  {
    hide Served, Dispatch, Runs.Step, Reaches;
    ReachedIsServed(ex, Start(fs0), steps, w);
    steps', w' := CallRuns(ex, fs0, steps, w, c, request, env);
    steps', w' := Extend(ex, fs0, steps', w', WriteReply);
    steps', w' := Extend(ex, fs0, steps', w', ReceiveReply(c));
  }

  // Or it is run and its answer lost,
  lemma AnyCallCanBeRunAndLost(ex: Export, fs0: Fs, steps: seq<Step>, w: World, c: nat, request: Request, env: Env)
    returns (steps': seq<Step>, w': World)
    requires Served(ex.root, fs0) && Reaches(ex, Start(fs0), steps, w) && c !in w.calls
    ensures Served(ex.root, w.fs)
    ensures Reaches(ex, Start(fs0), steps', w') && steps <= steps' && JustRun(ex, w, w', c, request, env)
    ensures w'.calls[c].outcome.Lost? && w'.serving.Idle?
  {
    hide Served, Dispatch, Runs.Step, Reaches;
    ReachedIsServed(ex, Start(fs0), steps, w);
    steps', w' := CallRuns(ex, fs0, steps, w, c, request, env);
    steps', w' := Extend(ex, fs0, steps', w', FailToReply);
    steps', w' := Extend(ex, fs0, steps', w', GiveUp(c));
  }

  // or lost without ever being run: a lost call says nothing about which.
  lemma AnyCallCanBeLostUnrun(ex: Export, fs0: Fs, steps: seq<Step>, w: World, c: nat, request: Request)
    returns (steps': seq<Step>, w': World)
    requires Served(ex.root, fs0) && Reaches(ex, Start(fs0), steps, w) && c !in w.calls
    ensures Served(ex.root, w.fs)
    ensures Reaches(ex, Start(fs0), steps', w') && steps <= steps' && w'.fs == w.fs && w'.log == w.log
    ensures c in w'.calls && w'.calls[c].request == request && w'.calls[c].outcome.Lost?
    ensures c !in w'.waiting || c in w.waiting
  {
    hide Served, Dispatch, Runs.Step, Reaches;
    ReachedIsServed(ex, Start(fs0), steps, w);
    steps', w' := Extend(ex, fs0, steps, w, Invoke(c, request));
    steps', w' := Extend(ex, fs0, steps', w', GiveUp(c));
  }
}
