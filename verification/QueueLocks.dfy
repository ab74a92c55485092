/** The mutexes of core/threading/event_queue: which of them a thread holds while it uses the queues. */
module QueueLocks {
  import Queues = EventQueue

  datatype Action = Lock(queue: nat) | Unlock(queue: nat)

  datatype Operation =
    | Push(queue: nat)
    | Begin(queue: nat)
    | Increment(queue: nat, owner: nat)   // the iterator's queue, and the queue that owns the event

  /** What each operation does to the mutexes. increment disposes of the event first, under the owner's mutex, and
      then frees the node under its own queue's. */
  function Actions(op: Operation): seq<Action> {
    match op
    case Push(q) => [Lock(q), Unlock(q)]
    case Begin(q) => [Lock(q), Unlock(q)]
    case Increment(q, owner) => [Lock(owner), Unlock(owner)] + [Lock(q), Unlock(q)]
  }

  function Program(ops: seq<Operation>): seq<Action> {
    if ops == [] then [] else Actions(ops[0]) + Program(ops[1..])
  }

  /** The critical sections of an operation, as steps of the queues. */
  function Steps(op: Operation, t: nat, e: nat): seq<Queues.Step> {
    match op
    case Push(q) => [Queues.Push(q, e)]
    case Begin(q) => [Queues.Begin(t, q)]
    case Increment(_, _) => [Queues.Dispose(t), Queues.Release(t)]
  }

  /** The operation's queue and owner are those of the thread's iterator and of the event it is at. */
  predicate Meant(s: Queues.System, owners: map<nat, nat>, op: Operation, t: nat) {
    op.Increment? ==>
      && t in s.iterators && s.iterators[t].queue == op.queue < |s.queues|
      && (s.iterators[t].AtNode? ==>
            var e := Queues.EventOf(s.queues[op.queue].fixed.words, s.iterators[t].node);
            e in owners && owners[e] == op.owner)
  }

  /** An operation takes and releases one mutex for each of its critical sections, in their order, and it is the
      mutex of the one queue that the section changes. */
  lemma SectionsProtect(s: Queues.System, owners: map<nat, nat>, op: Operation, t: nat, e: nat, k: nat, q: nat)
    requires k < |Steps(op, t, e)| && Queues.Enabled(s, owners, Steps(op, t, e)[k]) && Meant(s, owners, op, t)
    ensures |Actions(op)| == 2 * |Steps(op, t, e)|
    ensures var lock, unlock := Actions(op)[2 * k], Actions(op)[2 * k + 1];
            && lock.Lock? && unlock == Unlock(lock.queue)
            && var s' := Queues.Next(s, owners, Steps(op, t, e)[k]);
               |s'.queues| == |s.queues| && (q < |s.queues| && q != lock.queue ==> s'.queues[q] == s.queues[q])
  {
    hide Queues.Pushed;
  }

  /** What every thread has left to do, and who holds each mutex that is held. */
  datatype System = System(code: map<nat, seq<Action>>, holder: map<nat, nat>)

  predicate Enabled(s: System, t: nat) {
    t in s.code && s.code[t] != []
    && match s.code[t][0]
       case Lock(q) => q !in s.holder
       case Unlock(q) => q in s.holder && s.holder[q] == t
  }

  function Next(s: System, t: nat): System
    requires Enabled(s, t)
  {
    var code := s.code[t := s.code[t][1..]];
    match s.code[t][0]
    case Lock(q) => System(code, s.holder[q := t])
    case Unlock(q) => System(code, s.holder - {q})
  }

  ghost predicate Start(s: System) {
    s.holder == map[] && forall t | t in s.code :: exists ops :: s.code[t] == Program(ops)
  }

  ghost predicate IsRun(run: seq<System>, threads: seq<nat>) {
    && |run| == |threads| + 1
    && forall i | 0 <= i < |threads| :: Enabled(run[i], threads[i]) && run[i + 1] == Next(run[i], threads[i])
  }

  // ---------------------------------------------------------------- one mutex at a time

  predicate Balanced(code: seq<Action>) {
    code == []
    || (|code| >= 2 && code[0].Lock? && code[1] == Unlock(code[0].queue) && Balanced(code[2..]))
  }

  lemma {:induction false} BalancedJoin(x: seq<Action>, y: seq<Action>)
    requires Balanced(x) && Balanced(y)
    ensures Balanced(x + y)
    decreases |x|
  {
    if x == [] {
      assert x + y == y;
    } else {
      assert (x + y)[2..] == x[2..] + y;
      BalancedJoin(x[2..], y);
    }
  }

  lemma {:induction false} ProgramBalanced(ops: seq<Operation>)
    ensures Balanced(Program(ops))
  {
    if ops != [] {
      var a := Actions(ops[0]);
      assert a[2..] == [] || (|a| == 4 && a[2..][2..] == []);
      ProgramBalanced(ops[1..]);
      BalancedJoin(a, Program(ops[1..]));
    }
  }

  ghost function Held(s: System, t: nat): set<nat> {
    set q | q in s.holder && s.holder[q] == t
  }

  /** A thread either is between operations and holds nothing, or holds the one mutex it releases next. */
  ghost predicate Orderly(s: System, t: nat)
    requires t in s.code
  {
    if Balanced(s.code[t]) then Held(s, t) == {}
    else
      s.code[t] != [] && s.code[t][0].Unlock? && Balanced(s.code[t][1..]) && Held(s, t) == {s.code[t][0].queue}
  }

  ghost predicate AllOrderly(s: System) {
    && (forall t | t in s.code :: Orderly(s, t))
    && forall q | q in s.holder :: s.holder[q] in s.code
  }

  lemma StepOrderly(s: System, t: nat)
    requires AllOrderly(s) && Enabled(s, t)
    ensures AllOrderly(Next(s, t)) && Next(s, t).code.Keys == s.code.Keys
  {
    var s' := Next(s, t);
    forall u | u in s'.code
      ensures Orderly(s', u)
    {
      assert Orderly(s, u);
      if u == t {
        if s.code[t][0].Lock? {
          assert s.code[t][1..][1..] == s.code[t][2..];
          assert Held(s', t) == {s.code[t][0].queue};
        } else {
          assert Held(s', t) == {};
        }
      } else {
        assert Held(s', u) == Held(s, u);
      }
    }
  }

  /** Whatever the threads do with the queues, in any interleaving: no thread ever holds two mutexes, and as long
      as any thread has anything left to do, some thread can take a step. */
  lemma {:induction false} NoWaitCycle(run: seq<System>, threads: seq<nat>, n: nat)
    requires IsRun(run, threads) && Start(run[0]) && n < |run|
    ensures AllOrderly(run[n])
    ensures forall t :: |Held(run[n], t)| <= 1
    ensures (exists t :: t in run[n].code && run[n].code[t] != []) ==> exists t :: Enabled(run[n], t)
  {
    if n == 0 {
      forall t | t in run[0].code
        ensures Orderly(run[0], t)
      {
        var ops :| run[0].code[t] == Program(ops);
        ProgramBalanced(ops);
      }
    } else {
      NoWaitCycle(run, threads, n - 1);
      StepOrderly(run[n - 1], threads[n - 1]);
    }
    HoldsOne(run[n]);
    if t :| t in run[n].code && run[n].code[t] != [] {
      SomeoneMoves(run[n], t);
    }
  }

  lemma HoldsOne(s: System)
    requires AllOrderly(s)
    ensures forall t :: |Held(s, t)| <= 1
  {
    forall t
      ensures |Held(s, t)| <= 1
    {
      if t in s.code {
        assert Orderly(s, t);
      } else {
        assert Held(s, t) == {};
      }
    }
  }

  /** A thread that waits for a mutex waits for one whose holder is about to release it. */
  lemma SomeoneMoves(s: System, t: nat)
    requires AllOrderly(s) && t in s.code && s.code[t] != []
    ensures exists u :: Enabled(s, u)
  {
    assert Orderly(s, t);
    var first := s.code[t][0];
    if first.Unlock? {
      assert first.queue in Held(s, t);
      assert Enabled(s, t);
    } else if first.queue in s.holder {
      var u := s.holder[first.queue];
      assert Orderly(s, u) && first.queue in Held(s, u);
      assert Enabled(s, u);
    } else {
      assert Enabled(s, t);
    }
  }

  /** Every run is finite: each step is one action fewer. */
  lemma {:induction false} RunsEnd(run: seq<System>, threads: seq<nat>, t: nat, n: nat)
    requires IsRun(run, threads) && Start(run[0]) && n < |run| && t in run[0].code
    ensures t in run[n].code && |run[0].code[t]| == |run[n].code[t]| + Turns(threads[..n], t)
  {
    hide Start, Next, Enabled;
    if n > 0 {
      RunsEnd(run, threads, t, n - 1);
      StepShrinks(run[n - 1], threads[n - 1], t);
      OneTurn(threads[..n - 1], threads[n - 1], t);
      assert threads[..n] == threads[..n - 1] + [threads[n - 1]];
    }
  }

  lemma StepShrinks(s: System, u: nat, t: nat)
    requires Enabled(s, u) && t in s.code
    ensures t in Next(s, u).code
    ensures |s.code[t]| == |Next(s, u).code[t]| + if u == t then 1 else 0
  {}

  lemma OneTurn(threads: seq<nat>, u: nat, t: nat)
    ensures Turns(threads + [u], t) == Turns(threads, t) + if u == t then 1 else 0
  {}

  function Turns(threads: seq<nat>, t: nat): nat {
    multiset(threads)[t]
  }
}
