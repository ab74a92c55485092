/** Who has an event: waiting on one queue or left in one thread's batch, under every interleaving; and when one is
    disposed of more than once. */
module EventOwnership {
  import opened Queues = EventQueue
  import opened EventDelivery

  // ---------------------------------------------------------------- one owner at a time

  /** A position among the events waiting on a queue, or among those a thread has left of its batch. */
  datatype Place =
    | Waiting(queue: nat, index: nat)
    | InBatch(thread: nat, index: nat)

  predicate At(o: Outline, p: Place, e: nat) {
    match p
    case Waiting(q, i) => q < |o.views| && i < |o.views[q].events| && o.views[q].events[i] == e
    case InBatch(t, i) => t in o.hands && i < |Left(o.hands[t])| && Left(o.hands[t])[i] == e
  }

  ghost predicate Somewhere(o: Outline, e: nat) {
    exists p :: At(o, p, e)
  }

  /** Every event is in one place at most. */
  ghost predicate OneOwner(o: Outline) {
    forall e, p, p' | At(o, p, e) && At(o, p', e) :: p == p'
  }

  /** The step puts an event on a queue that no increment has returned. */
  predicate Brings(o: Outline, step: Step, e: nat) {
    step.Push? && step.event == e && step.queue < |o.views| && o.views[step.queue].room > 0
  }

  /** Where the event in place `p` after a step was before it. */
  function Origin(o: Outline, owners: map<nat, nat>, step: Step, p: Place): Place
    requires OutlineEnabled(o, owners, step)
  {
    match step
    case Begin(t, q) => if p.InBatch? && p.thread == t then Waiting(q, p.index) else p
    case Dispose(t) =>
      var owner := owners[o.hands[t].events[0]];
      if p == Waiting(owner, |o.views[owner].events|) then InBatch(t, 0)
      else if p.InBatch? && p.thread == t then InBatch(t, p.index + 1) else p
    case _ => p
  }

  /** The last place of the queue pushed to. */
  function NewPlace(o: Outline, step: Step): Place
    requires step.Push? && step.queue < |o.views|
  {
    Waiting(step.queue, |o.views[step.queue].events|)
  }

  /** A step moves events, brings at most one, and puts no two in the same place. */
  lemma OriginAt(o: Outline, owners: map<nat, nat>, step: Step, p: Place, e: nat)
    requires OutlineEnabled(o, owners, step) && At(OutlineNext(o, owners, step), p, e)
    ensures if Brings(o, step, e) && p == NewPlace(o, step) then !At(o, p, e)
            else At(o, Origin(o, owners, step, p), e)
  {}

  lemma OriginUnique(o: Outline, owners: map<nat, nat>, step: Step, p: Place, p': Place, e: nat)
    requires OutlineEnabled(o, owners, step)
    requires At(OutlineNext(o, owners, step), p, e) && At(OutlineNext(o, owners, step), p', e)
    requires Origin(o, owners, step, p) == Origin(o, owners, step, p')
    ensures p == p'
  {}

  /** A push that succeeds leaves everything where it was. */
  lemma PushedAt(o: Outline, owners: map<nat, nat>, step: Step, e: nat)
    requires OutlineEnabled(o, owners, step) && Brings(o, step, e)
    ensures At(OutlineNext(o, owners, step), NewPlace(o, step), e)
    ensures forall p, x | At(o, p, x) :: p != NewPlace(o, step) && At(OutlineNext(o, owners, step), p, x)
  {}

  /** A step keeps every event in one place exactly when it is not a push, with room, of an event that is somewhere
      already. */
  lemma StepOwned(o: Outline, owners: map<nat, nat>, step: Step)
    requires OutlineEnabled(o, owners, step) && OneOwner(o)
    ensures OneOwner(OutlineNext(o, owners, step)) <==> forall e | Brings(o, step, e) :: !Somewhere(o, e)
  {
    hide At, Origin, OutlineNext, OutlineEnabled;
    var o' := OutlineNext(o, owners, step);
    if e, p :| Brings(o, step, e) && At(o, p, e) {
      PushedAt(o, owners, step, e);
      assert !OneOwner(o');
    } else {
      forall e, p, p' | At(o', p, e) && At(o', p', e)
        ensures p == p'
      {
        OriginAt(o, owners, step, p, e);
        OriginAt(o, owners, step, p', e);
        if At(o, Origin(o, owners, step, p), e) && At(o, Origin(o, owners, step, p'), e) {
          OriginUnique(o, owners, step, p, p', e);
        }
      }
    }
  }

  ghost predicate OwnedStep(outlines: seq<Outline>, steps: seq<Step>, i: nat)
    requires i < |steps| && i < |outlines|
  {
    forall e | Brings(outlines[i], steps[i], e) :: !Somewhere(outlines[i], e)
  }

  /** Over every interleaving of pushes, begins and the two halves of increments, by any number of threads on any number
      of queues: every event is in one place at most throughout, exactly when no push that succeeds is of an event that
      is somewhere then. */
  lemma OwnedThroughout(run: seq<System>, owners: map<nat, nat>, steps: seq<Step>, slots: seq<set<nat>>,
                        shapes0: seq<Shape>, batches0: map<nat, seq<nat>>, o0: Outline)
    returns (outlines: seq<Outline>)
    requires Queues.IsRun(run, owners, steps) && Stands(run[0], slots, shapes0, batches0, o0) && OneOwner(o0)
    ensures IsOutlineRun(outlines, owners, steps) && outlines[0] == o0
    ensures forall i | 0 <= i < |run| :: Pictured(run[i], slots, outlines[i])
    ensures (forall i | 0 <= i < |run| :: OneOwner(outlines[i]))
            <==> forall i | 0 <= i < |steps| :: OwnedStep(outlines, steps, i)
  {
    hide OutlineNext, OutlineEnabled, Stands, OneOwner, Queues.Next, Enabled;
    var _, _, all := RunRefines(run, owners, steps, slots, shapes0, batches0, o0, |steps|);
    outlines := all;
    assert steps[..|steps|] == steps;
    var n := 0;
    while n < |steps| && OwnedStep(outlines, steps, n)
      invariant n <= |steps|
      invariant forall i | 0 <= i <= n :: OneOwner(outlines[i])
      invariant forall i | 0 <= i < n :: OwnedStep(outlines, steps, i)
    {
      StepOwned(outlines[n], owners, steps[n]);
      n := n + 1;
    }
    if n < |steps| {
      StepOwned(outlines[n], owners, steps[n]);
      assert !OneOwner(outlines[n + 1]);
    }
  }

  // ---------------------------------------------------------------- disposed of once

  /** The event that step `i` disposes of, if it is the first half of an increment. */
  function Disposes(run: seq<System>, owners: map<nat, nat>, steps: seq<Step>, i: nat): seq<nat>
    requires i < |steps| <= |run| && Enabled(run[i], owners, steps[i])
  {
    match steps[i]
    case Dispose(t) => [EventOf(run[i].queues[run[i].iterators[t].queue].fixed.words, run[i].iterators[t].node)]
    case _ => []
  }

  /** An event whose flag is set should be deallocated, not disposed of again. */
  ghost predicate FlagClear(run: seq<System>, owners: map<nat, nat>, steps: seq<Step>, i: nat)
    requires Queues.IsRun(run, owners, steps) && i < |steps|
  {
    forall e | e in Disposes(run, owners, steps, i) :: e !in run[i].disposed
  }

  /** What step `j` disposes of, no step before it has. */
  ghost predicate FirstTime(run: seq<System>, owners: map<nat, nat>, steps: seq<Step>, j: nat)
    requires Queues.IsRun(run, owners, steps) && j < |steps|
  {
    forall i, e | 0 <= i < j && e in Disposes(run, owners, steps, j) :: e !in Disposes(run, owners, steps, i)
  }

  /** The flags are the events disposed of so far. */
  lemma {:induction false} FlagsSet(run: seq<System>, owners: map<nat, nat>, steps: seq<Step>, e: nat, n: nat)
    requires Queues.IsRun(run, owners, steps) && n < |run| && run[0].disposed == {}
    ensures e in run[n].disposed <==> exists i | 0 <= i < n :: e in Disposes(run, owners, steps, i)
  {
    if n > 0 {
      FlagsSet(run, owners, steps, e, n - 1);
      assert Enabled(run[n - 1], owners, steps[n - 1]);
      assert e in run[n].disposed <==> e in run[n - 1].disposed || e in Disposes(run, owners, steps, n - 1);
    }
  }

  lemma FlagExact(run: seq<System>, owners: map<nat, nat>, steps: seq<Step>, j: nat)
    requires Queues.IsRun(run, owners, steps) && run[0].disposed == {} && j < |steps|
    ensures FlagClear(run, owners, steps, j) <==> FirstTime(run, owners, steps, j)
  {
    hide Queues.Next, Disposes;
    forall e
      ensures e in run[j].disposed <==> exists i | 0 <= i < j :: e in Disposes(run, owners, steps, i)
    {
      FlagsSet(run, owners, steps, e, j);
    }
  }

  /** The queue that the place belongs to: the one waited on, or the one the batch is of. */
  function QueueAt(o: Outline, p: Place): nat {
    match p
    case Waiting(q, _) => q
    case InBatch(t, _) => if t in o.hands then o.hands[t].queue else 0
  }

  /** Every event is in one place at most, and those at their owners' are exactly the ones disposed of. */
  ghost predicate Returned(o: Outline, owners: map<nat, nat>, disposed: set<nat>) {
    OneOwner(o) && forall p, e | At(o, p, e) && e in owners :: QueueAt(o, p) == owners[e] <==> e in disposed
  }

  /** What a client's pushes are meant to be: of events not disposed of and nowhere yet, to a queue not their own. */
  ghost predicate NewTo(o: Outline, owners: map<nat, nat>, disposed: set<nat>, step: Step) {
    forall e | Brings(o, step, e) :: !Somewhere(o, e) && e !in disposed && (e in owners ==> owners[e] != step.queue)
  }

  /** The event that a step disposes of. */
  function Disposed(o: Outline, step: Step): set<nat> {
    if step.Dispose? && step.thread in o.hands && o.hands[step.thread].events != []
    then {o.hands[step.thread].events[0]} else {}
  }

  lemma OriginQueue(o: Outline, owners: map<nat, nat>, step: Step, p: Place, e: nat)
    requires OutlineEnabled(o, owners, step) && At(OutlineNext(o, owners, step), p, e)
    ensures QueueAt(OutlineNext(o, owners, step), p)
            == if Brings(o, step, e) && p == NewPlace(o, step) then step.queue
               else if step.Dispose? && Origin(o, owners, step, p) == InBatch(step.thread, 0) then owners[e]
               else QueueAt(o, Origin(o, owners, step, p))
    ensures step.Dispose? && Origin(o, owners, step, p) == InBatch(step.thread, 0) ==> Disposed(o, step) == {e}
  {}

  lemma DisposedAt(o: Outline, owners: map<nat, nat>, step: Step)
    requires OutlineEnabled(o, owners, step)
    ensures forall e | e in Disposed(o, step) :: step.Dispose? && At(o, InBatch(step.thread, 0), e)
  {}

  /** With such pushes it stays so: an event goes to its owner's when it is disposed of, and in no other way. */
  lemma StepReturned(o: Outline, owners: map<nat, nat>, disposed: set<nat>, step: Step)
    requires OutlineEnabled(o, owners, step) && Returned(o, owners, disposed) && NewTo(o, owners, disposed, step)
    ensures Returned(OutlineNext(o, owners, step), owners, disposed + Disposed(o, step))
  {
    hide At, Origin, OutlineNext, OutlineEnabled, QueueAt, Disposed;
    var o' := OutlineNext(o, owners, step);
    StepOwned(o, owners, step);
    DisposedAt(o, owners, step);
    forall p, e | At(o', p, e) && e in owners
      ensures QueueAt(o', p) == owners[e] <==> e in disposed + Disposed(o, step)
    {
      OriginAt(o, owners, step, p, e);
      OriginQueue(o, owners, step, p, e);
    }
  }

  /** What the halves of an increment are about to do, seen in the state and in its outline. */
  lemma PicturedStep(s: System, owners: map<nat, nat>, slots: seq<set<nat>>, o: Outline, step: Step)
    requires Pictured(s, slots, o) && Enabled(s, owners, step)
    ensures OutlineEnabled(o, owners, step)
    ensures step.Dispose? ==>
              var it := s.iterators[step.thread];
              && EventOf(s.queues[it.queue].fixed.words, it.node) == o.hands[step.thread].events[0]
              && o.hands[step.thread].queue == it.queue
  {
    hide InHand, Queues.Next, OutlineNext;
    var shapes, batches :| Stands(s, slots, shapes, batches, o);
    var _, _ := StepRefines(s, owners, slots, shapes, batches, step);
    if step.Dispose? {
      assert step.thread in batches.Keys;
      CursorParts(s.queues, s.iterators, slots, shapes, batches, step.thread);
    }
  }

  /** Step `i`, if it is a push, is as pushes are meant to be. */
  ghost predicate NewPush(run: seq<System>, owners: map<nat, nat>, steps: seq<Step>, outlines: seq<Outline>, i: nat)
    requires i < |steps| && i < |outlines| && i < |run|
  {
    NewTo(outlines[i], owners, run[i].disposed, steps[i])
  }

  lemma {:induction false} RunReturned(run: seq<System>, owners: map<nat, nat>, steps: seq<Step>, slots: seq<set<nat>>,
                                       outlines: seq<Outline>, n: nat)
    requires Queues.IsRun(run, owners, steps) && IsOutlineRun(outlines, owners, steps) && n <= |steps|
    requires forall i | 0 <= i < |run| :: Pictured(run[i], slots, outlines[i])
    requires forall i | 0 <= i < n :: NewPush(run, owners, steps, outlines, i)
    requires Returned(outlines[0], owners, run[0].disposed)
    ensures Returned(outlines[n], owners, run[n].disposed)
  {
    hide OutlineNext, OutlineEnabled, Returned, NewTo, Pictured;
    if n > 0 {
      RunReturned(run, owners, steps, slots, outlines, n - 1);
      assert Enabled(run[n - 1], owners, steps[n - 1]);
      PicturedStep(run[n - 1], owners, slots, outlines[n - 1], steps[n - 1]);
      assert NewPush(run, owners, steps, outlines, n - 1);
      StepReturned(outlines[n - 1], owners, run[n - 1].disposed, steps[n - 1]);
      FlagSet(run[n - 1], owners, slots, outlines[n - 1], steps[n - 1]);
    }
  }

  lemma FlagSet(s: System, owners: map<nat, nat>, slots: seq<set<nat>>, o: Outline, step: Step)
    requires Pictured(s, slots, o) && Enabled(s, owners, step) && OutlineEnabled(o, owners, step)
    ensures Queues.Next(s, owners, step).disposed == s.disposed + Disposed(o, step)
  {
    hide Pictured;
    PicturedStep(s, owners, slots, o, step);
  }

  /** The header of the event that step `j` disposes of names another queue than the iterator's own. */
  ghost predicate OwnerElsewhere(run: seq<System>, owners: map<nat, nat>, steps: seq<Step>, j: nat)
    requires Queues.IsRun(run, owners, steps) && j < |steps|
  {
    forall e | e in Disposes(run, owners, steps, j) ::
      e in owners && owners[e] != run[j].iterators[steps[j].thread].queue
  }

  /** As long as pushes are as they are meant to be, a step disposes of an event for the first time exactly when the
      event's header names another queue. */
  lemma FirstTimeExact(run: seq<System>, owners: map<nat, nat>, steps: seq<Step>, slots: seq<set<nat>>,
                       outlines: seq<Outline>, j: nat)
    requires Queues.IsRun(run, owners, steps) && run[0].disposed == {} && IsOutlineRun(outlines, owners, steps)
    requires forall i | 0 <= i < |run| :: Pictured(run[i], slots, outlines[i])
    requires Returned(outlines[0], owners, {}) && j < |steps|
    requires forall i | 0 <= i < j :: NewPush(run, owners, steps, outlines, i)
    ensures FirstTime(run, owners, steps, j) <==> OwnerElsewhere(run, owners, steps, j)
  {
    hide Pictured, FirstTime;
    RunReturned(run, owners, steps, slots, outlines, j);
    FlagExact(run, owners, steps, j);
    assert Enabled(run[j], owners, steps[j]);
    PicturedStep(run[j], owners, slots, outlines[j], steps[j]);
    DisposedAt(outlines[j], owners, steps[j]);
    if steps[j].Dispose? {
      var e := outlines[j].hands[steps[j].thread].events[0];
      assert Disposes(run, owners, steps, j) == [e] && e in Disposed(outlines[j], steps[j]);
      assert QueueAt(outlines[j], InBatch(steps[j].thread, 0)) == owners[e] <==> e in run[j].disposed;
    }
  }

  /** Nothing in the code looks at the flag. From a state with nothing disposed of, every event in one place at most and
      none at its owner's, under every interleaving: as long as pushes are of events not disposed of and nowhere yet, to
      queues not their own, every event stays in one place at most, and none is disposed of twice exactly when no
      increment is made on an event whose header names the queue that the iterator is of. */
  lemma DisposedOnce(run: seq<System>, owners: map<nat, nat>, steps: seq<Step>, slots: seq<set<nat>>,
                     shapes0: seq<Shape>, batches0: map<nat, seq<nat>>, o0: Outline)
    returns (outlines: seq<Outline>)
    requires Queues.IsRun(run, owners, steps) && run[0].disposed == {}
    requires Stands(run[0], slots, shapes0, batches0, o0) && Returned(o0, owners, {})
    ensures IsOutlineRun(outlines, owners, steps) && outlines[0] == o0
    ensures forall i | 0 <= i < |run| :: Pictured(run[i], slots, outlines[i])
    ensures (forall i | 0 <= i < |steps| :: NewPush(run, owners, steps, outlines, i)) ==>
              && (forall i | 0 <= i < |run| :: OneOwner(outlines[i]))
              && forall j | 0 <= j < |steps| ::
                   FirstTime(run, owners, steps, j) <==> OwnerElsewhere(run, owners, steps, j)
  {
    hide OutlineNext, OutlineEnabled, Pictured, Queues.Next, Enabled;
    hide FirstTime, OwnerElsewhere, NewTo, Stands, OneOwner;
    outlines := OwnedThroughout(run, owners, steps, slots, shapes0, batches0, o0);
    if forall i | 0 <= i < |steps| :: NewPush(run, owners, steps, outlines, i) {
      forall i | 0 <= i < |run|
        ensures OneOwner(outlines[i])
      {
        RunReturned(run, owners, steps, slots, outlines, i);
      }
      forall j | 0 <= j < |steps|
        ensures FirstTime(run, owners, steps, j) <==> OwnerElsewhere(run, owners, steps, j)
      {
        FirstTimeExact(run, owners, steps, slots, outlines, j);
      }
    }
  }
}
