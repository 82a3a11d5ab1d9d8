/** The flush of the interleaving machine and the flush of the class are the same flush: left
    alone, the machine's steps go through the flash images that `EventCheckFlash` records,
    and end in the flash and the fields that its contract states. */
module FlushRun {
  import opened Words
  import opened BlockFormat
  import opened BlockLog
  import opened Recovery
  import opened PersistentRegistry
  import opened Safety
  import opened EndToEnd

  /** A running machine with a change to save, and nobody in it. */
  ghost predicate Due(g: Geometry, s: State) {
    && Typed(g, s) && s.power.Up? && s.power.live.flush.Idle? && s.power.live.needUpdate
    && s.power.live.owner.None? && s.power.live.count == 0 && |s.power.live.buffer| <= Capacity(g)
  }

  /** What a flush sets out to do: its plan, the block it will program, and the live state
      it will leave. */
  datatype Course = Course(plan: Plan, image: Block, live: Live)

  ghost function CourseOf(g: Geometry, s: State): (course: Course)
    requires Due(g, s)
    ensures Coherent(g, s, course)
  {
    var l := s.power.live;
    var plan := PlanWrite(g, s.flash, l.store);
    Course(plan, PlannedImage(g, l.cache, plan, l.buffer),
           l.(store := Store(plan.target, Increment(plan.stamp), |l.buffer|),
              cache := CacheAfterWrite(g, l.cache, plan, l.buffer), needUpdate := false))
  }

  ghost predicate Coherent(g: Geometry, s: State, c: Course) {
    && Shaped(g, s.flash) && c.plan.target < |s.flash| && c.live.store.current == c.plan.target
    && |c.live.cache| == 4 * g.blockWords && WordsOf(c.live.cache) == c.image
    && c.live.flush.Idle? && c.live.owner.None? && c.live.count == 0
  }

  /** The steps of a flush that has this many sectors to erase. */
  function FlushAction(erases: nat, n: nat): Action {
    if n == 0 then Poll
    else if n == 1 then TakeMutex
    else if n == 2 then ClearFlag
    else if n == 3 then Snapshot
    else if n < 4 + erases then EraseNext
    else if n == 4 + erases then ReleaseMutex
    else ProgramNext
  }

  function Length(g: Geometry, c: Course): nat {
    5 + |c.plan.erases| + g.Steps()
  }

  function Held(l: Live): Live {
    l.(owner := Some(FLUSHER), count := 1)
  }

  /** The state before the snapshot, after the first `n` steps. */
  function Before(s: State, n: nat): State
    requires s.power.Up?
  {
    var l := s.power.live;
    if n == 0 then s
    else if n == 1 then s.(power := Up(l.(flush := Polled)))
    else if n == 2 then s.(power := Up(Held(l).(flush := Locked)))
    else s.(power := Up(Held(l).(needUpdate := false, flush := Cleared)))
  }

  function Counted(s: State, c: Course, flash: Flash, l: Live): State {
    State(flash, Up(l), s.writes + 1, s.sentinel || c.plan.stamp == UINT32_MAX)
  }

  /** The state with so many sectors erased. */
  ghost function WithErased(g: Geometry, s: State, c: Course, done: nat): State
    requires Coherent(g, s, c) && done <= |c.plan.erases|
  {
    Counted(s, c, EraseSectors(g, s.flash, c.plan.erases[..done]), Held(c.live).(flush := Erasing(c.plan, done)))
  }

  /** The state with so many flash words programmed. */
  ghost function WithProgrammed(g: Geometry, s: State, c: Course, steps: nat): State
    requires Coherent(g, s, c)
  {
    Counted(s, c, AfterSteps(g, s.flash, c.plan, c.image, steps),
            c.live.(flush := if steps == g.Steps() then Idle else Programming(steps)))
  }

  /** The state after the first `n` steps. */
  ghost function After(g: Geometry, s: State, c: Course, n: nat): State
    requires s.power.Up? && Coherent(g, s, c)
  {
    if n < 4 then Before(s, n)
    else if n <= 4 + |c.plan.erases| then WithErased(g, s, c, n - 4)
    else WithProgrammed(g, s, c, n - 5 - |c.plan.erases|)
  }

  /** Step `n` of the flush leads from the state after `n` steps to the next one. */
  ghost predicate Follows(g: Geometry, s: State, c: Course, n: nat)
    requires s.power.Up? && Coherent(g, s, c) && n < Length(g, c)
  {
    Step(g, After(g, s, c, n), FlushAction(|c.plan.erases|, n)) == Some(After(g, s, c, n + 1))
  }

  lemma LockSteps(g: Geometry, s: State, c: Course, n: nat)
    requires Due(g, s) && Coherent(g, s, c) && n < 3
    ensures Follows(g, s, c, n)
  {
  }

  lemma SnapshotStep(g: Geometry, s: State)
    requires Due(g, s)
    ensures Follows(g, s, CourseOf(g, s), 3)
  {
    assert CourseOf(g, s).plan.erases[..0] == [];
  }

  lemma EraseStep(g: Geometry, s: State, c: Course, n: nat)
    requires s.power.Up? && Coherent(g, s, c) && 4 <= n < 4 + |c.plan.erases|
    ensures Follows(g, s, c, n)
  {
    assert c.plan.erases[..n - 3][..n - 4] == c.plan.erases[..n - 4];
  }

  lemma ReleaseStep(g: Geometry, s: State, c: Course, n: nat)
    requires s.power.Up? && Coherent(g, s, c) && n == 4 + |c.plan.erases| && 0 < g.Steps()
    ensures Follows(g, s, c, n)
  {
    var erased := EraseSectors(g, s.flash, c.plan.erases);
    assert c.plan.erases[..|c.plan.erases|] == c.plan.erases;
    assert Partial(erased[c.plan.target], c.image, 0) == erased[c.plan.target];
    assert AfterSteps(g, s.flash, c.plan, c.image, 0) == erased;
  }

  lemma ProgramStep(g: Geometry, s: State, c: Course, n: nat)
    requires s.power.Up? && Coherent(g, s, c) && 5 + |c.plan.erases| <= n < Length(g, c)
    ensures Follows(g, s, c, n)
  {
    var steps := n - 5 - |c.plan.erases|;
    PartialStep(EraseSectors(g, s.flash, c.plan.erases)[c.plan.target], c.image, steps);
    assert ProgramFlash(g, AfterSteps(g, s.flash, c.plan, c.image, steps), c.live.(flush := Programming(steps)))
      == AfterSteps(g, s.flash, c.plan, c.image, steps + 1);
  }

  lemma FlushStep(g: Geometry, s: State, n: nat)
    requires Due(g, s) && n < Length(g, CourseOf(g, s))
    ensures Follows(g, s, CourseOf(g, s), n)
  {
    var c := CourseOf(g, s);
    var e := |c.plan.erases|;
    if n < 3 {
      LockSteps(g, s, c, n);
    } else if n == 3 {
      SnapshotStep(g, s);
    } else if n < 4 + e {
      EraseStep(g, s, c, n);
    } else if n == 4 + e {
      ReleaseStep(g, s, c, n);
    } else {
      ProgramStep(g, s, c, n);
    }
  }

  lemma FlushPath(g: Geometry, s: State) returns (states: seq<State>, actions: seq<Action>)
    requires Due(g, s)
    ensures var c := CourseOf(g, s);
      && |actions| == Length(g, c) && |states| == |actions| + 1
      && (forall n :: 0 <= n < |actions| ==> Step(g, states[n], actions[n]) == Some(states[n + 1]))
      && (forall n :: 0 <= n < |actions| ==> actions[n] == FlushAction(|c.plan.erases|, n))
      && (forall n :: 0 <= n < |states| ==> states[n] == After(g, s, c, n))
  {
    var c := CourseOf(g, s);
    var length := Length(g, c);
    states := seq(length + 1, n requires 0 <= n <= length => After(g, s, c, n));
    actions := seq(length, n requires 0 <= n < length => FlushAction(|c.plan.erases|, n));
    forall n | 0 <= n < length
      ensures Step(g, states[n], actions[n]) == Some(states[n + 1])
    {
      FlushStep(g, s, n);
    }
  }

  ghost function Images(g: Geometry, s: State, c: Course): seq<Flash>
    requires Coherent(g, s, c)
  {
    FlushImages(g, s.flash, c.plan, c.image)
  }

  /** The flash after each flash operation is the next image of a flush. */
  lemma EraseLeavesImage(g: Geometry, s: State, c: Course, k: nat)
    requires s.power.Up? && Coherent(g, s, c) && k < |c.plan.erases|
    ensures After(g, s, c, 5 + k).flash == Images(g, s, c)[k]
  {
  }

  lemma ProgramLeavesImage(g: Geometry, s: State, c: Course, k: nat)
    requires s.power.Up? && Coherent(g, s, c) && |c.plan.erases| <= k < |Images(g, s, c)|
    ensures After(g, s, c, 6 + k).flash == Images(g, s, c)[k]
  {
    var at := k - |c.plan.erases|;
    assert Images(g, s, c)[k]
      == ProgramImages(g, EraseSectors(g, s.flash, c.plan.erases), c.plan.target, c.image)[at];
  }

  lemma OwnerAfter(g: Geometry, s: State, c: Course, n: nat)
    requires s.power.Up? && Coherent(g, s, c) && 2 <= n <= Length(g, c)
    ensures After(g, s, c, n).power.Up?
    ensures After(g, s, c, n).power.live.owner == if n < 5 + |c.plan.erases| then Some(FLUSHER) else None
  {
  }

  lemma EndOfFlush(g: Geometry, s: State, c: Course)
    requires s.power.Up? && Coherent(g, s, c)
    ensures After(g, s, c, Length(g, c)) == Counted(s, c, AfterSteps(g, s.flash, c.plan, c.image, g.Steps()), c.live)
    ensures |Images(g, s, c)| == |c.plan.erases| + g.Steps()
  {
  }

  /** A flush that nobody disturbs, from the idle machine with its flag up: it is never
      blocked; its erases and programs leave exactly the images of a flush, one after the
      other; it takes the snapshot with the mutex held and programs it with the mutex free;
      and it ends with the flag down in the flash, the fields and the cache that
      `EventCheckFlash` promises, all else as before. */
  lemma UndisturbedFlush(g: Geometry, s: State) returns (states: seq<State>, actions: seq<Action>)
    requires Due(g, s)
    ensures |actions| == Length(g, CourseOf(g, s)) && |states| == |actions| + 1 && states[0] == s
    ensures forall n :: 0 <= n < |actions| ==> Step(g, states[n], actions[n]) == Some(states[n + 1])
    ensures var c := CourseOf(g, s);
      var e := |c.plan.erases|;
      && (forall n :: 0 <= n < |actions| ==> actions[n] == FlushAction(e, n))
      && (forall k :: 0 <= k < e ==> states[5 + k].flash == Images(g, s, c)[k])
      && (forall k :: e <= k < |Images(g, s, c)| ==> states[6 + k].flash == Images(g, s, c)[k])
      && (forall n :: 2 <= n < |states| ==>
            states[n].power.Up? && states[n].power.live.owner == if n < 5 + e then Some(FLUSHER) else None)
      && states[|actions|].flash == AfterSteps(g, s.flash, c.plan, c.image, g.Steps())
      && states[|actions|].power == Up(c.live)
  {
    states, actions := FlushPath(g, s);
    var c := CourseOf(g, s);
    EndOfFlush(g, s, c);
    forall k | 0 <= k < |c.plan.erases|
      ensures states[5 + k].flash == Images(g, s, c)[k]
    {
      EraseLeavesImage(g, s, c, k);
    }
    forall k | |c.plan.erases| <= k < |Images(g, s, c)|
      ensures states[6 + k].flash == Images(g, s, c)[k]
    {
      ProgramLeavesImage(g, s, c, k);
    }
    forall n | 2 <= n < |states|
      ensures states[n].power.Up?
      ensures states[n].power.live.owner == if n < 5 + |c.plan.erases| then Some(FLUSHER) else None
    {
      OwnerAfter(g, s, c, n);
    }
  }

  // ---------- In a run ----------

  /** What it saves: afterwards a reboot finds the buffer. */
  lemma FlushSaves(g: Geometry, s: State)
    requires Due(g, s) && Settled(g, s.flash, s.power.live.store) && CourseOf(g, s).plan.stamp != UINT32_MAX
    ensures var c := CourseOf(g, s);
      Recovered(g, AfterSteps(g, s.flash, c.plan, c.image, g.Steps())) == s.power.live.buffer
  {
    CompletedWrite(g, s.flash, s.power.live.store, s.power.live.cache, s.power.live.buffer);
  }

  /** From here, the steps of the machine can lead to a snapshot without a loss of power. */
  ghost predicate CanSave(g: Geometry, s: State) {
    exists states: seq<State>, actions: seq<Action> ::
      && LeadsOn(g, s, states, actions)
      && actions != [] && actions[|actions| - 1] == Snapshot
  }

  lemma StuckStep(g: Geometry, s: State, a: Action, next: State)
    requires Step(g, s, a) == Some(next) && Stuck(s) && !a.PowerCut?
    ensures Stuck(next) && !a.Snapshot?
  {
    StuckStays(g, s, a);
  }

  lemma {:induction false} StuckOnPath(g: Geometry, s: State, states: seq<State>, actions: seq<Action>, n: nat)
    requires LeadsOn(g, s, states, actions) && Stuck(s) && n < |states|
    ensures Stuck(states[n])
  {
    if n > 0 {
      StuckOnPath(g, s, states, actions, n - 1);
      StuckStep(g, states[n - 1], actions[n - 1], states[n - 1 + 1]);
    }
  }

  lemma StuckCannotSave(g: Geometry, s: State)
    requires Stuck(s)
    ensures !CanSave(g, s)
  {
    forall states: seq<State>, actions: seq<Action> | LeadsOn(g, s, states, actions) && actions != []
      ensures actions[|actions| - 1] != Snapshot
    {
      var last := |actions| - 1;
      StuckOnPath(g, s, states, actions, last);
      StuckStep(g, states[last], actions[last], states[last + 1]);
    }
  }

  lemma DueCanSave(g: Geometry, s: State)
    requires Due(g, s)
    ensures CanSave(g, s)
  {
    var states, actions := UndisturbedFlush(g, s);
    SnapshotComesFourth(g, s, states, actions, |CourseOf(g, s).plan.erases|);
  }

  lemma SnapshotComesFourth(g: Geometry, s: State, states: seq<State>, actions: seq<Action>, erases: nat)
    requires |states| == |actions| + 1 && states[0] == s && 4 <= |actions|
    requires forall n :: 0 <= n < |actions| ==> Step(g, states[n], actions[n]) == Some(states[n + 1])
    requires forall n :: 0 <= n < |actions| ==> actions[n] == FlushAction(erases, n)
    ensures CanSave(g, s)
  {
    assert LeadsOn(g, s, states[..5], actions[..4]);
    assert actions[..4][3] == Snapshot;
  }

  /** When a change can still be saved. In a run, with a change waiting and no call or flush
      under way, the next flush is free to go, and then saves the buffer, if and only if no
      write has been turned away since power came on; otherwise no steps whatever lead to
      another snapshot. */
  lemma ChangesAreSavedIff(g: Geometry, states: seq<State>, actions: seq<Action>, i: nat)
    requires Run(g, states, actions) && NoSentinel(states) && i < |states| && states[i].power.Up?
    requires var l := states[i].power.live; l.flush.Idle? && l.needUpdate && l.call.None?
    ensures Due(g, states[i]) <==> !RejectedSinceUp(g, states, actions, i)
    ensures CanSave(g, states[i]) <==> !RejectedSinceUp(g, states, actions, i)
    ensures Due(g, states[i]) && CourseOf(g, states[i]).plan.stamp != UINT32_MAX ==>
      var c := CourseOf(g, states[i]);
      Recovered(g, AfterSteps(g, states[i].flash, c.plan, c.image, g.Steps())) == states[i].power.live.buffer
  {
    RunKeepsInv(g, states, actions, i);
    MutexLeaksIff(g, states, actions, i);
    if RejectedSinceUp(g, states, actions, i) {
      StuckCannotSave(g, states[i]);
    } else {
      DueCanSave(g, states[i]);
      if CourseOf(g, states[i]).plan.stamp != UINT32_MAX {
        FlushSaves(g, states[i]);
      }
    }
  }
}
