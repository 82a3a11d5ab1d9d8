/** What the tasks of the interleaving machine owe each other: the mutex keeps them apart,
    a call runs as a whole, and the flash is written only for a change. */
module Tasks {
  import opened Words
  import opened BlockFormat
  import opened BlockLog
  import opened RegistryBuffer
  import opened PersistentRegistry
  import opened EndToEnd

  // ---------- The mutex ----------

  /** While any task owns the mutex, no other one enters a call, and the flush does not take
      its snapshot. */
  lemma OwnerEntersAlone(g: Geometry, states: seq<State>, actions: seq<Action>, i: nat)
    requires Run(g, states, actions) && NoSentinel(states) && i < |actions|
    requires states[i].power.Up? && states[i].power.live.owner.Some?
    ensures actions[i].Enter? ==> states[i].power.live.owner == Some(actions[i].task) && states[i].power.live.call.None?
    ensures !actions[i].TakeMutex?
    ensures actions[i].Snapshot? ==> states[i].power.live.owner == Some(FLUSHER) && states[i].power.live.call.None?
  {
    RunKeepsInv(g, states, actions, i);
    assert Enabled(g, states[i], actions[i]);
  }

  /** Once a write of a task has been turned away, the mutex is that task's until power
      fails: whoever enters a call after that is the same task, and no flush gets in. */
  lemma RejectedTaskKeepsMutex(g: Geometry, states: seq<State>, actions: seq<Action>, i: nat, m: nat, task: Task)
    requires Run(g, states, actions) && NoSentinel(states) && i < m < |actions|
    requires Rejects(g, states[i], actions[i]) && states[i].power.live.owner == Some(task)
    requires forall k :: i < k <= m ==> !actions[k].PowerCut?
    ensures states[m].power.Up? && states[m].power.live.owner == Some(task)
    ensures actions[m].Enter? ==> actions[m].task == task
    ensures !actions[m].TakeMutex? && !actions[m].Snapshot?
  {
    StuckFrom(g, states, actions, i, m);
    StuckStays(g, states[m], actions[m]);
  }

  // ---------- No flush without a change ----------

  /** The operation that this step carries out, if it changes the buffer: an accepted write,
      or the deletion of a name that is there. */
  ghost function ChangeBy(g: Geometry, s: State, a: Action): Option<Op> {
    if a.Body? && s.power.Up? && s.power.live.call.Some? && WellFormed(s.power.live.buffer)
       && Effective(g, s.power.live.buffer, s.power.live.call.value.op)
    then Some(s.power.live.call.value.op)
    else None
  }

  ghost predicate Effective(g: Geometry, buffer: Bytes, op: Op)
    requires WellFormed(buffer)
  {
    match op
    case Put(e) => Accepts(MapOf(buffer), MaxPayload(g.blockWords), e.name, e.value)
    case Remove(name) => name in MapOf(buffer)
    case Query => false
  }

  /** From step `k` on, up to step `i`, nothing has been saved and power has not failed. */
  predicate Unsaved(actions: seq<Action>, k: nat, i: nat)
    requires i <= |actions|
    decreases i
  {
    k < i ==> !actions[i - 1].Snapshot? && !actions[i - 1].PowerCut? && Unsaved(actions, k, i - 1)
  }

  lemma {:induction false} UnsavedThroughout(actions: seq<Action>, k: nat, i: nat)
    requires i <= |actions| && Unsaved(actions, k, i)
    ensures forall m :: k <= m < i ==> !actions[m].Snapshot? && !actions[m].PowerCut?
    decreases i
  {
    if k < i {
      UnsavedThroughout(actions, k, i - 1);
    }
  }

  /** A change that is not in any snapshot yet, and has been flagged. */
  predicate Dirty(s: State) {
    && s.power.Up?
    && (s.power.live.needUpdate || s.power.live.flush.Polled? || s.power.live.flush.Locked?
        || s.power.live.flush.Cleared?)
  }

  predicate Mutating(s: State) {
    s.power.Up? && s.power.live.call.Some? && s.power.live.call.value.stage.Mutated?
  }

  lemma MutatingStep(g: Geometry, s: State, a: Action)
    requires Typed(g, s) && Enabled(g, s, a) && Mutating(Apply(g, s, a))
    requires s.power.Up? ==> MutexInv(s.power.live) && Sound(s.power.live.buffer)
    ensures ChangeBy(g, s, a).Some? || (Mutating(s) && !a.Snapshot? && !a.PowerCut?)
  {
    if a.Body? {
      EffectiveMutates(g, s.power.live);
    }
  }

  lemma EffectiveMutates(g: Geometry, l: Live)
    requires l.call.Some? && Sound(l.buffer)
    ensures var after := ApplyBody(g, l);
      after.call.Some? && after.call.value.stage.Mutated? <==> Effective(g, l.buffer, l.call.value.op)
  {
    match l.call.value.op
    case Put(e) => WriteRefinesUpdate(l.buffer, e, Capacity(g));
    case Remove(name) => ToMapAt(Entries(l.buffer), name);
    case Query =>
  }

  lemma DirtyStep(g: Geometry, s: State, a: Action)
    requires Typed(g, s) && Enabled(g, s, a) && Dirty(Apply(g, s, a)) && !(a.Snapshot? && s.power.live.needUpdate)
    ensures (a.SetFlag? && Mutating(s)) || (Dirty(s) && !a.Snapshot? && !a.PowerCut?)
  {
  }

  /** Between clearing the flag and taking the snapshot the flag is down. */
  predicate DownOnceCleared(s: State) {
    s.power.Up? && s.power.live.flush.Cleared? ==> !s.power.live.needUpdate
  }

  lemma {:induction false} ClearedMeansDown(g: Geometry, states: seq<State>, actions: seq<Action>, i: nat)
    requires Run(g, states, actions) && NoSentinel(states) && i < |states|
    ensures DownOnceCleared(states[i])
  {
    if i > 0 {
      ClearedMeansDown(g, states, actions, i - 1);
      ClearedNext(g, states, actions, i - 1);
    }
  }

  lemma ClearedNext(g: Geometry, states: seq<State>, actions: seq<Action>, i: nat)
    requires Run(g, states, actions) && NoSentinel(states) && i < |actions| && DownOnceCleared(states[i])
    ensures DownOnceCleared(states[i + 1])
  {
    assert Inv(g, states[i]) by { RunKeepsInv(g, states, actions, i); }
    assert Enabled(g, states[i], actions[i]) && states[i + 1] == Apply(g, states[i], actions[i]);
    ClearedStep(g, states[i], actions[i]);
  }

  lemma ClearedStep(g: Geometry, s: State, a: Action)
    requires Typed(g, s) && Enabled(g, s, a) && (s.power.Up? ==> MutexInv(s.power.live)) && DownOnceCleared(s)
    ensures DownOnceCleared(Apply(g, s, a))
  {
  }

  lemma MutatingNext(g: Geometry, states: seq<State>, actions: seq<Action>, i: nat)
    requires Run(g, states, actions) && NoSentinel(states) && i < |actions| && Mutating(states[i + 1])
    ensures ChangeBy(g, states[i], actions[i]).Some? || Mutating(states[i])
    ensures !actions[i].Snapshot? && !actions[i].PowerCut?
  {
    var s, a := states[i], actions[i];
    assert Enabled(g, s, a) && states[i + 1] == Apply(g, s, a);
    assert Inv(g, s) by { RunKeepsInv(g, states, actions, i); }
    MutatingStep(g, s, a);
  }

  lemma DirtyNext(g: Geometry, states: seq<State>, actions: seq<Action>, i: nat)
    requires Run(g, states, actions) && NoSentinel(states) && i < |actions| && Dirty(states[i + 1])
    ensures (actions[i].SetFlag? && Mutating(states[i])) || Dirty(states[i])
    ensures !actions[i].Snapshot? && !actions[i].PowerCut?
  {
    var s, a := states[i], actions[i];
    ClearedMeansDown(g, states, actions, i);
    assert Enabled(g, s, a) && states[i + 1] == Apply(g, s, a);
    DirtyStep(g, s, a);
  }

  /** All that a run says of changes and flags. */
  ghost predicate ChangeRun(g: Geometry, states: seq<State>, actions: seq<Action>) {
    && |states| == |actions| + 1 && !Mutating(states[0]) && !Dirty(states[0])
    && forall i :: 0 <= i < |actions| ==>
         && (Mutating(states[i + 1]) ==> ChangeBy(g, states[i], actions[i]).Some? || Mutating(states[i]))
         && (Dirty(states[i + 1]) ==> (actions[i].SetFlag? && Mutating(states[i])) || Dirty(states[i]))
         && (Mutating(states[i + 1]) || Dirty(states[i + 1]) ==> !actions[i].Snapshot? && !actions[i].PowerCut?)
  }

  lemma RunChanges(g: Geometry, states: seq<State>, actions: seq<Action>)
    requires Run(g, states, actions) && NoSentinel(states)
    ensures ChangeRun(g, states, actions)
  {
    forall i | 0 <= i < |actions|
      ensures Mutating(states[i + 1]) ==> ChangeBy(g, states[i], actions[i]).Some? || Mutating(states[i])
      ensures Dirty(states[i + 1]) ==> (actions[i].SetFlag? && Mutating(states[i])) || Dirty(states[i])
      ensures Mutating(states[i + 1]) || Dirty(states[i + 1]) ==> !actions[i].Snapshot? && !actions[i].PowerCut?
    {
      if Mutating(states[i + 1]) {
        MutatingNext(g, states, actions, i);
      }
      if Dirty(states[i + 1]) {
        DirtyNext(g, states, actions, i);
      }
    }
  }

  /** A call about to raise the flag has changed the buffer. */
  lemma {:induction false} MutationOrigin(g: Geometry, states: seq<State>, actions: seq<Action>, i: nat)
    returns (k: nat)
    requires ChangeRun(g, states, actions) && i < |states| && Mutating(states[i])
    ensures k < i && ChangeBy(g, states[k], actions[k]).Some? && Unsaved(actions, k, i)
  {
    assert i > 0 && Mutating(states[i - 1 + 1]);
    if ChangeBy(g, states[i - 1], actions[i - 1]).Some? {
      k := i - 1;
    } else {
      k := MutationOrigin(g, states, actions, i - 1);
    }
  }

  lemma {:induction false} DirtyOrigin(g: Geometry, states: seq<State>, actions: seq<Action>, i: nat)
    returns (k: nat, j: nat)
    requires ChangeRun(g, states, actions) && i < |states| && Dirty(states[i])
    ensures k < j < i && ChangeBy(g, states[k], actions[k]).Some? && actions[j].SetFlag? && Unsaved(actions, k, i)
  {
    assert i > 0 && Dirty(states[i - 1 + 1]);
    if Dirty(states[i - 1]) {
      k, j := DirtyOrigin(g, states, actions, i - 1);
    } else {
      k := MutationOrigin(g, states, actions, i - 1);
      j := i - 1;
    }
  }

  /** No flush without a change: before every snapshot, and after the one before it and the
      last loss of power, a call has changed the buffer and raised the flag. */
  lemma SnapshotsNeedChanges(g: Geometry, states: seq<State>, actions: seq<Action>, i: nat) returns (k: nat, j: nat)
    requires Run(g, states, actions) && NoSentinel(states) && i < |actions| && actions[i].Snapshot?
    ensures k < j < i && ChangeBy(g, states[k], actions[k]).Some? && actions[j].SetFlag?
    ensures forall m :: k <= m < i ==> !actions[m].Snapshot? && !actions[m].PowerCut?
  {
    assert Enabled(g, states[i], actions[i]);
    RunChanges(g, states, actions);
    k, j := DirtyOrigin(g, states, actions, i);
    UnsavedThroughout(actions, k, i);
  }

  /** Nothing to save, and no flush under way. */
  predicate Resting(s: State) {
    s.power.Up? && s.power.live.flush.Idle? && !s.power.live.needUpdate
  }

  lemma RestingStep(g: Geometry, s: State, a: Action)
    requires Typed(g, s) && Enabled(g, s, a) && Resting(s) && !a.SetFlag? && !a.PowerCut?
    ensures var after := Apply(g, s, a);
      && Resting(after) && after.flash == s.flash && after.writes == s.writes
      && after.power.live.store == s.power.live.store && after.power.live.cache == s.power.live.cache
  {
  }

  /** A registry at rest leaves the flash and the flash manager alone, whatever its callers
      look up, until a change is flagged or power fails. */
  lemma {:induction false} RestKeepsFlash(g: Geometry, states: seq<State>, actions: seq<Action>, i: nat, m: nat)
    requires Run(g, states, actions) && i <= m < |states| && Resting(states[i])
    requires forall k :: i <= k < m ==> !actions[k].SetFlag? && !actions[k].PowerCut?
    ensures Resting(states[m]) && states[m].flash == states[i].flash && states[m].writes == states[i].writes
    ensures states[m].power.live.store == states[i].power.live.store
    ensures states[m].power.live.cache == states[i].power.live.cache
  {
    if i < m {
      RestKeepsFlash(g, states, actions, i, m - 1);
      RestingNext(g, states, actions, m - 1);
    }
  }

  lemma RestingNext(g: Geometry, states: seq<State>, actions: seq<Action>, i: nat)
    requires Run(g, states, actions) && i < |actions| && Resting(states[i])
    requires !actions[i].SetFlag? && !actions[i].PowerCut?
    ensures var after := states[i + 1];
      && Resting(after) && after.flash == states[i].flash && after.writes == states[i].writes
      && after.power.live.store == states[i].power.live.store && after.power.live.cache == states[i].power.live.cache
  {
    assert Enabled(g, states[i], actions[i]) && states[i + 1] == Apply(g, states[i], actions[i]);
    RestingStep(g, states[i], actions[i]);
  }

  // ---------- Calls run as a whole ----------

  /** No step of any call from step `from` on, up to step `i`, but for the flag. */
  predicate NoCallStep(actions: seq<Action>, from: nat, i: nat)
    requires i <= |actions|
    decreases i
  {
    from < i ==>
      !actions[i - 1].Enter? && !actions[i - 1].Body? && !actions[i - 1].Leave? && NoCallStep(actions, from, i - 1)
  }

  /** The flag is raised from step `from` on, before step `i`. */
  predicate Raised(actions: seq<Action>, from: nat, i: nat)
    requires i <= |actions|
    decreases i
  {
    from < i && (actions[i - 1].SetFlag? || Raised(actions, from, i - 1))
  }

  /** The call that is open: its task, its operation, and how far it has got. */
  datatype Open = Open(task: Task, op: Op, stage: Stage)

  function OpenIn(s: State): Option<Open> {
    if s.power.Up? && s.power.live.call.Some? && s.power.live.owner.Some?
    then Some(Open(s.power.live.owner.value, s.power.live.call.value.op, s.power.live.call.value.stage))
    else None
  }

  /** What a step makes of the open call. */
  ghost function OpenAfter(g: Geometry, s: State, a: Action): Option<Open> {
    match a
    case Enter(task, op) => Some(Open(task, op, Entered))
    case Body =>
      if Rejects(g, s, a) || OpenIn(s).None? then None
      else Some(OpenIn(s).value.(stage := if ChangeBy(g, s, a).Some? then Mutated else Finished))
    case SetFlag => if OpenIn(s).None? then None else Some(OpenIn(s).value.(stage := Finished))
    case Leave => None
    case PowerCut => None
    case _ => OpenIn(s)
  }

  /** A body runs in a call just entered, and a flag is raised by one that has changed the
      buffer. */
  ghost predicate InOrder(s: State, a: Action) {
    && (a.Body? ==> OpenIn(s).Some? && OpenIn(s).value.stage.Entered?)
    && (a.SetFlag? ==> OpenIn(s).Some? && OpenIn(s).value.stage.Mutated?)
    && (a.Leave? ==> OpenIn(s).Some? && OpenIn(s).value.stage.Finished?)
  }

  lemma BodyOpens(g: Geometry, l: Live)
    requires Sound(l.buffer) && l.call.Some?
    ensures ApplyBody(g, l).owner == l.owner
    ensures ApplyBody(g, l).call ==
      if l.call.value.op.Put? && !Effective(g, l.buffer, l.call.value.op) then None
      else Some(Call(l.call.value.op, if Effective(g, l.buffer, l.call.value.op) then Mutated else Finished))
  {
    match l.call.value.op
    case Put(e) => WriteRefinesUpdate(l.buffer, e, Capacity(g));
    case Remove(name) => ToMapAt(Entries(l.buffer), name);
    case Query =>
  }

  lemma OpenStep(g: Geometry, s: State, a: Action)
    requires Typed(g, s) && Enabled(g, s, a)
    requires s.power.Up? ==> MutexInv(s.power.live) && Sound(s.power.live.buffer)
    ensures OpenIn(Apply(g, s, a)) == OpenAfter(g, s, a) && InOrder(s, a)
  {
    if a.Body? {
      BodyOpens(g, s.power.live);
      match s.power.live.call.value.op {
        case Put(e) => WriteRefinesUpdate(s.power.live.buffer, e, Capacity(g));
        case _ =>
      }
    }
  }

  lemma OpenNext(g: Geometry, states: seq<State>, actions: seq<Action>, i: nat)
    requires Run(g, states, actions) && NoSentinel(states) && i < |actions|
    ensures OpenIn(states[i + 1]) == OpenAfter(g, states[i], actions[i]) && InOrder(states[i], actions[i])
  {
    var s, a := states[i], actions[i];
    assert Enabled(g, s, a) && states[i + 1] == Apply(g, s, a);
    assert Inv(g, s) by { RunKeepsInv(g, states, actions, i); }
    OpenStep(g, s, a);
  }

  /** All that a run says of its open calls. */
  ghost predicate OpenRun(g: Geometry, states: seq<State>, actions: seq<Action>) {
    && |states| == |actions| + 1 && OpenIn(states[0]).None?
    && forall i :: 0 <= i < |actions| ==>
         OpenIn(states[i + 1]) == OpenAfter(g, states[i], actions[i]) && InOrder(states[i], actions[i])
  }

  lemma RunOpens(g: Geometry, states: seq<State>, actions: seq<Action>)
    requires Run(g, states, actions) && NoSentinel(states)
    ensures OpenRun(g, states, actions)
  {
    forall i | 0 <= i < |actions|
      ensures OpenIn(states[i + 1]) == OpenAfter(g, states[i], actions[i]) && InOrder(states[i], actions[i])
    {
      OpenNext(g, states, actions, i);
    }
  }

  /** How an open call has come about: its task entered it at step `j`, and, unless it has
      only been entered, its body ran at step `k`, after which the flag has been raised if
      the call is finished and has changed the buffer. */
  ghost predicate Opened(g: Geometry, states: seq<State>, actions: seq<Action>, i: nat, j: nat, k: nat, open: Open)
    requires i <= |actions| < |states|
  {
    && j < i && actions[j] == Enter(open.task, open.op)
    && if open.stage.Entered? then NoCallStep(actions, j + 1, i)
       else
         && j < k < i && actions[k].Body? && OpenIn(states[k]) == Some(open.(stage := Entered))
         && NoCallStep(actions, j + 1, k) && NoCallStep(actions, k + 1, i)
         && (open.stage.Mutated? ==> ChangeBy(g, states[k], actions[k]).Some?)
         && Raised(actions, k + 1, i) == (open.stage.Finished? && ChangeBy(g, states[k], actions[k]).Some?)
  }

  lemma OpenedNext(g: Geometry, states: seq<State>, actions: seq<Action>, i: nat, j: nat, k: nat,
                   open: Open, next: Open)
    requires i < |actions| < |states| && !actions[i].Enter?
    requires OpenIn(states[i]) == Some(open) && InOrder(states[i], actions[i])
    requires OpenAfter(g, states[i], actions[i]) == Some(next) && Opened(g, states, actions, i, j, k, open)
    ensures Opened(g, states, actions, i + 1, j, if actions[i].Body? then i else k, next)
  {
  }

  lemma {:induction false} CallOrigin(g: Geometry, states: seq<State>, actions: seq<Action>, i: nat)
    returns (j: nat, k: nat)
    requires OpenRun(g, states, actions) && i < |states| && OpenIn(states[i]).Some?
    ensures Opened(g, states, actions, i, j, k, OpenIn(states[i]).value)
  {
    assert i > 0;
    assert OpenIn(states[i - 1 + 1]) == OpenAfter(g, states[i - 1], actions[i - 1]);
    if actions[i - 1].Enter? {
      j, k := i - 1, 0;
    } else {
      j, k := CallOrigin(g, states, actions, i - 1);
      OpenedNext(g, states, actions, i - 1, j, k, OpenIn(states[i - 1]).value, OpenIn(states[i]).value);
      k := if actions[i - 1].Body? then i - 1 else k;
    }
  }

  /** Every call that returns has been carried out, once and as a whole: its task entered it
      at step `j`, its body ran at step `k`, no other call had a step in between, and the
      flag was raised after the body exactly if this changed the buffer. */
  lemma CallsRunWhole(g: Geometry, states: seq<State>, actions: seq<Action>, i: nat) returns (j: nat, k: nat)
    requires Run(g, states, actions) && NoSentinel(states) && i < |actions| && actions[i].Leave?
    ensures j < k < i && actions[j].Enter? && actions[k].Body?
    ensures OpenIn(states[k]) == Some(Open(actions[j].task, actions[j].op, Entered))
    ensures OpenIn(states[i]) == Some(Open(actions[j].task, actions[j].op, Finished))
    ensures NoCallStep(actions, j + 1, k) && NoCallStep(actions, k + 1, i)
    ensures Raised(actions, k + 1, i) <==> ChangeBy(g, states[k], actions[k]).Some?
  {
    RunOpens(g, states, actions);
    assert InOrder(states[i], actions[i]);
    j, k := CallOrigin(g, states, actions, i);
  }
}
