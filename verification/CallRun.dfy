/** The calls of the interleaving machine and the calls of the class are the same calls: left
    alone, they end in the buffer, the flag and the lock count that the contracts of `Write`,
    `Delete` and the lookups state. Calls and flush meet at the mutex only. */
module CallRun {
  import opened Words
  import opened BlockFormat
  import opened BlockLog
  import opened RegistryBuffer
  import opened PersistentRegistry
  import opened Tasks

  /** A running machine in which this task may call: no call is open, and the mutex is free
      or its own. */
  ghost predicate Callable(g: Geometry, s: State, task: Task, op: Op) {
    && Typed(g, s) && s.power.Up? && s.power.live.call.None? && task != FLUSHER
    && (if s.power.live.owner.None? then s.power.live.count == 0
        else s.power.live.owner == Some(task) && 0 < s.power.live.count)
    && Sound(s.power.live.buffer)
    && (op.Put? && op.entry.name !in MapOf(s.power.live.buffer) && Effective(g, s.power.live.buffer, op) ==>
         |s.power.live.buffer| + 2 + |op.entry.name| + |op.entry.value| <= MaxPayload(g.blockWords))
  }

  ghost function BufferAfter(g: Geometry, buffer: Bytes, op: Op): Bytes
    requires WellFormed(buffer)
  {
    match op
    case Put(e) => Written(buffer, e, MaxPayload(g.blockWords))
    case Remove(name) => Deleted(buffer, name)
    case Query => buffer
  }

  /** What the class promises of the call: the flag goes up exactly for a change, and only a
      write that is turned away keeps the mutex. */
  ghost function AfterCall(g: Geometry, l: Live, task: Task, op: Op): Live
    requires WellFormed(l.buffer)
  {
    var done := Effective(g, l.buffer, op);
    var kept := op.Put? && !done;
    l.(buffer := BufferAfter(g, l.buffer, op), needUpdate := l.needUpdate || done, call := None,
       owner := if kept then Some(task) else l.owner, count := if kept then l.count + 1 else l.count)
  }

  function Entering(l: Live, task: Task, op: Op): Live {
    l.(owner := Some(task), count := l.count + 1, call := Some(Call(op, Entered)))
  }

  /** The states inside the call: entered, carried out, and with the flag raised. */
  function Inside(s: State, task: Task, op: Op): State
    requires s.power.Up?
  {
    s.(power := Up(Entering(s.power.live, task, op)))
  }

  ghost function Carried(g: Geometry, s: State, task: Task, op: Op): State
    requires s.power.Up? && WellFormed(s.power.live.buffer)
  {
    var l, done := s.power.live, Effective(g, s.power.live.buffer, op);
    s.(power := Up(Entering(l, task, op).(
         buffer := BufferAfter(g, l.buffer, op),
         call := if op.Put? && !done then None else Some(Call(op, if done then Mutated else Finished)))))
  }

  ghost function Flagged(g: Geometry, s: State, task: Task, op: Op): State
    requires s.power.Up? && WellFormed(s.power.live.buffer)
  {
    var l := Carried(g, s, task, op).power.live;
    s.(power := Up(l.(needUpdate := true, call := Some(Call(op, Finished)))))
  }

  ghost function Returned(g: Geometry, s: State, task: Task, op: Op): State
    requires s.power.Up? && WellFormed(s.power.live.buffer)
  {
    s.(power := Up(AfterCall(g, s.power.live, task, op)))
  }

  lemma EnterStep(g: Geometry, s: State, task: Task, op: Op)
    requires Callable(g, s, task, op)
    ensures Step(g, s, Enter(task, op)) == Some(Inside(s, task, op))
  {
  }

  lemma BodyStep(g: Geometry, s: State, task: Task, op: Op)
    requires Callable(g, s, task, op)
    ensures Step(g, Inside(s, task, op), Body) == Some(Carried(g, s, task, op))
  {
    BodyOpens(g, Entering(s.power.live, task, op));
    match op
    case Put(e) => WriteRefinesUpdate(s.power.live.buffer, e, Capacity(g));
    case Remove(name) => ToMapAt(Entries(s.power.live.buffer), name);
    case Query =>
  }

  lemma FlagStep(g: Geometry, s: State, task: Task, op: Op)
    requires Callable(g, s, task, op) && Effective(g, s.power.live.buffer, op)
    ensures Step(g, Carried(g, s, task, op), SetFlag) == Some(Flagged(g, s, task, op))
  {
  }

  lemma LeaveStep(g: Geometry, s: State, task: Task, op: Op)
    requires Callable(g, s, task, op) && (Effective(g, s.power.live.buffer, op) || !op.Put?)
    ensures var done := Effective(g, s.power.live.buffer, op);
      var last := if done then Flagged(g, s, task, op) else Carried(g, s, task, op);
      Step(g, last, Leave) == Some(Returned(g, s, task, op))
  {
  }

  lemma TurnedAway(g: Geometry, s: State, task: Task, op: Op)
    requires Callable(g, s, task, op) && !Effective(g, s.power.live.buffer, op) && op.Put?
    ensures Carried(g, s, task, op) == Returned(g, s, task, op)
  {
  }

  /** A call that nobody disturbs, whatever the flush is doing: it is never blocked, and ends
      as the class promises, the flash and the flash manager as before. */
  lemma UndisturbedCall(g: Geometry, s: State, task: Task, op: Op) returns (states: seq<State>, actions: seq<Action>)
    requires Callable(g, s, task, op)
    ensures LeadsOn(g, s, states, actions) && |actions| >= 2 && actions[..2] == [Enter(task, op), Body]
    ensures actions[2..] ==
      if Effective(g, s.power.live.buffer, op) then [SetFlag, Leave] else if op.Put? then [] else [Leave]
    ensures states[|actions|] == s.(power := Up(AfterCall(g, s.power.live, task, op)))
  {
    EnterStep(g, s, task, op);
    BodyStep(g, s, task, op);
    var carried, returned := Carried(g, s, task, op), Returned(g, s, task, op);
    states, actions := [s, Inside(s, task, op), carried], [Enter(task, op), Body];
    if Effective(g, s.power.live.buffer, op) {
      FlagStep(g, s, task, op);
      LeaveStep(g, s, task, op);
      states, actions := states + [Flagged(g, s, task, op), returned], actions + [SetFlag, Leave];
    } else if !op.Put? {
      LeaveStep(g, s, task, op);
      states, actions := states + [returned], actions + [Leave];
    } else {
      TurnedAway(g, s, task, op);
    }
  }

  /** The same state of the calls. */
  predicate SameCalls(l: Live, m: Live) {
    l.buffer == m.buffer && l.owner == m.owner && l.count == m.count && l.call == m.call
  }

  /** Whether a step of a call may be taken, and what it does to the calls, does not depend
      on where the flush stands or what the flash holds. */
  lemma CallsIgnoreFlush(g: Geometry, flash: Flash, l: Live, other: Flash, m: Live, a: Action)
    requires Shaped(g, flash) && Shaped(g, other) && SameCalls(l, m)
    requires a.Enter? || a.Body? || a.SetFlag? || a.Leave?
    ensures EnabledLive(g, flash, l, a) <==> EnabledLive(g, other, m, a)
    ensures EnabledLive(g, flash, l, a) ==>
      SameCalls(ApplyVolatile(g, flash, l, a), ApplyVolatile(g, other, m, a))
  {
    if a.Body? && EnabledLive(g, flash, l, a) {
      BodyIgnoresFlush(g, l, m);
    }
  }

  lemma BodyIgnoresFlush(g: Geometry, l: Live, m: Live)
    requires SameCalls(l, m) && l.call.Some? && WellFormed(l.buffer)
    ensures SameCalls(ApplyBody(g, l), ApplyBody(g, m))
  {
  }

  /** Apart from taking the mutex and the snapshot, a step of the flush does not depend on
      the calls: not on the buffer, nor on who owns the mutex. */
  lemma FlushIgnoresCalls(g: Geometry, flash: Flash, l: Live, m: Live, a: Action)
    requires Shaped(g, flash) && |l.cache| == 4 * g.blockWords
    requires l.store == m.store && l.cache == m.cache && l.flush == m.flush && l.needUpdate == m.needUpdate
    requires a.Poll? || a.ClearFlag? || a.EraseNext? || a.ReleaseMutex? || a.ProgramNext?
    ensures EnabledLive(g, flash, l, a) <==> EnabledLive(g, flash, m, a)
    ensures EnabledLive(g, flash, l, a) && a.ProgramNext? && l.store.current < |flash| ==>
      ProgramFlash(g, flash, l) == ProgramFlash(g, flash, m) && AfterProgram(g, l).flush == AfterProgram(g, m).flush
  {
  }
}
