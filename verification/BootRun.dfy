/** Boot on the interleaving machine and the constructors of the classes are the same boot,
    and from every state of every run power may fail and come back. */
module BootRun {
  import opened Words
  import opened BlockFormat
  import opened BlockLog
  import opened Recovery
  import opened RegistryBuffer
  import opened PersistentRegistry
  import opened EndToEnd

  /** Without power. */
  ghost predicate Dark(g: Geometry, s: State, spare: seq<Byte>) {
    Typed(g, s) && s.power.Off? && |spare| == 4 * g.blockWords
  }

  /** What the constructors promise: the fields of the boot scan, the data it found, and the
      flash erased, with the cache filled, if it found none. */
  ghost function Booted(g: Geometry, s: State, spare: seq<Byte>): State
    requires Dark(g, s, spare)
  {
    var empty := Best(g, s.flash).None?;
    State(AfterBoot(g, s.flash),
          Up(Live(BootStore(g, s.flash), if empty then CacheImage(spare, [], 0) else spare,
                  Recovered(g, s.flash), false, None, 0, None, Idle)),
          if empty then 0 else s.writes, if empty then false else s.sentinel)
  }

  /** The flash after so many erases of the restart. */
  ghost function Clearing(g: Geometry, s: State, spare: seq<Byte>, done: nat): State
    requires Dark(g, s, spare) && done <= g.sectors
  {
    s.(flash := EraseSectors(g, s.flash, AllSectors(g)[..done]), power := Booting(done, spare))
  }

  lemma BootEraseStep(g: Geometry, s: State, spare: seq<Byte>, done: nat)
    requires Dark(g, s, spare) && done < g.sectors
    ensures Step(g, Clearing(g, s, spare, done), BootErase) == Some(Clearing(g, s, spare, done + 1))
  {
    assert AllSectors(g)[..done + 1] == AllSectors(g)[..done] + [done];
    OneMoreErase(g, s.flash, AllSectors(g)[..done], done);
  }

  lemma BootDoneStep(g: Geometry, s: State, spare: seq<Byte>)
    requires Dark(g, s, spare) && Best(g, s.flash).None?
    ensures Step(g, Clearing(g, s, spare, g.sectors), BootDone) == Some(Booted(g, s, spare))
  {
    assert AllSectors(g)[..g.sectors] == AllSectors(g);
  }

  /** The restart, erase by erase. */
  lemma {:induction false} BootErases(g: Geometry, s: State, spare: seq<Byte>, done: nat)
    returns (states: seq<State>, actions: seq<Action>)
    requires Dark(g, s, spare) && Best(g, s.flash).None? && done <= g.sectors
    ensures LeadsOn(g, s, states, actions) && |actions| == done + 1 && states[done + 1] == Clearing(g, s, spare, done)
    ensures actions[0] == PowerOn(spare) && forall n :: 1 <= n <= done ==> actions[n] == BootErase
    ensures forall n :: 1 <= n <= done ==> states[n + 1].flash == EraseSectors(g, s.flash, AllSectors(g)[..n])
  {
    if done == 0 {
      assert AllSectors(g)[..0] == [];
      states, actions := [s, Clearing(g, s, spare, 0)], [PowerOn(spare)];
    } else {
      states, actions := BootErases(g, s, spare, done - 1);
      BootEraseStep(g, s, spare, done - 1);
      LeadsFurther(g, s, states, actions, BootErase, Clearing(g, s, spare, done));
      states, actions := states + [Clearing(g, s, spare, done)], actions + [BootErase];
    }
  }

  /** Left alone, boot is never blocked, and ends as the constructors promise. */
  lemma UndisturbedBoot(g: Geometry, s: State, spare: seq<Byte>) returns (states: seq<State>, actions: seq<Action>)
    requires Dark(g, s, spare)
    ensures LeadsOn(g, s, states, actions) && |actions| == if Best(g, s.flash).Some? then 1 else g.sectors + 2
    ensures states[|actions|] == Booted(g, s, spare)
    ensures Best(g, s.flash).None? ==>
      forall n :: 1 <= n <= g.sectors ==> states[n + 1].flash == EraseSectors(g, s.flash, AllSectors(g)[..n])
  {
    if Best(g, s.flash).Some? {
      states, actions := [s, Booted(g, s, spare)], [PowerOn(spare)];
    } else {
      states, actions := BootErases(g, s, spare, g.sectors);
      BootDoneStep(g, s, spare);
      LeadsFurther(g, s, states, actions, BootDone, Booted(g, s, spare));
      states, actions := states + [Booted(g, s, spare)], actions + [BootDone];
    }
  }

  /** A power cycle in any state of any run: power may fail there, the machine comes up
      again, at rest, and holds a sound map with the origin that `RebootYieldsSnapshot`
      states; and so after another one. */
  lemma PowerCycle(g: Geometry, states: seq<State>, actions: seq<Action>, i: nat, spare: seq<Byte>)
    returns (dark: State, up: State, path: seq<State>, steps: seq<Action>, origin: Origin)
    requires Run(g, states, actions) && NoSentinel(states) && i < |states| && |spare| == 4 * g.blockWords
    ensures Step(g, states[i], PowerCut) == Some(dark) && dark.power.Off? && dark.flash == states[i].flash
    ensures LeadsOn(g, dark, path, steps) && path[|steps|] == up && up.power.Up?
    ensures Shaped(g, up.flash) && Settled(g, up.flash, up.power.live.store)
    ensures var l := up.power.live;
      && l.buffer == Recovered(g, states[i].flash) == Recovered(g, up.flash)
      && Sound(l.buffer) && !l.needUpdate && l.owner.None? && l.call.None? && l.flush.Idle?
      && BootsFrom(g, states, actions, i, MapOf(l.buffer), origin)
  {
    RunKeepsInv(g, states, actions, i);
    origin := RebootYieldsSnapshot(g, states, actions, i);
    dark := states[i].(power := Off);
    path, steps := UndisturbedBoot(g, dark, spare);
    up := Booted(g, dark, spare);
    BootSettles(g, dark.flash);
  }
}
