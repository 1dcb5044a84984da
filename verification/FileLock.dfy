/** The lock object of one process, while no other process takes a step. */
module FileLock {
  import opened LockName
  import opened LockProtocol
  import opened Wrappers

  datatype Kind = LockNone | LockSelf | LockOther | LockUnknown

  datatype Success = LockCreated | LockExists | LockFailure

  const NO_OWNER := Owner("", "", 0, 0)

  /** The file system and the processes, as the system calls see and change them. Links can be made
      and removed only if the directory may be written to. */
  class Machine {
    var world: World
    const writable: bool

    constructor (w: World, writable: bool)
      ensures world == w && this.writable == writable
    {
      world := w;
      this.writable := writable;
    }
  }

  /** A process that may use the lock. */
  predicate Ready(w: World, me: nat) {
    me in w.procs && w.procs[me].alive && w.procs[me].pc == Idle && w.procs[me].pid >= 0 && w.procs[me].host in w.boots
  }

  function Own(w: World, me: nat): Owner
    requires me in w.procs && w.procs[me].host in w.boots
  {
    Identity(w.procs[me], w.boots[w.procs[me].host])
  }

  /** The owner fields after looking at the lock: those of the link, if it is one that can be read. */
  function Shown(entry: Entry, before: Owner): Owner {
    if entry.LinkTo? && Parse(entry.target).Some? then Parse(entry.target).value else before
  }

  /** The world in which a process has the lock. */
  function Taken(w: World, me: nat): World
    requires Ready(w, me)
  {
    With(w, me, w.procs[me].(believes := true)).(entry := LinkTo(Format(Own(w, me))))
  }

  /** The world in which a process no longer has the lock; the link stays if it cannot be removed. */
  function GivenUp(w: World, me: nat, removed: bool): World
    requires me in w.procs
  {
    With(w, me, w.procs[me].(believes := false)).(entry := if removed then Absent else w.entry)
  }

  /** The world after an `unlock`: one's own lock is given up, and a stale one is removed. */
  function Unlocked(w: World, me: nat, writable: bool): World
    requires Ready(w, me)
  {
    match Judge(w, me)
    case Self => GivenUp(w, me, writable)
    case Stale => if writable then w.(entry := Absent) else w
    case _ => w
  }

  /** Taking over a stale lock is a run of steps that keeps the lock safe. */
  lemma TakeOverIsSafe(w: World, me: nat)
    requires Safe(w) && Ready(w, me) && (Judge(w, me) == Stale || w.entry == Absent)
    ensures Safe(Taken(w, me)) && Names(Taken(w, me).entry, w.procs[me], w.boots[w.procs[me].host])
  {
    hide Judge, Format, Names, WellFormed, Parse;
    assert GoodProcess(w.procs[me]) && GoodBoot(w.boots[w.procs[me].host]) by { Good(w, me); }
    OwnLinkNames(w.procs[me], w.boots[w.procs[me].host]);
    if w.entry == Absent {
      StepKeepsSafe(w, Create(me));
      assert Next(w, Create(me)) == Taken(w, me);
    } else {
      StepKeepsSafe(w, Inspect(me));
      var w1 := Next(w, Inspect(me));
      StillStale(w, w1, me);
      StepKeepsSafe(w1, Zap(me));
      var w2 := Next(w1, Zap(me));
      StepKeepsSafe(w2, Create(me));
      var p := w.procs[me];
      assert w.procs[me := p.(pc := MustZap)][me := p.(pc := Idle)][me := p.(pc := Idle, believes := true)] ==
             w.procs[me := p.(believes := true)];
      assert Next(w2, Create(me)) == Taken(w, me);
    }
  }

  lemma Good(w: World, me: nat)
    requires WellFormed(w) && me in w.procs
    ensures GoodProcess(w.procs[me]) && w.procs[me].host in w.boots && GoodBoot(w.boots[w.procs[me].host])
  {
  }

  lemma StillStale(w: World, w': World, me: nat)
    requires WellFormed(w) && me in w.procs && w' == With(w, me, w.procs[me].(pc := MustZap))
    ensures Judge(w', me) == Judge(w, me)
  {
    hide Judge, WellFormed;
    JudgeSeesIdentities(w, w', me);
  }

  function Boot(w: World, me: nat): nat
    requires Ready(w, me)
  {
    w.boots[w.procs[me].host]
  }

  /** There is no lock, or one whose owner is gone. */
  predicate Free(w: World, me: nat)
    requires Ready(w, me)
  {
    w.entry == Absent || HeldByNobody(w, me)
  }

  /** What an `unlock` removes: one's own lock and a stale one, if anything can be removed. Of the
      processes only the one that unlocks is touched. */
  lemma UnlockedExactly(w: World, me: nat, writable: bool)
    requires Ready(w, me)
    ensures var w' := Unlocked(w, me, writable);
            && (w'.entry == if (Names(w.entry, w.procs[me], Boot(w, me)) || HeldByNobody(w, me)) && writable
                            then Absent else w.entry)
            && w'.boots == w.boots && w'.procs.Keys == w.procs.Keys
            && (w'.procs == w.procs || w'.procs == w.procs[me := w.procs[me].(believes := false)])
            && (Names(w.entry, w.procs[me], Boot(w, me)) ==> !w'.procs[me].believes)
  {
    JudgeExactly(w, me);
    hide Judge, Names, HeldByNobody, HeldByOther, NoLock;
  }

  lemma BelieverIsNamed(w: World, me: nat)
    requires Safe(w) && Ready(w, me)
    ensures w.procs[me].believes ==> Names(w.entry, w.procs[me], Boot(w, me))
  {
    assert w.procs[me].believes ==> Relies(w.procs[me]);
  }

  class FileNameLock {
    const system: Machine
    const me: nat
    /** Who has, or was last found to have, the lock. */
    var owner: Owner
    /** Whether a file name was given, so that the destructor unlocks it. */
    var named: bool

    constructor (system: Machine, me: nat)
      ensures this.system == system && this.me == me && owner == NO_OWNER && !named
    {
      this.system, this.me := system, me;
      owner, named := NO_OWNER, false;
    }

    /** One attempt to make the link. */
    method Create() returns (code: Success)
      requires Ready(system.world, me)
      modifies this, system
      ensures named && owner == Own(old(system.world), me)
      ensures code == if old(system.world).entry != Absent then LockExists
                      else if system.writable then LockCreated else LockFailure
      ensures system.world == if code == LockCreated then Taken(old(system.world), me) else old(system.world)
    {
      named := true;
      var w := system.world;
      owner := Own(w, me);
      var target := Format(owner);
      if w.entry != Absent {
        return LockExists;
      }
      if !system.writable {
        return LockFailure;
      }
      system.world := With(w, me, w.procs[me].(believes := true)).(entry := LinkTo(target));
      code := LockCreated;
    }

    /** Finds out who has the lock; a stale one is removed. */
    method Locker() returns (kind: Kind)
      requires Ready(system.world, me)
      modifies this`owner, system
      ensures system.world.procs == old(system.world).procs && system.world.boots == old(system.world).boots
      ensures match Judge(old(system.world), me)
              case Nobody => kind == LockNone && system.world.entry == Absent
              case Stale => if system.writable then kind == LockNone && system.world.entry == Absent
                            else kind == LockUnknown && system.world.entry == old(system.world).entry
              case Self => kind == LockSelf && system.world.entry == old(system.world).entry
              case Other => kind == LockOther && system.world.entry == old(system.world).entry
              case Unknown => kind == LockUnknown && system.world.entry == old(system.world).entry
      ensures owner == Shown(old(system.world).entry, old(owner))
      ensures kind == LockOther ==> Some(owner) == Parse(old(system.world).entry.target)
      ensures kind == LockSelf <==>
                Names(old(system.world).entry, old(system.world).procs[me], Boot(old(system.world), me))
      ensures kind == LockOther <==> HeldByOther(old(system.world), me)
      ensures kind == LockNone <==>
                old(system.world).entry == Absent || (HeldByNobody(old(system.world), me) && system.writable)
      ensures kind == LockUnknown <==>
                NoLock(old(system.world).entry) || (HeldByNobody(old(system.world), me) && !system.writable)
    {
      hide Parse, SameBoot, Signals;
      JudgeExactly(system.world, me);
      var w := system.world;
      if !w.entry.LinkTo? {
        return if w.entry == OtherFile then LockUnknown else LockNone;
      }
      var parsed := ParseLink(w.entry.target);
      if parsed == None {
        return LockUnknown;
      }
      owner := parsed.value;
      var p := w.procs[me];
      if owner.host != p.host {
        return LockOther;
      }
      var sameBoot := SameBoot(owner.ns, w.boots[p.host]);
      if sameBoot && owner.pid == p.pid {
        return LockSelf;
      }
      if sameBoot && owner.pid >= 0 && Signals(w, p.host, owner.pid) {
        return LockOther;
      }
      if !system.writable {
        return LockUnknown;
      }
      system.world := w.(entry := Absent);
      return LockNone;
    }

    /** Takes the lock exactly if it is this process's own, or there is none or a stale one and the
        directory may be written to. */
    method TryLock() returns (kind: Kind)
      requires Safe(system.world) && Ready(system.world, me)
      modifies this, system
      ensures Safe(system.world)
      ensures match Judge(old(system.world), me)
              case Nobody => if system.writable then kind == LockSelf && system.world == Taken(old(system.world), me)
                             else kind == LockUnknown && system.world == old(system.world)
              case Stale => if system.writable then kind == LockSelf && system.world == Taken(old(system.world), me)
                            else kind == LockUnknown && system.world == old(system.world)
              case Self => kind == LockSelf && system.world == Next(old(system.world), Inspect(me))
              case Other => kind == LockOther && system.world == old(system.world)
              case Unknown => kind == LockUnknown && system.world == old(system.world)
      ensures owner == if Judge(old(system.world), me) == Stale && system.writable
                       then Own(old(system.world), me)
                       else Shown(old(system.world).entry, Own(old(system.world), me))
      ensures kind == LockSelf <==> system.world.procs[me].believes
      ensures kind == LockSelf <==>
                || Names(old(system.world).entry, old(system.world).procs[me], Boot(old(system.world), me))
                || (Free(old(system.world), me) && system.writable)
      ensures kind == LockOther <==> HeldByOther(old(system.world), me)
      ensures kind == LockOther ==> Some(owner) == Parse(old(system.world).entry.target)
      ensures kind == LockUnknown <==>
                NoLock(old(system.world).entry) || (Free(old(system.world), me) && !system.writable)
    {
      JudgeExactly(system.world, me);
      BelieverIsNamed(system.world, me);
      hide Safe, Judge, Format, Parse, Names, HeldByOther, HeldByNobody;
      ghost var w := system.world;
      NobodyIsAbsent(w, me);
      if Judge(w, me) == Stale || w.entry == Absent {
        TakeOverIsSafe(w, me);
      } else if Judge(w, me) == Self {
        StepKeepsSafe(w, Inspect(me));
      }
      var code := Create();
      while code != LockCreated
        invariant owner == Own(w, me) && (code != LockCreated ==> system.world == w)
        invariant code == LockExists <==> code != LockCreated && w.entry != Absent
        invariant code == LockFailure ==> !system.writable
        invariant code == LockCreated ==>
                    system.writable && system.world == Taken(w, me) && (Judge(w, me) == Nobody || Judge(w, me) == Stale)
        decreases code != LockCreated
      {
        if code == LockFailure {
          return LockUnknown;
        }
        kind := Locker();
        if kind == LockSelf {
          system.world := With(system.world, me, system.world.procs[me].(believes := true));
        }
        if kind != LockNone {
          return;
        }
        code := Create();
      }
      kind := LockSelf;
    }

    /** Gives the lock up if it is this process's own. */
    method Unlock()
      requires Safe(system.world) && Ready(system.world, me)
      modifies this, system
      ensures Safe(system.world)
      ensures system.world == Unlocked(old(system.world), me, system.writable)
      ensures if Judge(old(system.world), me) == Self then owner == Owner("", "", 0, 0) && !named
              else owner == Shown(old(system.world).entry, old(owner)) && named == old(named)
      ensures !system.world.procs[me].believes
    {
      JudgeExactly(system.world, me);
      BelieverIsNamed(system.world, me);
      hide Safe, Judge, Format, Parse, Names, HeldByOther, HeldByNobody;
      ghost var w := system.world;
      NobodyIsAbsent(w, me);
      if Judge(w, me) == Self {
        ReleaseIsSafe(w, me, system.writable);
      } else if Judge(w, me) == Stale {
        ZapIsSafe(w, me);
      }
      var kind := Locker();
      if kind == LockSelf {
        var p := system.world.procs[me];
        system.world := With(system.world, me, p.(believes := false));
        if system.writable {
          system.world := system.world.(entry := Absent);
        }
        owner, named := NO_OWNER, false;
      }
    }
  }

  lemma NobodyIsAbsent(w: World, me: nat)
    requires Ready(w, me)
    ensures Judge(w, me) == Nobody <==> w.entry == Absent
  {
  }

  lemma ReleaseIsSafe(w: World, me: nat, removed: bool)
    requires Safe(w) && Ready(w, me) && Judge(w, me) == Self
    ensures Safe(GivenUp(w, me, removed))
  {
    hide Judge, Names;
    var p := w.procs[me];
    if removed {
      StepKeepsSafe(w, CheckOwn(me));
      var w1 := Next(w, CheckOwn(me));
      StepKeepsSafe(w1, Release(me));
      assert w.procs[me := p.(pc := MustRelease)][me := p.(pc := Idle, believes := false)] ==
             w.procs[me := p.(believes := false)];
      assert Next(w1, Release(me)) == GivenUp(w, me, true);
    } else {
      WithKeepsWellFormed(w, me, p.(believes := false));
      hide WellFormed;
      assert forall q :: q in w.procs && q != me && Relies(w.procs[q]) ==>
                           Names(w.entry, w.procs[q], w.boots[w.procs[q].host]);
    }
  }

  lemma ZapIsSafe(w: World, me: nat)
    requires Safe(w) && Ready(w, me) && Judge(w, me) == Stale
    ensures Safe(w.(entry := Absent))
  {
    hide Judge, WellFormed, Names;
    StepKeepsSafe(w, CheckOwn(me));
    var w1 := Next(w, CheckOwn(me));
    StillStale(w, w1, me);
    StepKeepsSafe(w1, Zap(me));
    var p := w.procs[me];
    assert w.procs[me := p.(pc := MustZap)][me := p.(pc := Idle)] == w.procs;
    assert Next(w1, Zap(me)) == w.(entry := Absent);
  }

  /** Locking and unlocking leaves no trace: after a lock that was there for the taking, unlocking
      finds it one's own and removes it. */
  lemma UnlockUndoesLock(w: World, me: nat)
    requires Safe(w) && Ready(w, me) && (Judge(w, me) == Stale || w.entry == Absent)
    ensures Ready(Taken(w, me), me) && Judge(Taken(w, me), me) == Self
    ensures GivenUp(Taken(w, me), me, true) == GivenUp(w, me, true)
  {
    hide Format, Parse, SameBoot, WellFormed, Signals;
    TakeOverIsSafe(w, me);
    var p := w.procs[me];
    assert w.procs[me := p.(believes := true)][me := p.(believes := false)] == w.procs[me := p.(believes := false)];
  }
}
