/** Runs of the lock protocol: what holds while owners live, and the two races that remain. */
module LockRuns {
  import opened LockName
  import opened LockProtocol
  import opened Wrappers

  // ----- undivided steps -----------------------------------------------------------------------------

  /** The step of looking and probing at once. */
  function Whole(id: nat, giveUp: bool): Step {
    if giveUp then CheckOwn(id) else Inspect(id)
  }

  /** Looking and probing at once is looking, and then probing if there is somebody to probe. */
  lemma WholeIsReadAndProbe(w: World, id: nat, giveUp: bool)
    requires Enabled(w, Whole(id, giveUp))
    ensures Enabled(w, Read(id, giveUp))
    ensures var seen := Next(w, Read(id, giveUp));
            if Look(w, id).Ask?
            then Enabled(seen, Probe(id)) && Next(seen, Probe(id)) == Next(w, Whole(id, giveUp))
            else seen == Next(w, Whole(id, giveUp))
  {
    hide Look, Signals;
    var seen := Next(w, Read(id, giveUp));
    if Look(w, id).Ask? {
      var pid := Look(w, id).pid;
      var p := w.procs[id];
      SignalsSeesIdentities(w, seen, id, p.host, pid);
      assert w.procs[id := p.(pc := MustProbe(pid))][id := p] == w.procs;
      assert w.procs[id := p.(pc := MustProbe(pid))][id := p.(pc := MustZap)] == w.procs[id := p.(pc := MustZap)];
    }
  }

  lemma SignalsSeesIdentities(w: World, w': World, id: nat, host: string, pid: int)
    requires id in w.procs && id in w'.procs && w'.procs == w.procs[id := w.procs[id].(pc := w'.procs[id].pc)]
    ensures Signals(w', host, pid) == Signals(w, host, pid)
  {
    if q :| q in w.procs && Runs(w.procs[q], host, pid) {
      assert Runs(w'.procs[q], host, pid);
    }
    if q :| q in w'.procs && Runs(w'.procs[q], host, pid) {
      assert Runs(w.procs[q], host, pid);
    }
  }

  // ----- runs in which no owner dies -----------------------------------------------------------------

  /** The link names this live process. */
  ghost predicate Owns(w: World, id: nat)
    requires id in w.procs
  {
    w.procs[id].alive && w.procs[id].host in w.boots && Names(w.entry, w.procs[id], w.boots[w.procs[id].host])
  }

  /** The step ends the process that the lock names. */
  ghost predicate EndsOwner(w: World, step: Step) {
    match step
    case Die(id) => id in w.procs && Owns(w, id)
    case Reboot(host, _) => exists id :: id in w.procs && w.procs[id].host == host && Owns(w, id)
    case _ => false
  }

  /** A live process is about to probe this one. */
  ghost predicate Asked(w: World, id: nat)
    requires id in w.procs
  {
    exists p :: p in w.procs && Asks(w.procs[p], w.procs[id])
  }

  predicate Asks(p: Process, q: Process) {
    p.alive && p.pc == MustProbe(q.pid) && p.host == q.host
  }

  /** The step ends a process that somebody has read about and not yet probed. A reboot ends the
      one that would probe as well. */
  ghost predicate EndsAsked(w: World, step: Step) {
    step.Die? && step.id in w.procs && Asked(w, step.id)
  }

  ghost predicate NoOwnerEnds(w: World, steps: seq<Step>)
    requires Possible(w, steps)
    decreases |steps|
  {
    steps == [] || (!EndsOwner(w, steps[0]) && NoOwnerEnds(Next(w, steps[0]), steps[1..]))
  }

  ghost predicate NoneAskedEnds(w: World, steps: seq<Step>)
    requires Possible(w, steps)
    decreases |steps|
  {
    steps == [] || (!EndsAsked(w, steps[0]) && NoneAskedEnds(Next(w, steps[0]), steps[1..]))
  }

  /** The lock, if there is one, names a live process; whoever is about to be probed is there; and
      nobody is about to remove a link as stale. */
  ghost predicate Calm(w: World) {
    && Safe(w)
    && (w.entry.LinkTo? && Parse(w.entry.target).Some? ==> exists id :: id in w.procs && Owns(w, id))
    && (forall id :: id in w.procs ==> w.procs[id].pc != MustZap)
    && (forall id :: id in w.procs && w.procs[id].alive && w.procs[id].pc.MustProbe? ==>
          Signals(w, w.procs[id].host, w.procs[id].pc.pid))
  }

  lemma CalmIsNotStale(w: World, id: nat)
    requires Calm(w) && id in w.procs
    ensures Judge(w, id) != Stale && Look(w, id) != Stale
    ensures Look(w, id).Ask? ==> Signals(w, w.procs[id].host, Look(w, id).pid)
  {
    hide Parse, SameBoot, GoodBoot, Signals;
    if w.entry.LinkTo? && Parse(w.entry.target).Some? {
      var q :| q in w.procs && Owns(w, q);
      LiveIsSignalled(w, q);
    }
  }

  /** The part of a step that concerns the process named by the link. */
  lemma OwnerStays(w: World, step: Step)
    requires Calm(w) && Enabled(w, step) && !EndsOwner(w, step) && Safe(Next(w, step))
    ensures var w' := Next(w, step);
            w'.entry.LinkTo? && Parse(w'.entry.target).Some? ==> exists id :: id in w'.procs && Owns(w', id)
  {
    hide Parse, SameBoot, GoodBoot, GoodProcess, WellFormed, Look, Judge, Signals, Names, Format;
    var w' := Next(w, step);
    if w'.entry.LinkTo? && Parse(w'.entry.target).Some? {
      if w'.entry == w.entry {
        var q :| q in w.procs && Owns(w, q);
        NamesIdentity(w.entry, w.procs[q], w'.procs[q], w.boots[w.procs[q].host]);
        assert q in w'.procs && Owns(w', q);
      } else {
        assert Relies(w'.procs[step.id]);
        RelyingOwns(w', step.id);
      }
    }
  }

  lemma RelyingOwns(w: World, id: nat)
    requires Safe(w) && id in w.procs && Relies(w.procs[id])
    ensures Owns(w, id)
  {
    hide Parse, SameBoot, GoodBoot, GoodProcess;
  }

  /** A step that ends nobody who is asked for keeps all answers. */
  lemma AnswerStays(w: World, step: Step, id: nat)
    requires WellFormed(w) && Enabled(w, step) && !EndsAsked(w, step)
    requires id in w.procs && w.procs[id].alive && w.procs[id].pc.MustProbe?
    requires Signals(w, w.procs[id].host, w.procs[id].pc.pid)
    ensures var w' := Next(w, step);
            id in w'.procs && (w'.procs[id].alive ==> Signals(w', w.procs[id].host, w.procs[id].pc.pid))
  {
    hide Parse, SameBoot, GoodBoot, GoodProcess, Look, Judge, Format;
    var w', p := Next(w, step), w.procs[id];
    if p.pc.pid != 0 && w'.procs[id].alive {
      var q :| q in w.procs && Runs(w.procs[q], p.host, p.pc.pid);
      assert Asks(p, w.procs[q]);
      assert Runs(w'.procs[q], p.host, p.pc.pid);
    }
  }

  lemma StepStaysCalm(w: World, step: Step)
    requires Calm(w) && Enabled(w, step) && !EndsOwner(w, step) && !EndsAsked(w, step)
    ensures Calm(Next(w, step))
  {
    hide Parse, SameBoot, GoodBoot, GoodProcess, Look, Judge, Signals, Names, Format, Owns;
    var w' := Next(w, step);
    assert Timely(w, step);
    StepKeepsSafe(w, step);
    OwnerStays(w, step);
    if step.Read? || step.Probe? || step.Inspect? || step.CheckOwn? {
      CalmIsNotStale(w, step.id);
    }
    forall id | id in w'.procs && w'.procs[id].alive && w'.procs[id].pc.MustProbe?
      ensures Signals(w', w'.procs[id].host, w'.procs[id].pc.pid)
    {
      if id in w.procs && w.procs[id].pc == w'.procs[id].pc {
        AnswerStays(w, step, id);
      } else {
        SignalsSeesIdentities(w, w', id, w'.procs[id].host, w'.procs[id].pc.pid);
      }
    }
  }

  /** With every system call a step of its own, the lock is safe over every run in which no process
      dies, nor its host is rebooted, while the lock names it or somebody is about to probe it. */
  lemma {:induction false} DividedRunStaysCalm(w: World, steps: seq<Step>)
    requires Calm(w) && Possible(w, steps) && NoOwnerEnds(w, steps) && NoneAskedEnds(w, steps)
    ensures Calm(After(w, steps))
    decreases |steps|
  {
    hide Calm, Next, Enabled, EndsOwner, EndsAsked;
    if steps != [] {
      StepStaysCalm(w, steps[0]);
      DividedRunStaysCalm(Next(w, steps[0]), steps[1..]);
    }
  }

  predicate NobodyAsks(w: World) {
    forall id :: id in w.procs ==> !w.procs[id].pc.MustProbe?
  }

  lemma StillNobodyAsks(w: World, step: Step)
    requires NobodyAsks(w) && Enabled(w, step) && !step.Read?
    ensures NobodyAsks(Next(w, step)) && !EndsAsked(w, step)
  {
    hide Parse, SameBoot, GoodBoot, GoodProcess, Look, Signals, Format;
  }

  lemma {:induction false} NobodyAskedWithoutReads(w: World, steps: seq<Step>)
    requires NobodyAsks(w) && Possible(w, steps)
    requires forall i :: 0 <= i < |steps| ==> !steps[i].Read?
    ensures NoneAskedEnds(w, steps)
    decreases |steps|
  {
    hide NobodyAsks, Next, Enabled, EndsAsked;
    if steps != [] {
      StillNobodyAsks(w, steps[0]);
      NobodyAskedWithoutReads(Next(w, steps[0]), steps[1..]);
    }
  }

  /** If a link is always probed as soon as it is read, it is enough that no owner dies: the lock is
      safe however long afterwards stale links are removed. */
  lemma RunStaysCalm(w: World, steps: seq<Step>)
    requires Calm(w) && NobodyAsks(w) && Possible(w, steps) && NoOwnerEnds(w, steps)
    requires forall i :: 0 <= i < |steps| ==> !steps[i].Read?
    ensures Calm(After(w, steps))
  {
    NobodyAskedWithoutReads(w, steps);
    DividedRunStaysCalm(w, steps);
  }

  // ----- removing in time ----------------------------------------------------------------------------

  /** Every live process named by the link relies on it, and the link names no special pid. */
  ghost predicate Standing(w: World) {
    && (w.entry.LinkTo? && Parse(w.entry.target).Some? ==> Parse(w.entry.target).value.pid > 0)
    && forall id :: id in w.procs && Owns(w, id) ==> Relies(w.procs[id])
  }

  /** A new process gets the pid that the lock still names. */
  predicate ReusesPid(w: World, step: Step) {
    step.Spawn? && step.host in w.boots
    && Names(w.entry, Process(step.user, step.host, step.pid, true, false, Idle), w.boots[step.host])
  }

  lemma CreateKeepsStanding(w: World, id: nat)
    requires Safe(w) && Enabled(w, Create(id)) && w.entry == Absent
    ensures Standing(Next(w, Create(id)))
  {
    hide Parse, SameBoot, GoodBoot, Format, Names;
    var w' := Next(w, Create(id));
    var p := w.procs[id];
    CreateKeepsSafe(w, Create(id));
    assert Relies(w'.procs[id]);
    RelyingOwns(w', id);
    OwnedPid(w', id);
    forall q | q in w'.procs && Owns(w', q)
      ensures Relies(w'.procs[q])
    {
      NamesOnlyOne(w', id, q);
    }
  }

  lemma OwnedPid(w: World, id: nat)
    requires Safe(w) && id in w.procs && Owns(w, id)
    ensures w.entry.LinkTo? && Parse(w.entry.target).Some? && Parse(w.entry.target).value.pid == w.procs[id].pid > 0
  {
    hide Parse, SameBoot, GoodBoot;
  }

  /** Nobody stops relying on a lock that names him, unless a pid is used again. */
  lemma StepKeepsStanding(w: World, step: Step)
    requires Safe(w) && Standing(w) && Enabled(w, step) && !ReusesPid(w, step)
    ensures Standing(Next(w, step))
  {
    hide Parse, SameBoot, GoodBoot, GoodProcess, WellFormed, Look, Judge, Signals, Names, Format;
    var w' := Next(w, step);
    if w'.entry == Absent {
      forall q | q in w'.procs
        ensures !Owns(w', q)
      {
        if w'.procs[q].host in w'.boots {
          AbsentNamesNobody(w'.procs[q], w'.boots[w'.procs[q].host]);
        }
      }
    } else if w'.entry == w.entry {
      forall q | q in w'.procs && Owns(w', q)
        ensures Relies(w'.procs[q])
      {
        if q in w.procs {
          NamesIdentity(w.entry, w.procs[q], w'.procs[q], w'.boots[w'.procs[q].host]);
          assert Owns(w, q);
        }
      }
    } else {
      CreateKeepsStanding(w, step.id);
    }
  }

  ghost predicate NoPidReused(w: World, steps: seq<Step>)
    requires Possible(w, steps)
    decreases |steps|
  {
    steps == [] || (!ReusesPid(w, steps[0]) && NoPidReused(Next(w, steps[0]), steps[1..]))
  }

  lemma {:induction false} RunKeepsStanding(w: World, steps: seq<Step>)
    requires Safe(w) && Standing(w) && Possible(w, steps) && AllTimely(w, steps) && NoPidReused(w, steps)
    ensures Safe(After(w, steps)) && Standing(After(w, steps))
    decreases |steps|
  {
    hide Safe, Standing, Next, Enabled, Timely, ReusesPid;
    if steps != [] {
      StepKeepsSafe(w, steps[0]);
      StepKeepsStanding(w, steps[0]);
      RunKeepsStanding(Next(w, steps[0]), steps[1..]);
    }
  }

  /** Before the first process starts. */
  predicate Fresh(w: World) {
    w.procs == map[] && w.entry == Absent && forall host :: host in w.boots ==> GoodBoot(w.boots[host])
  }

  /** All that the theorems about runs ask of a start holds there. */
  lemma FreshStart(w: World)
    requires Fresh(w)
    ensures Safe(w) && Calm(w) && Standing(w) && NobodyAsks(w)
  {
    hide Parse;
  }

  /** There, a process can be started and take the lock, by which it is named. */
  lemma FreshCanLock(w: World, id: nat, user: string, host: string, pid: int)
    requires Fresh(w) && host in w.boots && GoodProcess(Process(user, host, pid, true, false, Idle))
    ensures var steps := [Spawn(id, user, host, pid), Create(id)];
            && Possible(w, steps)
            && var w' := After(w, steps);
               && w'.procs.Keys == {id} && w'.procs[id].alive && w'.procs[id].believes
               && w'.procs[id].user == user && w'.procs[id].host == host && w'.procs[id].pid == pid
               && w'.boots == w.boots && Owns(w', id)
  {
    hide Parse, Format, SameBoot, GoodBoot, GoodProcess;
    var spawn, create := Spawn(id, user, host, pid), Create(id);
    assert pid >= 0 by { PidIsNotNegative(user, host, pid); }
    var w1 := Next(w, spawn);
    assert [spawn, create][1..] == [create] && [create][1..] == [];
    assert Enabled(w1, create);
    assert After(w1, [create]) == Next(w1, create);
    OwnLinkNames(w1.procs[id], w.boots[host]);
  }

  lemma PidIsNotNegative(user: string, host: string, pid: int)
    requires GoodProcess(Process(user, host, pid, true, false, Idle))
    ensures pid >= 0
  {
  }

  /** From there, over every run with timely removals at most one live process has the lock. */
  lemma OneOwnerFromFresh(w: World, steps: seq<Step>, p: nat, q: nat)
    requires Fresh(w) && Possible(w, steps) && AllTimely(w, steps)
    requires var procs := After(w, steps).procs;
             && p in procs && procs[p].alive && procs[p].believes
             && q in procs && procs[q].alive && procs[q].believes
    ensures p == q
  {
    hide Safe, Fresh, Possible, AllTimely, After;
    FreshStart(w);
    RunStaysSafe(w, steps);
    AtMostOneOwner(After(w, steps), p, q);
  }

  /** What is at the lock name is this process's to remove: nothing, or a lock of its own host. */
  predicate OursToRemove(w: World, id: nat)
    requires id in w.procs
  {
    w.entry == Absent
    || (w.entry.LinkTo? && Parse(w.entry.target).Some? && Parse(w.entry.target).value.host == w.procs[id].host)
  }

  /** While no pid is used again under a lock, removing a link found stale earlier is safe, and
      removes no lock of another host, exactly if looking and probing again would still find it
      stale, or gone. */
  lemma ZapSafeExactly(w: World, id: nat)
    requires Safe(w) && Standing(w) && Enabled(w, Zap(id))
    ensures Safe(Next(w, Zap(id))) && OursToRemove(w, id) <==> Timely(w, Zap(id))
  {
    hide Parse, SameBoot, GoodBoot, GoodProcess;
    KnownHost(w, id);
    if Timely(w, Zap(id)) {
      StepKeepsSafe(w, Zap(id));
      if w.entry != Absent {
        StaleIsOurs(w, id);
      }
    } else if Safe(Next(w, Zap(id))) && OursToRemove(w, id) {
      NotStaleIsRelied(w, id);
    }
  }

  lemma KnownHost(w: World, id: nat)
    requires WellFormed(w) && id in w.procs
    ensures w.procs[id].host in w.boots
  {
  }

  lemma StaleIsOurs(w: World, id: nat)
    requires id in w.procs && w.procs[id].host in w.boots && Judge(w, id) == Stale
    ensures OursToRemove(w, id)
  {
    hide Parse, SameBoot, Signals;
  }

  /** A lock of this host that is not stale names a process, and so somebody relies on it; without
      the lock it would not be safe. */
  lemma NotStaleIsRelied(w: World, id: nat)
    requires Safe(w) && Standing(w) && Enabled(w, Zap(id)) && w.procs[id].host in w.boots
    requires OursToRemove(w, id) && w.entry != Absent && Judge(w, id) != Stale
    ensures !Safe(Next(w, Zap(id)))
  {
    hide Parse, SameBoot, GoodBoot, GoodProcess;
    var o := Parse(w.entry.target).value;
    var q :| q in w.procs && Runs(w.procs[q], o.host, o.pid);
    assert Owns(w, q);
    var w' := Next(w, Zap(id));
    assert Relies(w'.procs[q]);
    AbsentNamesNobody(w'.procs[q], w'.boots[w'.procs[q].host]);
  }

  // ----- the races -----------------------------------------------------------------------------------

  /** With inspecting and removing as two steps, two processes that find the same dead owner's link
      stale can both end up believing: the second removes the new link of the first. */
  lemma StaleRace(w: World, b: nat, c: nat)
    requires WellFormed(w) && b in w.procs && c in w.procs && b != c
    requires w.procs[b].alive && w.procs[b].pc == Idle && w.procs[c].alive && w.procs[c].pc == Idle
    requires Judge(w, b) == Stale && Judge(w, c) == Stale
    ensures var steps := [Inspect(b), Inspect(c), Zap(b), Create(b), Zap(c), Create(c)];
            && Possible(w, steps)
            && var w' := After(w, steps);
               && b in w'.procs && w'.procs[b].alive && w'.procs[b].believes
               && c in w'.procs && w'.procs[c].alive && w'.procs[c].believes
  {
    hide WellFormed, Judge, After, Possible;
    CanCreate(w, b);
    CanCreate(w, c);
    InspectStale(w, b);
    var w1 := Next(w, Inspect(b));
    JudgeSeesIdentities(w, w1, c);
    InspectStale(w1, c);
    var w2 := Next(w1, Inspect(c));
    ZapAndCreate(w2, b);
    var w4 := After(w2, [Zap(b), Create(b)]);
    ZapAndCreate(w4, c);
    Join(w2, [Zap(b), Create(b)], [Zap(c), Create(c)]);
    assert [Zap(b), Create(b)] + [Zap(c), Create(c)] == [Zap(b), Create(b), Zap(c), Create(c)];
    Prepend(w1, Inspect(c), [Zap(b), Create(b), Zap(c), Create(c)]);
    Prepend(w, Inspect(b), [Inspect(c), Zap(b), Create(b), Zap(c), Create(c)]);
    assert [Inspect(b)] + [Inspect(c), Zap(b), Create(b), Zap(c), Create(c)] ==
           [Inspect(b), Inspect(c), Zap(b), Create(b), Zap(c), Create(c)];
    assert [Inspect(c)] + [Zap(b), Create(b), Zap(c), Create(c)] == [Inspect(c), Zap(b), Create(b), Zap(c), Create(c)];
  }

  lemma CanCreate(w: World, id: nat)
    requires WellFormed(w) && id in w.procs
    ensures w.procs[id].pid >= 0 && w.procs[id].host in w.boots
  {
  }

  lemma InspectStale(w: World, id: nat)
    requires id in w.procs && w.procs[id].alive && w.procs[id].pc == Idle && w.procs[id].host in w.boots
    requires Judge(w, id) == Stale
    ensures Enabled(w, Inspect(id)) && Next(w, Inspect(id)) == With(w, id, w.procs[id].(pc := MustZap))
  {
  }

  /** Who has decided to zap a link gets the lock, whatever is there. */
  lemma ZapAndCreate(w: World, id: nat)
    requires id in w.procs && w.procs[id].alive && w.procs[id].pc == MustZap
    requires w.procs[id].pid >= 0 && w.procs[id].host in w.boots
    ensures var steps := [Zap(id), Create(id)];
            && Possible(w, steps)
            && var w' := After(w, steps);
               w'.procs == w.procs[id := w.procs[id].(pc := Idle, believes := true)] && w'.boots == w.boots
  {
    hide Format;
    var zapped := Next(w, Zap(id));
    var made := Next(zapped, Create(id));
    assert w.procs[id := w.procs[id].(pc := Idle)][id := w.procs[id].(pc := Idle, believes := true)] ==
           w.procs[id := w.procs[id].(pc := Idle, believes := true)];
    assert Possible(made, []) && After(made, []) == made;
    Prepend(zapped, Create(id), []);
    assert [Create(id)] + [] == [Create(id)];
    Prepend(w, Zap(id), [Create(id)]);
    assert [Zap(id)] + [Create(id)] == [Zap(id), Create(id)];
  }

  lemma Prepend(w: World, step: Step, steps: seq<Step>)
    requires Enabled(w, step) && Possible(Next(w, step), steps)
    ensures Possible(w, [step] + steps) && After(w, [step] + steps) == After(Next(w, step), steps)
  {
    assert ([step] + steps)[1..] == steps;
  }

  lemma {:induction false} Join(w: World, first: seq<Step>, second: seq<Step>)
    requires Possible(w, first) && Possible(After(w, first), second)
    ensures Possible(w, first + second) && After(w, first + second) == After(After(w, first), second)
    decreases |first|
  {
    hide Enabled, Next;
    if first == [] {
      assert first + second == second;
    } else {
      Join(Next(w, first[0]), first[1..], second);
      assert (first + second)[1..] == first[1..] + second;
    }
  }

  /** Who reads the link of a live process of the same host has to probe that process. */
  lemma ReadAboutOwner(w: World, a: nat, b: nat)
    requires WellFormed(w) && a in w.procs && b in w.procs && a != b && Owns(w, a)
    requires w.procs[b].alive && w.procs[b].host == w.procs[a].host
    ensures Look(w, b) == Ask(w.procs[a].pid) && Look(w, a) == Self && Judge(w, a) == Self
  {
    hide Parse, SameBoot, GoodBoot;
    assert !Runs(w.procs[b], w.procs[a].host, w.procs[a].pid);
  }

  lemma SelfSeesIdentities(w: World, w': World, a: nat)
    requires a in w.procs && w.procs[a].host in w.boots && w'.boots == w.boots && w'.entry == w.entry
    requires a in w'.procs && w'.procs[a] == w.procs[a] && Look(w, a) == Self
    ensures Judge(w', a) == Self
  {
    hide Parse, SameBoot;
  }

  /** The world in which the owner `a` has given up and died, `c` has the lock, and `b` still has to
      probe `a`. */
  function Overtaken(w: World, a: nat, b: nat, c: nat): World
    requires a in w.procs && b in w.procs && c in w.procs && w.procs[c].pid >= 0 && w.procs[c].host in w.boots
  {
    w.(procs := w.procs[b := w.procs[b].(pc := MustProbe(w.procs[a].pid))]
                       [a := w.procs[a].(pc := Idle, believes := false, alive := false)]
                       [c := w.procs[c].(believes := true)],
       entry := LinkTo(Format(Identity(w.procs[c], w.boots[w.procs[c].host]))))
  }

  /** The run in which that happens; no process dies while the lock names it. */
  lemma Overtake(w: World, a: nat, b: nat, c: nat)
    requires WellFormed(w) && a in w.procs && b in w.procs && c in w.procs && a != b && b != c && a != c
    requires Owns(w, a) && w.procs[b].host == w.procs[a].host
    requires w.procs[a].alive && w.procs[b].alive && w.procs[c].alive
    requires w.procs[a].pc == Idle && w.procs[b].pc == Idle && w.procs[c].pc == Idle
    ensures w.procs[c].pid >= 0 && w.procs[c].host in w.boots
    ensures var steps := [Read(b, false), CheckOwn(a), Release(a), Die(a), Create(c)];
            Possible(w, steps) && NoOwnerEnds(w, steps) && After(w, steps) == Overtaken(w, a, b, c)
  {
    hide WellFormed, After, Possible, NoOwnerEnds, Format, Names;
    CanCreate(w, c);
    GiveUp(w, a, b);
    var first, last := [Read(b, false), CheckOwn(a), Release(a)], [Die(a), Create(c)];
    var w3 := After(w, first);
    ExitAndCreate(w3, a, c);
    NobodyEnds(w, first);
    Join(w, first, last);
    JoinCalm(w, first, last);
    assert first + last == [Read(b, false), CheckOwn(a), Release(a), Die(a), Create(c)];
    assert After(w3, last).procs == Overtaken(w, a, b, c).procs;
  }

  /** `b` reads the link of `a`, which then gives the lock up. */
  lemma GiveUp(w: World, a: nat, b: nat)
    requires WellFormed(w) && a in w.procs && b in w.procs && a != b
    requires Owns(w, a) && w.procs[b].host == w.procs[a].host
    requires w.procs[a].alive && w.procs[b].alive && w.procs[a].pc == Idle && w.procs[b].pc == Idle
    ensures var steps := [Read(b, false), CheckOwn(a), Release(a)];
            && Possible(w, steps)
            && After(w, steps) ==
               w.(procs := w.procs[b := w.procs[b].(pc := MustProbe(w.procs[a].pid))]
                                  [a := w.procs[a].(pc := Idle, believes := false)],
                  entry := Absent)
  {
    hide WellFormed, Look, Judge, After, Possible, Names, Parse;
    CanCreate(w, a);
    CanCreate(w, b);
    ReadAboutOwner(w, a, b);
    var p := w.procs[a];
    var w1 := Next(w, Read(b, false));
    SelfSeesIdentities(w, w1, a);
    var w2 := Next(w1, CheckOwn(a));
    var w3 := Next(w2, Release(a));
    assert w1.procs[a := p.(pc := MustRelease)][a := p.(pc := Idle, believes := false)] ==
           w1.procs[a := p.(pc := Idle, believes := false)];
    Done(w3);
    Prepend(w2, Release(a), []);
    assert [Release(a)] + [] == [Release(a)];
    Prepend(w1, CheckOwn(a), [Release(a)]);
    assert [CheckOwn(a)] + [Release(a)] == [CheckOwn(a), Release(a)];
    Prepend(w, Read(b, false), [CheckOwn(a), Release(a)]);
    assert [Read(b, false)] + [CheckOwn(a), Release(a)] == [Read(b, false), CheckOwn(a), Release(a)];
  }

  /** Then `a` exits, and `c` takes the lock. */
  lemma ExitAndCreate(w: World, a: nat, c: nat)
    requires w.entry == Absent && a in w.procs && c in w.procs && a != c
    requires w.procs[c].alive && w.procs[c].pc == Idle && w.procs[c].pid >= 0 && w.procs[c].host in w.boots
    ensures var steps := [Die(a), Create(c)];
            && Possible(w, steps) && NoOwnerEnds(w, steps)
            && After(w, steps) ==
               w.(procs := w.procs[a := w.procs[a].(alive := false)][c := w.procs[c].(believes := true)],
                  entry := LinkTo(Format(Identity(w.procs[c], w.boots[w.procs[c].host]))))
  {
    hide After, Possible, NoOwnerEnds, Format;
    var w1 := Next(w, Die(a));
    var w2 := Next(w1, Create(c));
    GoneOwnsNothing(w, a);
    Done(w2);
    PrependCalm(w1, Create(c), []);
    assert [Create(c)] + [] == [Create(c)];
    PrependCalm(w, Die(a), [Create(c)]);
    assert [Die(a)] + [Create(c)] == [Die(a), Create(c)];
  }

  lemma Done(w: World)
    ensures Possible(w, []) && NoOwnerEnds(w, []) && After(w, []) == w
  {
  }

  lemma GoneOwnsNothing(w: World, a: nat)
    requires w.entry == Absent && a in w.procs
    ensures !Owns(w, a)
  {
  }

  lemma PrependCalm(w: World, step: Step, steps: seq<Step>)
    requires Enabled(w, step) && !EndsOwner(w, step)
    requires Possible(Next(w, step), steps) && NoOwnerEnds(Next(w, step), steps)
    ensures Possible(w, [step] + steps) && NoOwnerEnds(w, [step] + steps)
    ensures After(w, [step] + steps) == After(Next(w, step), steps)
  {
    assert ([step] + steps)[1..] == steps;
  }

  /** Nobody of the host answers to the pid of the owner that is gone. */
  lemma NobodyAnswers(w: World, a: nat, b: nat, c: nat)
    requires WellFormed(w) && a in w.procs && b in w.procs && c in w.procs && a != b && b != c && a != c
    requires w.procs[a].alive
    ensures w.procs[c].pid >= 0 && w.procs[c].host in w.boots
    ensures !Signals(Overtaken(w, a, b, c), w.procs[a].host, w.procs[a].pid)
  {
    hide GoodBoot, Format;
    var w' := Overtaken(w, a, b, c);
    forall q | q in w'.procs
      ensures !Runs(w'.procs[q], w.procs[a].host, w.procs[a].pid)
    {
      assert q != a ==> !Runs(w.procs[q], w.procs[a].host, w.procs[a].pid);
    }
  }

  /** With reading and probing as two steps it is not enough that no owner dies. If `b` has read the
      link of `a`, `a` gives the lock up and exits, and `c` takes it, then `b` finds nobody to answer
      for `a` and removes the lock of `c`. */
  lemma ProbeRace(w: World, a: nat, b: nat, c: nat)
    requires WellFormed(w) && a in w.procs && b in w.procs && c in w.procs && a != b && b != c && a != c
    requires Owns(w, a) && w.procs[b].host == w.procs[a].host
    requires w.procs[a].alive && w.procs[b].alive && w.procs[c].alive
    requires w.procs[a].pc == Idle && w.procs[b].pc == Idle && w.procs[c].pc == Idle
    ensures var steps := [Read(b, false), CheckOwn(a), Release(a), Die(a), Create(c)] + [Probe(b), Zap(b), Create(b)];
            && Possible(w, steps) && NoOwnerEnds(w, steps)
            && var w' := After(w, steps);
               && b in w'.procs && w'.procs[b].alive && w'.procs[b].believes
               && c in w'.procs && w'.procs[c].alive && w'.procs[c].believes
  {
    hide WellFormed, After, Possible, Format, NoOwnerEnds, Signals, Names;
    Overtake(w, a, b, c);
    NobodyAnswers(w, a, b, c);
    CanCreate(w, b);
    var first, last := [Read(b, false), CheckOwn(a), Release(a), Die(a), Create(c)], [Probe(b), Zap(b), Create(b)];
    var w5 := Overtaken(w, a, b, c);
    var w6 := Next(w5, Probe(b));
    ZapAndCreate(w6, b);
    Prepend(w5, Probe(b), [Zap(b), Create(b)]);
    assert [Probe(b)] + [Zap(b), Create(b)] == last;
    Join(w, first, last);
    NobodyEnds(w5, last);
    JoinCalm(w, first, last);
  }

  lemma {:induction false} NobodyEnds(w: World, steps: seq<Step>)
    requires Possible(w, steps) && forall i :: 0 <= i < |steps| ==> !steps[i].Die? && !steps[i].Reboot?
    ensures NoOwnerEnds(w, steps)
    decreases |steps|
  {
    hide Next, Enabled;
    if steps != [] {
      NobodyEnds(Next(w, steps[0]), steps[1..]);
    }
  }

  lemma {:induction false} JoinCalm(w: World, first: seq<Step>, second: seq<Step>)
    requires Possible(w, first) && NoOwnerEnds(w, first)
    requires Possible(After(w, first), second) && NoOwnerEnds(After(w, first), second)
    ensures Possible(w, first + second) && NoOwnerEnds(w, first + second)
    decreases |first|
  {
    hide Enabled, Next, EndsOwner;
    if first == [] {
      assert first + second == second;
    } else {
      JoinCalm(Next(w, first[0]), first[1..], second);
      assert (first + second)[1..] == first[1..] + second;
    }
  }
}
