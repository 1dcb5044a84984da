/** `FileNameLock`: any number of processes on several hosts competing for one lock name. Every system
    call is a step of its own; reading a link and probing its process can also be one step. */
module LockProtocol {
  import opened LockName
  import opened Wrappers

  /** What is at the lock name: nothing, a symbolic link, or something that is no link. */
  datatype Entry = Absent | LinkTo(target: string) | OtherFile

  /** Between reading the link and removing it: the process it names has yet to be probed, it was
      found stale, or found to be one's own. */
  datatype Pc = Idle | MustProbe(pid: int) | MustZap | MustRelease

  /** A process; `believes` once `tryLock` has told it that it holds the lock. */
  datatype Process = Process(user: string, host: string, pid: int, alive: bool, believes: bool, pc: Pc)

  /** All processes ever started, the boot times of the hosts, and the lock name. */
  datatype World = World(procs: map<nat, Process>, boots: map<string, nat>, entry: Entry)

  // ----- looking at the lock -------------------------------------------------------------------------

  /** The window within which two boot times are taken for one. */
  predicate SameBoot(ns: nat, boot: nat) {
    ns != 0 && ns <= boot + SEC_NSECS && boot <= ns + SEC_NSECS
  }

  predicate Runs(p: Process, host: string, pid: int) {
    p.alive && p.host == host && p.pid == pid
  }

  /** `kill(pid, 0)` finds somebody, or refuses because it is somebody else's; process 0 stands for
      the caller's own group. */
  predicate Signals(w: World, host: string, pid: int) {
    pid == 0 || exists q :: q in w.procs && Runs(w.procs[q], host, pid)
  }

  /** What the link alone tells a process; `Ask` if it depends on whether another one lives. */
  datatype Sight = Nobody | Self | Other | Unknown | Stale | Ask(pid: int)

  /** `locker`, up to probing the process named by the link. */
  function Look(w: World, id: nat): Sight
    requires id in w.procs && w.procs[id].host in w.boots
  {
    var p := w.procs[id];
    match w.entry
    case Absent => Nobody
    case OtherFile => Unknown
    case LinkTo(target) =>
      match Parse(target)
      case None => Unknown
      case Some(o) =>
        if o.host != p.host then Other
        else
          var sameBoot := SameBoot(o.ns, w.boots[p.host]);
          if sameBoot && o.pid == p.pid then Self
          else if sameBoot && o.pid >= 0 then Ask(o.pid)
          else Stale
  }

  /** `locker`, up to removing a stale link, if nothing happens between looking and probing. */
  function Judge(w: World, id: nat): (sight: Sight)
    requires id in w.procs && w.procs[id].host in w.boots
    ensures !sight.Ask?
  {
    match Look(w, id)
    case Ask(pid) => if Signals(w, w.procs[id].host, pid) then Other else Stale
    case sight => sight
  }

  /** The link names another host, or a process of this host and boot, other than `id`, that
      answers. */
  predicate HeldByOther(w: World, id: nat)
    requires id in w.procs && w.procs[id].host in w.boots
  {
    && w.entry.LinkTo? && Parse(w.entry.target).Some?
    && var (o, p) := (Parse(w.entry.target).value, w.procs[id]);
       || o.host != p.host
       || (SameBoot(o.ns, w.boots[p.host]) && o.pid >= 0 && o.pid != p.pid && Signals(w, p.host, o.pid))
  }

  /** The link names a process of this host that is gone, or of an earlier boot. */
  predicate HeldByNobody(w: World, id: nat)
    requires id in w.procs && w.procs[id].host in w.boots
  {
    && w.entry.LinkTo? && Parse(w.entry.target).Some?
    && var (o, p) := (Parse(w.entry.target).value, w.procs[id]);
       && o.host == p.host
       && !(SameBoot(o.ns, w.boots[p.host]) && (o.pid == p.pid || (o.pid >= 0 && Signals(w, p.host, o.pid))))
  }

  /** Something that is no link, or a link that is no lock. */
  predicate NoLock(entry: Entry) {
    entry == OtherFile || (entry.LinkTo? && Parse(entry.target) == None)
  }

  /** What a process finds, told from the link and the world. */
  lemma JudgeExactly(w: World, id: nat)
    requires id in w.procs && w.procs[id].host in w.boots
    ensures Judge(w, id) == Other <==> HeldByOther(w, id)
    ensures Judge(w, id) == Stale <==> HeldByNobody(w, id)
    ensures Judge(w, id) == Self <==> Names(w.entry, w.procs[id], w.boots[w.procs[id].host])
    ensures Judge(w, id) == Unknown <==> NoLock(w.entry)
    ensures Judge(w, id) == Nobody <==> w.entry == Absent
  {
    hide Parse, SameBoot, Signals;
  }

  /** Two boot times are one if both are known and at most a second apart. */
  lemma SameBootExactly(ns: nat, boot: nat)
    ensures SameBoot(ns, boot) <==> ns > 0 && -1_000_000_000 <= ns - boot <= 1_000_000_000
  {
  }

  // ----- the steps -----------------------------------------------------------------------------------

  datatype Step =
    | Spawn(id: nat, user: string, host: string, pid: int)
    | Die(id: nat)
    | Reboot(host: string, boot: nat)
    | Create(id: nat)
    | Read(id: nat, giveUp: bool)
    | Probe(id: nat)
    | Inspect(id: nat)
    | CheckOwn(id: nat)
    | Zap(id: nat)
    | Release(id: nat)

  function Identity(p: Process, boot: nat): Owner {
    Owner(p.user, p.host, p.pid, boot)
  }

  predicate GoodBoot(boot: nat) {
    SEC_NSECS <= boot && boot / SEC_NSECS <= ULONG_MAX
  }

  predicate GoodProcess(p: Process) {
    && p.user != "" && '@' !in p.user && p.host != "" && ':' !in p.host
    && 0 < p.pid < 0x8000_0000
  }

  /** What the world around the locks is assumed to do: user and host names the parser can take
      apart, known boot times, no two live processes of a host with one pid, and a reboot that ends
      all processes of the host and moves its boot time on by more than the window. */
  predicate Enabled(w: World, step: Step) {
    match step
    case Spawn(id, user, host, pid) =>
      && id !in w.procs && host in w.boots && GoodProcess(Process(user, host, pid, true, false, Idle))
      && forall q :: q in w.procs ==> !Runs(w.procs[q], host, pid)
    case Die(id) => id in w.procs
    case Reboot(host, boot) => host in w.boots && boot > w.boots[host] + SEC_NSECS && GoodBoot(boot)
    case Create(id) =>
      id in w.procs && w.procs[id].alive && w.procs[id].pc == Idle && w.procs[id].pid >= 0
      && w.procs[id].host in w.boots
    case Read(id, _) => id in w.procs && w.procs[id].alive && w.procs[id].pc == Idle && w.procs[id].host in w.boots
    case Probe(id) => id in w.procs && w.procs[id].alive && w.procs[id].pc.MustProbe?
    case Inspect(id) => id in w.procs && w.procs[id].alive && w.procs[id].pc == Idle && w.procs[id].host in w.boots
    case CheckOwn(id) => id in w.procs && w.procs[id].alive && w.procs[id].pc == Idle && w.procs[id].host in w.boots
    case Zap(id) => id in w.procs && w.procs[id].alive && w.procs[id].pc == MustZap
    case Release(id) => id in w.procs && w.procs[id].alive && w.procs[id].pc == MustRelease
  }

  function With(w: World, id: nat, p: Process): World {
    w.(procs := w.procs[id := p])
  }

  /** What a process does about the link it has seen. In `tryLock` an own link counts as success; in
      `unlock` (`giveUp`) it is to be removed. */
  function Informed(p: Process, sight: Sight, giveUp: bool): Process {
    match sight
    case Self => if giveUp then p.(pc := MustRelease) else p.(believes := true)
    case Stale => p.(pc := MustZap)
    case Ask(pid) => p.(pc := MustProbe(pid))
    case _ => p
  }

  function Next(w: World, step: Step): World
    requires Enabled(w, step)
  {
    match step
    case Spawn(id, user, host, pid) => With(w, id, Process(user, host, pid, true, false, Idle))
    case Die(id) => With(w, id, w.procs[id].(alive := false))
    case Reboot(host, boot) =>
      w.(procs := map id | id in w.procs ::
           if w.procs[id].host == host then w.procs[id].(alive := false) else w.procs[id],
         boots := w.boots[host := boot])
    case Create(id) =>
      // symlink() either makes the link or fails because there is something already
      if w.entry == Absent then
        With(w, id, w.procs[id].(believes := true)).(
          entry := LinkTo(Format(Identity(w.procs[id], w.boots[w.procs[id].host]))))
      else w
    case Read(id, giveUp) => With(w, id, Informed(w.procs[id], Look(w, id), giveUp))
    case Probe(id) =>
      var p := w.procs[id];
      With(w, id, p.(pc := if Signals(w, p.host, p.pc.pid) then Idle else MustZap))
    case Inspect(id) => With(w, id, Informed(w.procs[id], Judge(w, id), false))
    case CheckOwn(id) => With(w, id, Informed(w.procs[id], Judge(w, id), true))
    case Zap(id) => With(w, id, w.procs[id].(pc := Idle)).(entry := Absent)
    case Release(id) => With(w, id, w.procs[id].(pc := Idle, believes := false)).(entry := Absent)
  }

  // ----- safety --------------------------------------------------------------------------------------

  ghost predicate WellFormed(w: World) {
    && (forall id :: id in w.procs ==> GoodProcess(w.procs[id]) && w.procs[id].host in w.boots)
    && (forall host :: host in w.boots ==> GoodBoot(w.boots[host]))
    && (forall p, q :: p in w.procs && q in w.procs && p != q && w.procs[p].alive ==>
          !Runs(w.procs[q], w.procs[p].host, w.procs[p].pid))
  }

  /** The link says that this process has the lock. */
  predicate Names(entry: Entry, p: Process, boot: nat) {
    entry.LinkTo? && Parse(entry.target).Some?
    && var o := Parse(entry.target).value;
       o.host == p.host && o.pid == p.pid && SameBoot(o.ns, boot)
  }

  /** Relies on the lock: believes to have it, or is about to give it up. */
  predicate Relies(p: Process) {
    p.alive && (p.believes || p.pc == MustRelease)
  }

  /** Every process that relies on the lock is named by the link. */
  ghost predicate Safe(w: World) {
    WellFormed(w) && forall id :: id in w.procs && Relies(w.procs[id]) ==>
      Names(w.entry, w.procs[id], w.boots[w.procs[id].host])
  }

  /** So no two live processes believe to have the lock. */
  lemma AtMostOneOwner(w: World, p: nat, q: nat)
    requires Safe(w) && p in w.procs && q in w.procs
    requires w.procs[p].alive && w.procs[p].believes && w.procs[q].alive && w.procs[q].believes
    ensures p == q
  {
    hide Parse, SameBoot, GoodProcess, GoodBoot;
    assert Relies(w.procs[p]) && Relies(w.procs[q]);
    assert Names(w.entry, w.procs[p], w.boots[w.procs[p].host]);
    assert Names(w.entry, w.procs[q], w.boots[w.procs[q].host]);
    assert Runs(w.procs[q], w.procs[p].host, w.procs[p].pid);
  }

  /** A stale link is removed in time if it still is stale then; inspecting and removing it in one
      step is a special case. */
  ghost predicate Timely(w: World, step: Step) {
    step.Zap? && step.id in w.procs && w.procs[step.id].host in w.boots ==>
      w.entry == Absent || Judge(w, step.id) == Stale
  }

  // ----- one step ------------------------------------------------------------------------------------

  /** What a process prints names it. */
  lemma OwnLinkNames(p: Process, boot: nat)
    requires GoodProcess(p) && GoodBoot(boot)
    ensures Names(LinkTo(Format(Identity(p, boot))), p, boot)
  {
    hide Parse, Format;
    ParseOfFormat(Identity(p, boot));
    WholeSecondsNear(boot);
  }

  /** What a process prints tells who it is and when its host was booted. */
  lemma OwnLinkTells(p: Process, boot: nat)
    requires GoodProcess(p) && GoodBoot(boot)
    ensures Parse(Format(Identity(p, boot))) == Some(Owner(p.user, p.host, p.pid, boot / 1_000_000_000 * 1_000_000_000))
  {
    hide Parse, Format;
    ParseOfFormat(Identity(p, boot));
  }

  lemma WholeSecondsNear(boot: nat)
    requires GoodBoot(boot)
    ensures SameBoot(boot / SEC_NSECS * SEC_NSECS, boot)
  {
  }

  /** Changing one process, but not who it is, and nothing about the link. */
  predicate SameIdentity(p: Process, p': Process) {
    p' == p.(alive := p'.alive, believes := p'.believes, pc := p'.pc) && (p'.alive ==> p.alive)
  }

  lemma WithKeepsWellFormed(w: World, id: nat, p: Process)
    requires WellFormed(w) && id in w.procs && SameIdentity(w.procs[id], p)
    ensures WellFormed(With(w, id, p))
  {
    hide GoodBoot;
    var w' := With(w, id, p);
    forall q, r | q in w'.procs && r in w'.procs && q != r && w'.procs[q].alive
      ensures !Runs(w'.procs[r], w'.procs[q].host, w'.procs[q].pid)
    {
      assert !Runs(w.procs[r], w.procs[q].host, w.procs[q].pid);
    }
  }

  lemma SpawnKeepsSafe(w: World, step: Step)
    requires Safe(w) && Enabled(w, step) && step.Spawn?
    ensures Safe(Next(w, step))
  {
    hide Parse, SameBoot, GoodBoot;
    var Spawn(id, user, host, pid) := step;
    var w' := Next(w, step);
    forall q, r | q in w'.procs && r in w'.procs && q != r && w'.procs[q].alive
      ensures !Runs(w'.procs[r], w'.procs[q].host, w'.procs[q].pid)
    {
      if q == id {
        assert !Runs(w.procs[r], host, pid);
      } else if r == id {
        assert !Runs(w.procs[q], host, pid);
      } else {
        assert !Runs(w.procs[r], w.procs[q].host, w.procs[q].pid);
      }
    }
  }

  lemma RebootKeepsSafe(w: World, step: Step)
    requires Safe(w) && Enabled(w, step) && step.Reboot?
    ensures Safe(Next(w, step))
  {
    hide Parse, SameBoot, GoodBoot;
    var w' := Next(w, step);
    forall q, r | q in w'.procs && r in w'.procs && q != r && w'.procs[q].alive
      ensures !Runs(w'.procs[r], w'.procs[q].host, w'.procs[q].pid)
    {
      assert !Runs(w.procs[r], w.procs[q].host, w.procs[q].pid);
    }
    forall id | id in w'.procs && Relies(w'.procs[id])
      ensures Names(w'.entry, w'.procs[id], w'.boots[w'.procs[id].host])
    {
      assert Relies(w.procs[id]);
    }
  }

  lemma CreateKeepsSafe(w: World, step: Step)
    requires Safe(w) && Enabled(w, step) && step.Create?
    ensures Safe(Next(w, step))
  {
    hide Parse, SameBoot, GoodBoot, GoodProcess, Format;
    if w.entry == Absent {
      var id := step.id;
      var p := w.procs[id];
      OwnLinkNames(p, w.boots[p.host]);
      WithKeepsWellFormed(w, id, p.(believes := true));
      var w' := Next(w, step);
      forall q | q in w'.procs && Relies(w'.procs[q])
        ensures Names(w'.entry, w'.procs[q], w'.boots[w'.procs[q].host])
      {
        if q != id {
          AbsentNamesNobody(w.procs[q], w.boots[w.procs[q].host]);
        }
      }
    }
  }

  /** A reboot ends the processes of its host, and of no other, and moves its boot time on. */
  lemma RebootExactly(w: World, host: string, boot: nat)
    requires Enabled(w, Reboot(host, boot))
    ensures var w' := Next(w, Reboot(host, boot));
            && w'.entry == w.entry && w'.boots == w.boots[host := boot] && w'.procs.Keys == w.procs.Keys
            && !SameBoot(w.boots[host], boot)
            && forall id :: id in w.procs ==>
                 w'.procs[id] == if w.procs[id].host == host then w.procs[id].(alive := false) else w.procs[id]
  {
  }

  /** Looking at the link makes a process rely on it only if it names the process. */
  lemma LookKeepsSafe(w: World, step: Step)
    requires Safe(w) && Enabled(w, step) && (step.Read? || step.Probe? || step.Inspect? || step.CheckOwn?)
    ensures Safe(Next(w, step))
  {
    hide Parse, SameBoot, GoodBoot, GoodProcess, Signals, Names;
    var id, w' := step.id, Next(w, step);
    WithKeepsWellFormed(w, id, w'.procs[id]);
    SelfIsNamed(w, id);
    forall q | q in w'.procs && Relies(w'.procs[q])
      ensures Names(w'.entry, w'.procs[q], w'.boots[w'.procs[q].host])
    {
      NamesIdentity(w.entry, w.procs[q], w'.procs[q], w.boots[w.procs[q].host]);
      if Relies(w.procs[q]) {
        assert Names(w.entry, w.procs[q], w.boots[w.procs[q].host]);
      }
    }
  }

  lemma SelfIsNamed(w: World, id: nat)
    requires WellFormed(w) && id in w.procs
    ensures Look(w, id) == Self ==> Names(w.entry, w.procs[id], w.boots[w.procs[id].host])
  {
    hide Parse, SameBoot, GoodBoot, GoodProcess;
  }

  lemma NamesIdentity(entry: Entry, p: Process, p': Process, boot: nat)
    requires p'.host == p.host && p'.pid == p.pid
    ensures Names(entry, p', boot) == Names(entry, p, boot)
  {
  }

  lemma LiveIsSignalled(w: World, q: nat)
    requires q in w.procs && w.procs[q].alive
    ensures Signals(w, w.procs[q].host, w.procs[q].pid)
  {
    assert Runs(w.procs[q], w.procs[q].host, w.procs[q].pid);
  }

  /** A link that somebody finds stale names no live process. */
  lemma StaleNamesNobody(w: World, id: nat, q: nat)
    requires WellFormed(w) && id in w.procs && Judge(w, id) == Stale && q in w.procs && w.procs[q].alive
    ensures !Names(w.entry, w.procs[q], w.boots[w.procs[q].host])
  {
    hide Parse, SameBoot, GoodBoot, Signals;
    LiveIsSignalled(w, q);
  }

  lemma AllReleasingNamed(w: World)
    requires Safe(w)
    ensures forall id :: id in w.procs && w.procs[id].alive && w.procs[id].pc == MustRelease ==>
              Names(w.entry, w.procs[id], w.boots[w.procs[id].host])
  {
    hide Parse, SameBoot, GoodBoot, GoodProcess;
    assert forall id :: id in w.procs && w.procs[id].alive && w.procs[id].pc == MustRelease ==> Relies(w.procs[id]);
  }

  lemma ZapKeepsSafe(w: World, step: Step)
    requires Safe(w) && Enabled(w, step) && step.Zap? && Timely(w, step)
    ensures Safe(Next(w, step))
  {
    hide Parse, SameBoot, GoodBoot, GoodProcess, Judge, Names;
    var id, w' := step.id, Next(w, step);
    WithKeepsWellFormed(w, id, w.procs[id].(pc := Idle));
    forall q | q in w'.procs
      ensures !Relies(w'.procs[q])
    {
      if Relies(w'.procs[q]) {
        assert Relies(w.procs[q]);
        if w.entry == Absent {
          AbsentNamesNobody(w.procs[q], w.boots[w.procs[q].host]);
        } else {
          StaleNamesNobody(w, id, q);
        }
      }
    }
  }

  lemma AbsentNamesNobody(p: Process, boot: nat)
    ensures !Names(Absent, p, boot) && !Names(OtherFile, p, boot)
  {
  }

  lemma NamesOnlyOne(w: World, p: nat, q: nat)
    requires WellFormed(w) && p in w.procs && q in w.procs && w.procs[p].alive && w.procs[q].alive
    requires Names(w.entry, w.procs[p], w.boots[w.procs[p].host])
    requires Names(w.entry, w.procs[q], w.boots[w.procs[q].host])
    ensures p == q
  {
    hide Parse, SameBoot, GoodBoot, GoodProcess;
    assert Runs(w.procs[q], w.procs[p].host, w.procs[p].pid);
  }

  lemma ReleaseKeepsSafe(w: World, step: Step)
    requires Safe(w) && Enabled(w, step) && step.Release?
    ensures Safe(Next(w, step))
  {
    hide Parse, SameBoot, GoodBoot, GoodProcess, Names;
    var id, w' := step.id, Next(w, step);
    WithKeepsWellFormed(w, id, w.procs[id].(pc := Idle, believes := false));
    assert Relies(w.procs[id]);
    forall q | q in w'.procs
      ensures !Relies(w'.procs[q])
    {
      if Relies(w'.procs[q]) {
        assert Relies(w.procs[q]);
        NamesOnlyOne(w, id, q);
      }
    }
  }

  /** Every step keeps the lock safe, provided stale links are removed in time. */
  lemma StepKeepsSafe(w: World, step: Step)
    requires Safe(w) && Enabled(w, step) && Timely(w, step)
    ensures Safe(Next(w, step))
  {
    match step
    case Spawn(_, _, _, _) => SpawnKeepsSafe(w, step);
    case Die(id) =>
      hide Parse, SameBoot, GoodBoot, GoodProcess;
      WithKeepsWellFormed(w, id, w.procs[id].(alive := false));
    case Reboot(_, _) => RebootKeepsSafe(w, step);
    case Create(_) => CreateKeepsSafe(w, step);
    case Read(_, _) => LookKeepsSafe(w, step);
    case Probe(_) => LookKeepsSafe(w, step);
    case Inspect(_) => LookKeepsSafe(w, step);
    case CheckOwn(_) => LookKeepsSafe(w, step);
    case Zap(_) => ZapKeepsSafe(w, step);
    case Release(_) => ReleaseKeepsSafe(w, step);
  }

  // ----- whole runs ----------------------------------------------------------------------------------

  ghost predicate Possible(w: World, steps: seq<Step>)
    decreases |steps|
  {
    steps == [] || (Enabled(w, steps[0]) && Possible(Next(w, steps[0]), steps[1..]))
  }

  ghost function After(w: World, steps: seq<Step>): World
    requires Possible(w, steps)
    decreases |steps|
  {
    if steps == [] then w else After(Next(w, steps[0]), steps[1..])
  }

  ghost predicate AllTimely(w: World, steps: seq<Step>)
    requires Possible(w, steps)
    decreases |steps|
  {
    steps == [] || (Timely(w, steps[0]) && AllTimely(Next(w, steps[0]), steps[1..]))
  }

  /** Over every interleaving of any number of processes on any number of hosts, with deaths and
      reboots, the lock stays safe if stale links are removed in time. */
  lemma {:induction false} RunStaysSafe(w: World, steps: seq<Step>)
    requires Safe(w) && Possible(w, steps) && AllTimely(w, steps)
    ensures Safe(After(w, steps))
    decreases |steps|
  {
    hide Safe, Next, Enabled, Timely;
    if steps != [] {
      StepKeepsSafe(w, steps[0]);
      RunStaysSafe(Next(w, steps[0]), steps[1..]);
    }
  }

  /** Nothing but a process of the host it names ever removes or replaces a lock. */
  lemma ForeignLockStays(w: World, step: Step)
    requires Safe(w) && Enabled(w, step) && Timely(w, step)
    requires w.entry.LinkTo? && Next(w, step).entry != w.entry
    ensures step.Zap? || step.Release?
    ensures step.id in w.procs && Parse(w.entry.target).Some?
    ensures Parse(w.entry.target).value.host == w.procs[step.id].host
  {
    hide Parse, SameBoot, GoodBoot, GoodProcess, Signals;
    AllReleasingNamed(w);
  }

  /** A foreign thing at the lock name stays: it can only be taken for no lock at all. */
  lemma NoLockStays(w: World, step: Step)
    requires Safe(w) && Enabled(w, step) && Timely(w, step)
    requires w.entry == OtherFile || (w.entry.LinkTo? && Parse(w.entry.target) == None)
    ensures Next(w, step).entry == w.entry
  {
    hide Parse, SameBoot, GoodBoot, GoodProcess, Signals;
    AllReleasingNamed(w);
  }

  // ----- what is stale ---------------------------------------------------------------------------------

  lemma WrittenLink(o: Owner, boot: nat)
    requires Printable(o) && GoodBoot(o.ns) && (boot == o.ns || boot > o.ns + SEC_NSECS)
    ensures Parse(Format(o)) == Some(WholeSeconds(o))
    ensures SameBoot(WholeSeconds(o).ns, boot) <==> boot == o.ns
  {
    hide Parse, Format;
    ParseOfFormat(o);
    WholeSecondsNear(o.ns);
  }

  /** A live process finds a link stale exactly if the process that made it was on this host, and
      the host was rebooted since or runs no process with that pid. */
  lemma StaleExactly(w: World, maker: Process, boot: nat, id: nat)
    requires WellFormed(w) && GoodProcess(maker) && GoodBoot(boot) && id in w.procs && w.procs[id].alive
    requires w.entry == LinkTo(Format(Identity(maker, boot)))
    requires maker.host == w.procs[id].host ==>
               w.boots[maker.host] == boot || w.boots[maker.host] > boot + SEC_NSECS
    ensures Judge(w, id) == Stale <==>
            maker.host == w.procs[id].host
            && (w.boots[maker.host] != boot || forall q :: q in w.procs ==> !Runs(w.procs[q], maker.host, maker.pid))
  {
    hide Parse, Format, SameBoot, WholeSeconds;
    var o := Identity(maker, boot);
    if maker.host == w.procs[id].host {
      WrittenLink(o, w.boots[maker.host]);
      LiveIsSignalled(w, id);
    } else {
      WrittenLink(o, boot);
    }
    WholeKeepsNames(o);
  }

  lemma WholeKeepsNames(o: Owner)
    ensures WholeSeconds(o).user == o.user && WholeSeconds(o).host == o.host && WholeSeconds(o).pid == o.pid
  {
  }

  lemma JudgeSeesIdentities(w: World, w': World, id: nat)
    requires WellFormed(w) && id in w.procs && w'.boots == w.boots && w'.entry == w.entry
    requires w'.procs.Keys == w.procs.Keys
    requires forall q :: q in w.procs ==>
               w'.procs[q] == w.procs[q].(believes := w'.procs[q].believes, pc := w'.procs[q].pc)
    ensures Judge(w', id) == Judge(w, id)
  {
    hide Parse, SameBoot, GoodBoot, GoodProcess;
    forall host, pid
      ensures Signals(w', host, pid) == Signals(w, host, pid)
    {
      if q :| q in w.procs && Runs(w.procs[q], host, pid) {
        assert Runs(w'.procs[q], host, pid);
      }
      if q :| q in w'.procs && Runs(w'.procs[q], host, pid) {
        assert Runs(w.procs[q], host, pid);
      }
    }
  }
}
