/** What every run of the boot plan guarantees, whichever steps fail. */
module BootSafety {
  import opened Wrappers
  import opened Text
  import opened Partition
  import opened Cmdline
  import opened BootPlan
  import opened BootRun
  import Device
  import MountOptions

  /** A mount point is a directory. */
  ghost predicate Wf(m: Machine) {
    forall p :: Up(m, p) ==> m.dirs(p)
  }

  /** Nothing is mounted below. */
  ghost predicate NoneBelow(m: Machine, top: Path) {
    forall p :: Under(top, p) ==> !Up(m, p)
  }

  // ----- What the answers can be -----

  /** The node of a partition with this label, on the booted disk when that is known. */
  ghost predicate Labelled(booted: Option<string>, name: string, device: string) {
    exists p: Device.Partition ::
      && p.partname == name
      && device == "/dev/" + p.devname
      && (booted.Some? ==> Device.DiskOf(p.devname) == booted.value)
  }

  /** A label resolves to a partition that carries it. */
  ghost predicate Answers(booted: Option<string>, source: string, device: string) {
    if IsLabel(source) then Labelled(booted, source[|BY_PARTLABEL|..], device) else device == source
  }

  ghost predicate LegalAt(step: Step, o: Outcome, booted: Option<string>) {
    match step
    case SetupVerity(data, hash, _, _) =>
      && (Resolved(data, o.first).Some? ==> Answers(booted, data, Resolved(data, o.first).value))
      && (Resolved(hash, o.second).Some? ==> Answers(booted, hash, Resolved(hash, o.second).value))
    case Mount(source, _, _, _) =>
      Resolved(source, o.first).Some? ==> Answers(booted, source, Resolved(source, o.first).value)
    case _ => true
  }

  ghost predicate Legal(steps: seq<Step>, outcomes: nat -> Outcome, booted: Option<string>, at: nat) {
    forall i :: 0 <= i < |steps| ==> LegalAt(steps[i], outcomes(at + i), booted)
  }

  lemma LegalSplit(a: seq<Step>, b: seq<Step>, outcomes: nat -> Outcome, booted: Option<string>, at: nat)
    requires Legal(a + b, outcomes, booted, at)
    ensures Legal(a, outcomes, booted, at) && Legal(b, outcomes, booted, at + |a|)
  {
    forall i | 0 <= i < |a|
      ensures LegalAt(a[i], outcomes(at + i), booted)
    {
      assert (a + b)[i] == a[i];
    }
    forall i | 0 <= i < |b|
      ensures LegalAt(b[i], outcomes(at + |a| + i), booted)
    {
      assert (a + b)[|a| + i] == b[i];
    }
  }

  /** What the wait for a label gives is such an answer. */
  lemma FoundIsAnAnswer(scan: Device.Scan, booted: Option<string>, source: string, device: string)
    requires IsLabel(source) && Device.Find(scan, booted, source[|BY_PARTLABEL|..]) == Some(device)
    ensures Answers(booted, source, device)
  {
    Device.FindFinds(scan, booted, source[|BY_PARTLABEL|..]);
  }

  // ----- What a step leaves alone -----

  /** The step changes what is mounted at `p`. */
  predicate Touches(step: Step, p: Path) {
    match step
    case MountPseudo(_, target, _) => target <= p
    case Mount(_, target, _, _) => target <= p
    case MountOverlay(_, _, _, target) => target <= p
    case MoveMount(origin, target) => origin <= p || target <= p
    case _ => false
  }

  /** The step might put a mount below `p`. */
  predicate Reaches(step: Step, p: Path) {
    match step
    case MountPseudo(_, target, _) => p <= target
    case Mount(_, target, _, _) => p <= target
    case MountOverlay(_, _, _, target) => p <= target
    case MoveMount(_, target) => p <= target
    case _ => false
  }

  predicate AllSpare(steps: seq<Step>, p: Path) {
    forall i :: 0 <= i < |steps| ==> !Touches(steps[i], p)
  }

  predicate AllAvoid(steps: seq<Step>, p: Path) {
    forall i :: 0 <= i < |steps| ==> !Touches(steps[i], p) && !Reaches(steps[i], p)
  }

  predicate NoVerity(steps: seq<Step>) {
    forall i :: 0 <= i < |steps| ==> !steps[i].SetupVerity?
  }

  /** The step makes a link there. */
  predicate Relinks(step: Step, p: Path) {
    step.Symlink? && step.link == p
  }

  predicate NoRelinks(steps: seq<Step>, p: Path) {
    forall i :: 0 <= i < |steps| ==> !Relinks(steps[i], p)
  }

  lemma StepSpares(step: Step, m: Machine, o: Outcome, p: Path)
    requires !Touches(step, p)
    ensures After(step, m, o).0.mounts(p) == m.mounts(p)
    ensures m.dirs(p) ==> After(step, m, o).0.dirs(p)
    ensures !Relinks(step, p) ==> After(step, m, o).0.links(p) == m.links(p)
  {
    match step {
      case MountPseudo(_, target, _) => assert !Under(target, p);
      case Mount(_, target, _, _) => assert !Under(target, p);
      case MountOverlay(_, _, _, target) => assert !Under(target, p);
      case MoveMount(origin, target) => assert !Under(origin, p) && !Under(target, p);
      case _ =>
    }
  }

  lemma PrefixOfBoth(a: Path, b: Path, c: Path)
    requires a <= c && b <= c
    ensures a <= b || b <= a
  {
    if |a| <= |b| {
      assert b[..|a|] == c[..|a|];
    } else {
      assert a[..|b|] == c[..|b|];
    }
  }

  lemma Incomparable(target: Path, top: Path, p: Path)
    requires !(target <= top) && !(top <= target) && Under(top, p)
    ensures !(target <= p)
  {
    if target <= p { PrefixOfBoth(target, top, p); }
  }

  lemma StepAvoids(step: Step, m: Machine, o: Outcome, top: Path)
    requires !Touches(step, top) && !Reaches(step, top) && NoneBelow(m, top)
    ensures NoneBelow(After(step, m, o).0, top)
  {
    forall p | Under(top, p)
      ensures !Up(After(step, m, o).0, p)
    {
      assert !Up(m, p);
      match step {
        case MountPseudo(_, target, _) => Incomparable(target, top, p);
        case Mount(_, target, _, _) => Incomparable(target, top, p);
        case MountOverlay(_, _, _, target) => Incomparable(target, top, p);
        case MoveMount(_, target) => Incomparable(target, top, p);
        case _ =>
      }
    }
  }

  lemma {:induction false} RunSpares(steps: seq<Step>, m: Machine, outcomes: nat -> Outcome, at: nat, p: Path)
    requires AllSpare(steps, p)
    ensures RunFrom(steps, m, outcomes, at).machine.mounts(p) == m.mounts(p)
    ensures m.dirs(p) ==> RunFrom(steps, m, outcomes, at).machine.dirs(p)
    ensures NoRelinks(steps, p) ==> RunFrom(steps, m, outcomes, at).machine.links(p) == m.links(p)
    decreases |steps|
  {
    if steps != [] {
      StepSpares(steps[0], m, outcomes(at), p);
      var (next, ok) := After(steps[0], m, outcomes(at));
      if ok { RunSpares(steps[1..], next, outcomes, at + 1, p); }
    }
  }

  lemma {:induction false} RunAvoids(steps: seq<Step>, m: Machine, outcomes: nat -> Outcome, at: nat, top: Path)
    requires AllAvoid(steps, top) && NoneBelow(m, top)
    ensures NoneBelow(RunFrom(steps, m, outcomes, at).machine, top)
    decreases |steps|
  {
    if steps != [] {
      StepAvoids(steps[0], m, outcomes(at), top);
      var (next, ok) := After(steps[0], m, outcomes(at));
      if ok { RunAvoids(steps[1..], next, outcomes, at + 1, top); }
    }
  }

  lemma {:induction false} RunKeepsMapper(steps: seq<Step>, m: Machine, outcomes: nat -> Outcome, at: nat)
    requires NoVerity(steps)
    ensures RunFrom(steps, m, outcomes, at).machine.mapper == m.mapper
    decreases |steps|
  {
    if steps != [] {
      var (next, ok) := After(steps[0], m, outcomes(at));
      assert next.mapper == m.mapper;
      if ok { RunKeepsMapper(steps[1..], next, outcomes, at + 1); }
    }
  }

  predicate NoPseudo(steps: seq<Step>) {
    forall i :: 0 <= i < |steps| ==> !steps[i].MountPseudo?
  }

  predicate NoSwitch(steps: seq<Step>) {
    forall i :: 0 <= i < |steps| ==> !steps[i].SwitchRoot?
  }

  /** What was found at the start is only noted while the kernel's file systems are mounted. */
  lemma {:induction false} RunKeepsNotes(steps: seq<Step>, m: Machine, outcomes: nat -> Outcome, at: nat)
    requires NoPseudo(steps)
    ensures RunFrom(steps, m, outcomes, at).machine.found == m.found
    ensures RunFrom(steps, m, outcomes, at).machine.foreign == m.foreign
    decreases |steps|
  {
    if steps != [] {
      var (next, ok) := After(steps[0], m, outcomes(at));
      assert next.found == m.found && next.foreign == m.foreign;
      if ok { RunKeepsNotes(steps[1..], next, outcomes, at + 1); }
    }
  }

  lemma {:induction false} RunKeepsSwitched(steps: seq<Step>, m: Machine, outcomes: nat -> Outcome, at: nat)
    requires NoSwitch(steps)
    ensures RunFrom(steps, m, outcomes, at).machine.switched == m.switched
    decreases |steps|
  {
    if steps != [] {
      var (next, ok) := After(steps[0], m, outcomes(at));
      assert next.switched == m.switched;
      if ok { RunKeepsSwitched(steps[1..], next, outcomes, at + 1); }
    }
  }

  // ----- Nothing is done blindly -----

  /** What a step acts on is there. */
  predicate Grounded(step: Step, m: Machine) {
    match step
    case Symlink(_, link) => link == [] || m.dirs(link[..|link| - 1])
    case SetupVerity(data, hash, _, _) =>
      m.foreign || (Carries(m, [Dev], "devtmpfs") && SourceThere(m, data) && SourceThere(m, hash))
    case Mount(source, target, _, _) => m.dirs(target) && (m.foreign || SourceThere(m, source))
    case RaiseClock(osRelease) => OnVerified(m, osRelease)
    case MountOverlay(_, upper, work, _) => m.dirs(upper) && m.dirs(work)
    case ApplyState(action) => action.Initialise? ==> Up(m, VAR)
    case MoveMount(origin, target) => Up(m, origin) && !(origin <= target)
    case SwitchRoot(newRoot, _) => Up(m, newRoot)
    case _ => true
  }

  /** Sound: well-formed and nothing done blindly so far, unless another file system was found where
      one of the kernel's belongs. */
  ghost predicate Sound(m: Machine) {
    Wf(m) && (m.blind ==> m.foreign)
  }

  lemma MadeIsSound(m: Machine, p: Path)
    requires Sound(m)
    ensures Sound(Made(m, p)) && Made(m, p).dirs(p)
  {
    assert p <= p;
  }

  lemma MountedIsSound(m: Machine, p: Path, what: Mounted)
    requires Sound(m) && m.dirs(p)
    ensures Sound(MountedAt(m, p, what))
  {
    var next := MountedAt(m, p, what);
    forall q | Up(next, q)
      ensures next.dirs(q)
    {
      assert q != p ==> Up(m, q);
      assert !Under(p, p);
    }
  }

  lemma MovedIsSound(m: Machine, origin: Path, target: Path)
    requires Sound(m) && Up(m, origin) && m.dirs(target) && !(origin <= target)
    ensures Sound(MovedTo(m, origin, target))
  {
    var next := MovedTo(m, origin, target);
    forall q | Up(next, q)
      ensures next.dirs(q)
    {
      if target <= q {
        assert Up(m, origin + q[|target|..]);
        if !Under(target, q) {
          assert q == target;
          assert next.dirs(target);
        }
      } else {
        assert Up(m, q) && !Under(origin, q) && !Under(target, q);
      }
    }
  }

  lemma GroundedStep(step: Step, m: Machine, o: Outcome)
    requires Sound(m) && Grounded(step, m)
    ensures Sound(After(step, m, o).0)
  {
    match step {
      case MountPseudo(fstype, target, options) =>
        MadeIsSound(m, target);
        MountedIsSound(Made(m, target), target, Plain(fstype, fstype, options, None));
      case CreateDir(path) =>
        MadeIsSound(m, path);
      case Mount(source, target, fstype, options) =>
        if Resolved(source, o.first).Some? {
          MountedIsSound(LookedUp(m, source), target,
                         PlainMount(m, source, Resolved(source, o.first).value, fstype, options));
        }
      case MountOverlay(lower, upper, work, target) =>
        MadeIsSound(m, target);
        MountedIsSound(Blinded(Made(m, target), false), target, OverlayMount(m, lower, upper, work));
      case ApplyState(_) =>
        MadeIsSound(m, PLEXOS_STATE);
      case MoveMount(origin, target) =>
        MadeIsSound(m, target);
        MovedIsSound(Made(m, target), origin, target);
      case _ =>
    }
  }

  // ----- The parts of the plan -----

  /** At `at` stands the file system that belongs on the kernel's mount point `p`, made with these
      options or found on `p` at the start. */
  predicate KernelAt(m: Machine, at: Path, p: Path, fstype: string, options: string) {
    && m.mounts(at).Some?
    && (p in m.found || m.mounts(at) == Some(Plain(fstype, fstype, options, None)))
    && (m.foreign || Carries(m, at, fstype))
  }

  predicate KernelStep(m: Machine, step: Step)
    requires step.MountPseudo?
  {
    KernelAt(m, step.target, step.target, step.fstype, step.options)
  }

  lemma {:induction false} PseudoKeeps(steps: seq<Step>, m: Machine, outcomes: nat -> Outcome, at: nat, step: Step)
    requires step.MountPseudo? && KernelStep(m, step)
    requires forall i :: 0 <= i < |steps| ==> steps[i].MountPseudo? && !Under(steps[i].target, step.target)
    ensures KernelStep(RunFrom(steps, m, outcomes, at).machine, step)
    decreases |steps|
  {
    if steps != [] {
      var (next, ok) := After(steps[0], m, outcomes(at));
      assert next.mounts(step.target) == m.mounts(step.target);
      assert KernelStep(next, step);
      if ok { PseudoKeeps(steps[1..], next, outcomes, at + 1, step); }
    }
  }

  /** The kernel's file systems: each stands in the end, whether it was mounted before or not. */
  lemma {:induction false} PseudoRun(steps: seq<Step>, m: Machine, outcomes: nat -> Outcome, at: nat)
    requires Sound(m)
    requires forall i :: 0 <= i < |steps| ==> steps[i].MountPseudo?
    requires forall i, j :: 0 <= i < j < |steps| ==> !Under(steps[j].target, steps[i].target)
    ensures Sound(RunFrom(steps, m, outcomes, at).machine)
    ensures RunFrom(steps, m, outcomes, at).Through? ==>
              forall i :: 0 <= i < |steps| ==> KernelStep(RunFrom(steps, m, outcomes, at).machine, steps[i])
    decreases |steps|
  {
    if steps != [] {
      GroundedStep(steps[0], m, outcomes(at));
      var (next, ok) := After(steps[0], m, outcomes(at));
      if ok {
        PseudoRun(steps[1..], next, outcomes, at + 1);
        PseudoStands(steps[0], m, outcomes(at));
        PseudoKeeps(steps[1..], next, outcomes, at + 1, steps[0]);
      }
    }
  }

  lemma PseudoStands(step: Step, m: Machine, o: Outcome)
    requires step.MountPseudo? && After(step, m, o).1
    ensures KernelStep(After(step, m, o).0, step)
  {
  }

  /** What is noted as found was there at the start; and only what was there can be foreign. */
  lemma {:induction false} PseudoNotes(steps: seq<Step>, m: Machine, outcomes: nat -> Outcome, at: nat)
    requires forall i :: 0 <= i < |steps| ==> steps[i].MountPseudo?
    requires forall i, j :: 0 <= i < j < |steps| ==> steps[i].target != steps[j].target
    ensures var r := RunFrom(steps, m, outcomes, at);
            && (forall p :: p in r.machine.found ==>
                  p in m.found || exists i :: 0 <= i < |steps| && p == steps[i].target && Up(m, p))
            && (r.machine.foreign ==> m.foreign || exists i :: 0 <= i < |steps| && FoundForeign(m, steps[i]))
    decreases |steps|
  {
    if steps != [] {
      var (next, ok) := After(steps[0], m, outcomes(at));
      if ok {
        PseudoNotes(steps[1..], next, outcomes, at + 1);
        var r := RunFrom(steps, m, outcomes, at);
        forall p | p in r.machine.found && p !in m.found
          ensures exists i :: 0 <= i < |steps| && p == steps[i].target && Up(m, p)
        {
          if p in next.found {
            assert p == steps[0].target;
          } else {
            var i :| 0 <= i < |steps[1..]| && p == steps[1..][i].target && Up(next, p);
            assert p == steps[i + 1].target && steps[0].target != steps[i + 1].target;
          }
        }
        if r.machine.foreign && !m.foreign && !FoundForeign(m, steps[0]) {
          var i :| 0 <= i < |steps[1..]| && FoundForeign(next, steps[1..][i]);
          assert FoundForeign(m, steps[i + 1]);
        }
      }
    }
  }

  /** Another file system stands where this one is to be mounted. */
  predicate FoundForeign(m: Machine, step: Step)
    requires step.MountPseudo?
  {
    Up(m, step.target) && !Carries(m, step.target, step.fstype)
  }

  lemma RunTwo(a: Step, b: Step, m: Machine, outcomes: nat -> Outcome, at: nat)
    ensures RunFrom([a, b], m, outcomes, at)
         == var (next, ok) := After(a, m, outcomes(at));
            if !ok then Failed(next, at)
            else
              var (last, fine) := After(b, next, outcomes(at + 1));
              if fine then Through(last) else Failed(last, at + 1)
  {
    assert [a, b][1..] == [b] && [b][1..] == [];
    var (next, ok) := After(a, m, outcomes(at));
    assert RunFrom([b], next, outcomes, at + 1)
        == var (last, fine) := After(b, next, outcomes(at + 1)); if fine then Through(last) else Failed(last, at + 1);
  }

  lemma RunOne(a: Step, m: Machine, outcomes: nat -> Outcome, at: nat)
    ensures RunFrom([a], m, outcomes, at)
         == var (next, ok) := After(a, m, outcomes(at));
            if ok then Through(next) else Failed(next, at)
  {
    assert [a][1..] == [];
  }

  /** A directory and the mount on it. */
  lemma MakeAndMountRun(source: string, target: Path, fstype: string, options: string, m: Machine,
                        outcomes: nat -> Outcome, at: nat)
    requires Sound(m) && (m.foreign || SourceThere(m, source))
    ensures var r := RunFrom(MakeAndMount(source, target, fstype, options), m, outcomes, at);
            && Sound(r.machine)
            && (r.Through? ==>
                  && Resolved(source, outcomes(at + 1).first).Some?
                  && r.machine.mounts(target)
                     == Some(PlainMount(m, source, Resolved(source, outcomes(at + 1).first).value, fstype, options))
                  && NoneBelow(r.machine, target))
  {
    var a, b := CreateDir(target), Mount(source, target, fstype, options);
    RunTwo(a, b, m, outcomes, at);
    GroundedStep(a, m, outcomes(at));
    var (next, ok) := After(a, m, outcomes(at));
    if ok {
      assert next.dirs(target) by { assert target <= target; }
      GroundedStep(b, next, outcomes(at + 1));
    }
  }

  lemma MakeAndMountSpares(source: string, target: Path, fstype: string, options: string, p: Path)
    requires !(target <= p)
    ensures AllSpare(MakeAndMount(source, target, fstype, options), p)
  {
  }

  /** The link is there, or something that was there before it. */
  predicate LinkStands(m: Machine, step: Step)
    requires step.Symlink?
  {
    m.links(step.link) == LinkTo(step.to) || m.links(step.link).Taken?
  }

  predicate LinksDiffer(steps: seq<Step>) {
    forall i, j :: 0 <= i < j < |steps| && steps[i].Symlink? && steps[j].Symlink? ==> steps[i].link != steps[j].link
  }

  predicate LinkOrClock(step: Step) {
    step.RaiseClock? || (step.Symlink? && |step.link| == 2 && step.link[0] == Sysroot)
  }

  /** Links and the clock change nothing that is mounted, and every link is there in the end. */
  lemma {:induction false} LinkRun(steps: seq<Step>, m: Machine, outcomes: nat -> Outcome, at: nat)
    requires Sound(m) && Up(m, SYSROOT) && LinksDiffer(steps)
    requires forall i :: 0 <= i < |steps| ==> LinkOrClock(steps[i])
    requires forall i :: 0 <= i < |steps| && steps[i].RaiseClock? ==> OnVerified(m, steps[i].osRelease)
    ensures var r := RunFrom(steps, m, outcomes, at);
            && r.machine.mounts == m.mounts && r.machine.dirs == m.dirs && r.machine.mapper == m.mapper
            && r.machine.found == m.found && r.machine.foreign == m.foreign && r.machine.blind == m.blind
            && (r.Through? ==> forall i :: 0 <= i < |steps| && steps[i].Symlink? ==> LinkStands(r.machine, steps[i]))
    decreases |steps|
  {
    if steps != [] {
      var (next, ok) := After(steps[0], m, outcomes(at));
      if steps[0].Symlink? {
        assert steps[0].link[..1] == SYSROOT;
        assert m.dirs(SYSROOT);
      }
      assert next.mounts == m.mounts && next.dirs == m.dirs && next.mapper == m.mapper;
      assert next.found == m.found && next.foreign == m.foreign && next.blind == m.blind;
      if ok {
        SameMountsSound(m, next);
        forall i | 0 < i < |steps| && steps[i].RaiseClock?
          ensures OnVerified(next, steps[i].osRelease)
        {
          SameHolder(m, next, steps[i].osRelease);
        }
        LinkRun(steps[1..], next, outcomes, at + 1);
        if steps[0].Symlink? {
          assert AllSpare(steps[1..], steps[0].link) && NoRelinks(steps[1..], steps[0].link);
          RunSpares(steps[1..], next, outcomes, at + 1, steps[0].link);
        }
      }
    }
  }

  lemma {:induction false} SameHolder(m: Machine, next: Machine, p: Path)
    requires next.mounts == m.mounts
    ensures Holder(next, p) == Holder(m, p)
    decreases |p|
  {
    if !Up(m, p) && p != [] { SameHolder(m, next, p[..|p| - 1]); }
  }

  /** Below a mount with nothing mounted below it, every path is on that mount. */
  lemma {:induction false} HolderIs(m: Machine, p: Path, top: Path)
    requires Up(m, top) && NoneBelow(m, top) && top <= p
    ensures Holder(m, p) == Some(Held(top, m.mounts(top).value))
    decreases |p|
  {
    if p != top {
      assert Under(top, p);
      assert top <= p[..|p| - 1];
      HolderIs(m, p[..|p| - 1], top);
    }
  }

  lemma SameMountsSound(m: Machine, next: Machine)
    requires Sound(m) && next.mounts == m.mounts && next.dirs == m.dirs
    requires next.blind == m.blind && next.foreign == m.foreign
    ensures Sound(next)
  {
    forall p | Up(next, p)
      ensures next.dirs(p)
    {
      assert Up(m, p);
    }
  }

  lemma MovedSubtree(origin: Path, target: Path, rest: Path, m: Machine, o: Outcome)
    requires o.made && o.did
    ensures After(MoveMount(origin, target), m, o).0.mounts(target + rest) == m.mounts(origin + rest)
  {
    assert target <= target + rest && (target + rest)[|target|..] == rest;
  }

  /** The moves are never of something that is not there: none disturbs what another takes along. */
  lemma {:induction false} MoveRun(steps: seq<Step>, below: seq<Path>, m: Machine, outcomes: nat -> Outcome, at: nat)
    requires Sound(m) && |below| == |steps|
    requires forall i :: 0 <= i < |steps| ==>
                           steps[i].MoveMount? && !(steps[i].origin <= steps[i].target) && Up(m, steps[i].origin)
    requires forall i, j :: 0 <= i < j < |steps| ==> Apart(steps[i], steps[j], below[i], below[j])
    ensures Sound(RunFrom(steps, m, outcomes, at).machine)
    decreases |steps|
  {
    if steps != [] {
      GroundedStep(steps[0], m, outcomes(at));
      var (next, ok) := After(steps[0], m, outcomes(at));
      if ok {
        forall i | 0 < i < |steps|
          ensures next.mounts(steps[i].origin) == m.mounts(steps[i].origin)
        {
          assert Apart(steps[0], steps[i], below[0], below[i]);
          StepSpares(steps[0], m, outcomes(at), steps[i].origin);
        }
        MoveRun(steps[1..], below[1..], next, outcomes, at + 1);
      }
    }
  }

  lemma MovedWhole(origin: Path, target: Path, m: Machine, o: Outcome)
    requires o.made && o.did
    ensures After(MoveMount(origin, target), m, o).0.mounts(target) == m.mounts(origin)
  {
    assert origin + [] == origin && target + [] == target;
    MovedSubtree(origin, target, [], m, o);
  }

  /** Two moves that do not disturb what the other takes along or leaves behind. */
  predicate Apart(a: Step, b: Step, belowA: Path, belowB: Path)
    requires a.MoveMount? && b.MoveMount?
  {
    && !Touches(a, b.origin) && !Touches(a, b.origin + belowB)
    && !Touches(b, a.target) && !Touches(b, a.target + belowA)
  }

  // ----- What the plan has built so far -----

  /** The kernel's file systems, terminals and control groups included. */
  predicate KernelFs(m: Machine, dev: Path, pts: Path, proc: Path, sys: Path, cgroup: Path, run: Path) {
    && KernelAt(m, dev, [Dev], "devtmpfs", "nosuid,mode=0755")
    && KernelAt(m, pts, [Dev, Pts], "devpts", "nosuid,noexec,gid=5,mode=0620,ptmxmode=0666")
    && KernelAt(m, proc, [Proc], "proc", "nosuid,nodev,noexec")
    && KernelAt(m, sys, [Sys], "sysfs", "nosuid,nodev,noexec")
    && KernelAt(m, cgroup, [Sys, Fs, Cgroup], "cgroup2", "nosuid,nodev,noexec")
    && KernelAt(m, run, [Run], "tmpfs", "nosuid,nodev,mode=0755")
  }

  ghost predicate EarlyUp(m: Machine) {
    KernelFs(m, [Dev], [Dev, Pts], [Proc], [Sys], [Sys, Fs, Cgroup], [Run])
  }

  /** The same in the new root. */
  ghost predicate CarriedOver(m: Machine) {
    KernelFs(m, [Sysroot, Dev], [Sysroot, Dev, Pts], [Sysroot, Proc], [Sysroot, Sys], [Sysroot, Sys, Fs, Cgroup],
             [Sysroot, Run])
  }

  ghost predicate RootIs(m: Machine) {
    m.mounts(SYSROOT) == Some(Plain("tmpfs", "tmpfs", "nosuid,nodev,mode=0755", None))
  }

  /** The compatibility links of the merged `/usr`. */
  ghost predicate LinksAre(m: Machine) {
    && LinkStands(m, Symlink([Usr, Bin], [Sysroot, Bin])) && LinkStands(m, Symlink([Usr, Sbin], [Sysroot, Sbin]))
    && LinkStands(m, Symlink([Usr, Lib], [Sysroot, Lib])) && LinkStands(m, Symlink([Lib], [Sysroot, Lib64]))
  }

  ghost predicate TmpIs(m: Machine) {
    m.mounts(TMP) == Some(Plain("tmpfs", "tmpfs", "nosuid,nodev,mode=1777", None))
  }

  /** A verity device on the two partitions of the slot that checks the hash that was given. */
  ghost predicate OfSlot(v: Verity, args: BootArgs, booted: Option<string>) {
    && v.rootHash == args.rootHash
    && Answers(booted, UsrDevice(args.slot), v.data)
    && Answers(booted, VerityDevice(args.slot), v.hash)
  }

  ghost predicate VerityIs(m: Machine, args: BootArgs, booted: Option<string>) {
    VERITY_MAPPER_NAME in m.mapper && OfSlot(m.mapper[VERITY_MAPPER_NAME], args, booted)
  }

  /** A mount made from such a device, as it was when the mount was made. */
  ghost predicate FromSlot(usr: Mounted, args: BootArgs, booted: Option<string>) {
    && usr.Plain? && usr.source == UsrSource() && usr.fstype == "erofs" && usr.options == USR_OPTIONS
    && usr.device.Some? && OfSlot(usr.device.value, args, booted)
  }

  ghost predicate UsrIs(m: Machine, args: BootArgs, booted: Option<string>) {
    m.mounts(USR).Some? && FromSlot(m.mounts(USR).value, args, booted) && NoneBelow(m, USR)
  }

  ghost predicate VarIs(m: Machine, booted: Option<string>) {
    && m.mounts(VAR).Some? && m.mounts(VAR).value.Plain?
    && m.mounts(VAR).value.fstype == "xfs" && m.mounts(VAR).value.options == VAR_OPTIONS
    && Answers(booted, VarSource(), m.mounts(VAR).value.source)
    && NoneBelow(m, VAR)
  }

  lemma Sources()
    ensures !IsLabel("tmpfs") && !IsLabel(UsrSource())
    ensures IsLabel(VarSource()) && forall slot :: IsLabel(UsrDevice(slot)) && IsLabel(VerityDevice(slot))
    ensures !IsMapped("tmpfs") && IsMapped(UsrSource()) && UsrSource()[|MAPPER_DIR|..] == VERITY_MAPPER_NAME
    ensures forall source :: IsLabel(source) ==> !IsMapped(source)
  {
    NoLabelIsMapped(UsrSource());
    forall source | IsLabel(source)
      ensures !IsMapped(source)
    {
      NoLabelIsMapped(source);
    }
  }

  lemma NoLabelIsMapped(source: string)
    ensures !(IsLabel(source) && IsMapped(source))
  {
    if |source| > 5 {
      var c := source[5];
      assert IsLabel(source) ==> c == BY_PARTLABEL[5];
      assert IsMapped(source) ==> c == MAPPER_DIR[5];
    }
  }

  lemma StagePseudo(m: Machine, outcomes: nat -> Outcome, at: nat)
    requires Sound(m)
    ensures var r := RunFrom(PseudoSteps(), m, outcomes, at);
            Sound(r.machine) && (r.Through? ==> EarlyUp(r.machine))
  {
    var steps := PseudoSteps();
    forall i, j | 0 <= i < j < |steps|
      ensures !Under(steps[j].target, steps[i].target)
    {
      assert |steps[j].target| >= 1;
      assert i == 1 ==> steps[j].target[0] != Dev;
      assert i == 4 ==> steps[j].target[0] != Sys;
      assert i != 1 && i != 4 ==> |steps[i].target| == 1;
    }
    PseudoRun(steps, m, outcomes, at);
    var r := RunFrom(steps, m, outcomes, at);
    if r.Through? {
      SixStand(steps, r.machine);
    }
  }

  lemma SixStand(steps: seq<Step>, m: Machine)
    requires steps == PseudoSteps()
    requires forall i :: 0 <= i < |steps| ==> steps[i].MountPseudo? && KernelStep(m, steps[i])
    ensures EarlyUp(m)
  {
    assert KernelStep(m, steps[0]) && KernelStep(m, steps[1]) && KernelStep(m, steps[2]);
    assert KernelStep(m, steps[3]) && KernelStep(m, steps[4]) && KernelStep(m, steps[5]);
  }

  predicate InSysroot(p: Path) {
    p != [] && p[0] == Sysroot
  }

  /** Every mount is made in the new root, and nothing is moved. */
  predicate AllInSysroot(steps: seq<Step>) {
    forall i :: 0 <= i < |steps| ==>
      match steps[i]
      case MountPseudo(_, _, _) => false
      case Mount(_, target, _, _) => InSysroot(target)
      case MountOverlay(_, _, _, target) => InSysroot(target)
      case MoveMount(_, _) => false
      case _ => true
  }

  lemma OutsideIsSpared(steps: seq<Step>, p: Path)
    requires AllInSysroot(steps) && p != [] && !InSysroot(p)
    ensures AllSpare(steps, p)
  {
  }

  /** The early mounts lie outside the new root, so nothing done there hides them. */
  lemma EarlyIsSpared(steps: seq<Step>, m: Machine, outcomes: nat -> Outcome, at: nat)
    requires EarlyUp(m) && AllInSysroot(steps)
    ensures EarlyUp(RunFrom(steps, m, outcomes, at).machine)
  {
    SixAreSpared(steps, m, outcomes, at);
    RunKeepsNotes(steps, m, outcomes, at);
    SameKernel(m, RunFrom(steps, m, outcomes, at).machine);
  }

  /** The same six mounts on both machines. */
  predicate SixUntouched(m: Machine, next: Machine) {
    && next.mounts([Dev]) == m.mounts([Dev]) && next.mounts([Dev, Pts]) == m.mounts([Dev, Pts])
    && next.mounts([Proc]) == m.mounts([Proc]) && next.mounts([Sys]) == m.mounts([Sys])
    && next.mounts([Sys, Fs, Cgroup]) == m.mounts([Sys, Fs, Cgroup]) && next.mounts([Run]) == m.mounts([Run])
  }

  lemma SameKernel(m: Machine, next: Machine)
    requires EarlyUp(m) && next.found == m.found && next.foreign == m.foreign && SixUntouched(m, next)
    ensures EarlyUp(next)
  {
  }

  lemma SixAreSpared(steps: seq<Step>, m: Machine, outcomes: nat -> Outcome, at: nat)
    requires AllInSysroot(steps)
    ensures SixUntouched(m, RunFrom(steps, m, outcomes, at).machine)
  {
    OneIsSpared(steps, m, outcomes, at, [Dev]);
    OneIsSpared(steps, m, outcomes, at, [Dev, Pts]);
    OneIsSpared(steps, m, outcomes, at, [Proc]);
    OneIsSpared(steps, m, outcomes, at, [Sys]);
    OneIsSpared(steps, m, outcomes, at, [Sys, Fs, Cgroup]);
    OneIsSpared(steps, m, outcomes, at, [Run]);
  }

  lemma OneIsSpared(steps: seq<Step>, m: Machine, outcomes: nat -> Outcome, at: nat, p: Path)
    requires AllInSysroot(steps) && p != [] && !InSysroot(p)
    ensures RunFrom(steps, m, outcomes, at).machine.mounts(p) == m.mounts(p)
  {
    OutsideIsSpared(steps, p);
    RunSpares(steps, m, outcomes, at, p);
  }

  lemma StageRoot(m: Machine, outcomes: nat -> Outcome, at: nat)
    requires Sound(m) && EarlyUp(m)
    ensures var r := RunFrom(RootSteps(), m, outcomes, at);
            && Sound(r.machine)
            && (r.Through? ==> EarlyUp(r.machine) && RootIs(r.machine))
  {
    Sources();
    MakeAndMountRun("tmpfs", SYSROOT, "tmpfs", "nosuid,nodev,mode=0755", m, outcomes, at);
    EarlyIsSpared(RootSteps(), m, outcomes, at);
  }

  lemma StageVerity(args: BootArgs, booted: Option<string>, m: Machine, outcomes: nat -> Outcome, at: nat)
    requires Sound(m) && EarlyUp(m) && RootIs(m) && Legal(VeritySteps(args), outcomes, booted, at)
    ensures var r := RunFrom(VeritySteps(args), m, outcomes, at);
            && Sound(r.machine) && r.machine.mounts == m.mounts
            && (r.Through? ==> VerityIs(r.machine, args, booted))
  {
    Sources();
    var step := VeritySteps(args)[0];
    assert LegalAt(step, outcomes(at + 0), booted);
    RunOne(step, m, outcomes, at);
    GroundedStep(step, m, outcomes(at));
  }

  /** A mount below the root, with what was there before. */
  lemma MountOnRoot(source: string, target: Path, fstype: string, options: string, args: BootArgs,
                    booted: Option<string>, m: Machine, outcomes: nat -> Outcome, at: nat)
    requires Sound(m) && EarlyUp(m) && RootIs(m) && VerityIs(m, args, booted)
    requires InSysroot(target) && |target| == 2 && !IsLabel(source) && (m.foreign || SourceThere(m, source))
    ensures var r := RunFrom(MakeAndMount(source, target, fstype, options), m, outcomes, at);
            && Sound(r.machine) && EarlyUp(r.machine) && RootIs(r.machine) && VerityIs(r.machine, args, booted)
            && (r.Through? ==>
                  && r.machine.mounts(target) == Some(Plain(source, fstype, options, DeviceBehind(m, source)))
                  && NoneBelow(r.machine, target))
  {
    MakeAndMountRun(source, target, fstype, options, m, outcomes, at);
    MountInSysroot(source, target, fstype, options);
    RootAndVerityKept(MakeAndMount(source, target, fstype, options), args, booted, m, outcomes, at);
  }

  lemma MountInSysroot(source: string, target: Path, fstype: string, options: string)
    requires InSysroot(target) && |target| == 2
    ensures var steps := MakeAndMount(source, target, fstype, options);
            AllInSysroot(steps) && AllSpare(steps, SYSROOT) && NoVerity(steps)
  {
    MakeAndMountSpares(source, target, fstype, options, SYSROOT);
  }

  lemma StageUsr(args: BootArgs, booted: Option<string>, m: Machine, outcomes: nat -> Outcome, at: nat)
    requires Sound(m) && EarlyUp(m) && RootIs(m) && VerityIs(m, args, booted)
    ensures var r := RunFrom(UsrSteps(), m, outcomes, at);
            && Sound(r.machine)
            && (r.Through? ==>
                  && EarlyUp(r.machine) && RootIs(r.machine) && VerityIs(r.machine, args, booted)
                  && UsrIs(r.machine, args, booted))
  {
    Sources();
    MountOnRoot(UsrSource(), USR, "erofs", USR_OPTIONS, args, booted, m, outcomes, at);
  }

  lemma RootAndVerityKept(steps: seq<Step>, args: BootArgs, booted: Option<string>, m: Machine,
                          outcomes: nat -> Outcome, at: nat)
    requires EarlyUp(m) && RootIs(m) && VerityIs(m, args, booted)
    requires AllInSysroot(steps) && AllSpare(steps, SYSROOT) && NoVerity(steps)
    ensures var next := RunFrom(steps, m, outcomes, at).machine;
            EarlyUp(next) && RootIs(next) && VerityIs(next, args, booted)
  {
    EarlyIsSpared(steps, m, outcomes, at);
    RunSpares(steps, m, outcomes, at, SYSROOT);
    RunKeepsMapper(steps, m, outcomes, at);
  }

  /** What holds from the mount of `/usr` on. */
  ghost predicate Underway(m: Machine, args: BootArgs, booted: Option<string>) {
    Sound(m) && EarlyUp(m) && RootIs(m) && VerityIs(m, args, booted) && UsrIs(m, args, booted)
  }

  /** Steps that stay clear of what has been built keep it. */
  ghost predicate StayClear(steps: seq<Step>) {
    NoVerity(steps) && AllInSysroot(steps) && AllSpare(steps, SYSROOT) && AllAvoid(steps, USR)
  }

  lemma KeepsUnderway(steps: seq<Step>, args: BootArgs, booted: Option<string>, m: Machine, outcomes: nat -> Outcome,
                      at: nat)
    requires Underway(m, args, booted) && StayClear(steps)
    ensures var next := RunFrom(steps, m, outcomes, at).machine;
            Sound(next) ==> Underway(next, args, booted)
  {
    RootAndVerityKept(steps, args, booted, m, outcomes, at);
    RunSpares(steps, m, outcomes, at, USR);
    RunAvoids(steps, m, outcomes, at, USR);
  }

  /** A name directly in the new root. */
  predicate TopLevel(p: Path) {
    |p| == 2 && p[0] == Sysroot
  }

  lemma TopLevelsDiffer(p: Path, q: Path)
    requires TopLevel(p) && TopLevel(q) && p[1] != q[1]
    ensures !(p <= q) && !(p <= SYSROOT)
  {
  }

  lemma ElsewhereStaysClear(source: string, target: Path, fstype: string, options: string)
    requires TopLevel(target) && target[1] != Usr
    ensures StayClear(MakeAndMount(source, target, fstype, options))
  {
    TopLevelsDiffer(target, USR);
    TopLevelsDiffer(USR, target);
    MakeAndMountSpares(source, target, fstype, options, SYSROOT);
    MakeAndMountSpares(source, target, fstype, options, USR);
  }

  /** A directory made and mounted elsewhere in the new root leaves all of that alone. */
  lemma MountElsewhere(source: string, target: Path, fstype: string, options: string, args: BootArgs,
                       booted: Option<string>, m: Machine, outcomes: nat -> Outcome, at: nat)
    requires Underway(m, args, booted) && (m.foreign || SourceThere(m, source))
    requires TopLevel(target) && target[1] != Usr
    ensures var r := RunFrom(MakeAndMount(source, target, fstype, options), m, outcomes, at);
            Sound(r.machine) && (r.Through? ==> Underway(r.machine, args, booted))
  {
    MakeAndMountRun(source, target, fstype, options, m, outcomes, at);
    ElsewhereStaysClear(source, target, fstype, options);
    KeepsUnderway(MakeAndMount(source, target, fstype, options), args, booted, m, outcomes, at);
  }

  // ----- Links, /tmp and /var -----

  predicate SparesLinks(steps: seq<Step>) {
    && AllSpare(steps, [Sysroot, Bin]) && AllSpare(steps, [Sysroot, Sbin])
    && AllSpare(steps, [Sysroot, Lib]) && AllSpare(steps, [Sysroot, Lib64])
    && forall i :: 0 <= i < |steps| ==> !steps[i].Symlink?
  }

  lemma LinksKept(steps: seq<Step>, m: Machine, outcomes: nat -> Outcome, at: nat)
    requires LinksAre(m) && SparesLinks(steps)
    ensures LinksAre(RunFrom(steps, m, outcomes, at).machine)
  {
    RunSpares(steps, m, outcomes, at, [Sysroot, Bin]);
    RunSpares(steps, m, outcomes, at, [Sysroot, Sbin]);
    RunSpares(steps, m, outcomes, at, [Sysroot, Lib]);
    RunSpares(steps, m, outcomes, at, [Sysroot, Lib64]);
  }

  /** The links and `/tmp`. */
  ghost predicate Furnished(m: Machine) {
    LinksAre(m) && TmpIs(m)
  }

  lemma FurnitureKept(steps: seq<Step>, m: Machine, outcomes: nat -> Outcome, at: nat)
    requires Furnished(m) && SparesLinks(steps) && AllSpare(steps, TMP)
    ensures Furnished(RunFrom(steps, m, outcomes, at).machine)
  {
    LinksKept(steps, m, outcomes, at);
    RunSpares(steps, m, outcomes, at, TMP);
  }

  lemma MountSparesLinks(source: string, target: Path, fstype: string, options: string)
    requires TopLevel(target) && target[1] !in {Bin, Sbin, Lib, Lib64}
    ensures SparesLinks(MakeAndMount(source, target, fstype, options))
  {
    TopLevelsDiffer(target, [Sysroot, Bin]);
    TopLevelsDiffer(target, [Sysroot, Sbin]);
    TopLevelsDiffer(target, [Sysroot, Lib]);
    TopLevelsDiffer(target, [Sysroot, Lib64]);
    MakeAndMountSpares(source, target, fstype, options, [Sysroot, Bin]);
    MakeAndMountSpares(source, target, fstype, options, [Sysroot, Sbin]);
    MakeAndMountSpares(source, target, fstype, options, [Sysroot, Lib]);
    MakeAndMountSpares(source, target, fstype, options, [Sysroot, Lib64]);
  }

  lemma LinkRunUnderway(steps: seq<Step>, args: BootArgs, booted: Option<string>, m: Machine, outcomes: nat -> Outcome,
                        at: nat)
    requires Underway(m, args, booted) && LinksDiffer(steps) && forall i :: 0 <= i < |steps| ==> LinkOrClock(steps[i])
    requires forall i :: 0 <= i < |steps| && steps[i].RaiseClock? ==> OnVerified(m, steps[i].osRelease)
    ensures var r := RunFrom(steps, m, outcomes, at);
            && Underway(r.machine, args, booted)
            && (r.Through? ==> forall i :: 0 <= i < |steps| && steps[i].Symlink? ==> LinkStands(r.machine, steps[i]))
  {
    LinkRun(steps, m, outcomes, at);
    SameMountsUnderway(args, booted, m, RunFrom(steps, m, outcomes, at).machine);
  }

  lemma LinkStepsAreLinks()
    ensures forall i :: 0 <= i < |LinkSteps()| ==> LinkOrClock(LinkSteps()[i])
    ensures LinksDiffer(LinkSteps())
    ensures forall i :: 0 <= i < |LinkSteps()| && LinkSteps()[i].RaiseClock? ==>
                          LinkSteps()[i].osRelease == USR + [Lib, OsRelease]
  {
    var steps := LinkSteps();
    assert steps[1].link[1] == Bin && steps[2].link[1] == Sbin && steps[3].link[1] == Lib && steps[4].link[1] == Lib64;
  }

  lemma StageLinks(args: BootArgs, booted: Option<string>, m: Machine, outcomes: nat -> Outcome, at: nat)
    requires Underway(m, args, booted)
    ensures var r := RunFrom(LinkSteps(), m, outcomes, at);
            Underway(r.machine, args, booted) && (r.Through? ==> LinksAre(r.machine))
  {
    LinkStepsAreLinks();
    HolderIs(m, USR + [Lib, OsRelease], USR);
    LinkRunUnderway(LinkSteps(), args, booted, m, outcomes, at);
    var r := RunFrom(LinkSteps(), m, outcomes, at);
    if r.Through? { FourLinks(LinkSteps(), r.machine); }
  }

  lemma FourLinks(steps: seq<Step>, m: Machine)
    requires steps == LinkSteps()
    requires forall i :: 0 <= i < |steps| && steps[i].Symlink? ==> LinkStands(m, steps[i])
    ensures LinksAre(m)
  {
    assert LinkStands(m, steps[1]) && LinkStands(m, steps[2]) && LinkStands(m, steps[3]) && LinkStands(m, steps[4]);
    assert steps[1].link == [Sysroot, Bin] && steps[2].link == [Sysroot, Sbin];
    assert steps[3].link == [Sysroot, Lib] && steps[4].link == [Sysroot, Lib64];
  }

  lemma SameMountsUnderway(args: BootArgs, booted: Option<string>, m: Machine, next: Machine)
    requires Underway(m, args, booted)
    requires next.mounts == m.mounts && next.dirs == m.dirs && next.mapper == m.mapper
    requires next.found == m.found && next.foreign == m.foreign && next.blind == m.blind
    ensures Underway(next, args, booted)
  {
    SameMountsSound(m, next);
    assert forall p :: Up(next, p) == Up(m, p);
  }

  lemma StageTmp(args: BootArgs, booted: Option<string>, m: Machine, outcomes: nat -> Outcome, at: nat)
    requires Underway(m, args, booted) && LinksAre(m)
    ensures var r := RunFrom(TmpSteps(), m, outcomes, at);
            Sound(r.machine) && (r.Through? ==> Underway(r.machine, args, booted) && Furnished(r.machine))
  {
    Sources();
    MountElsewhere("tmpfs", TMP, "tmpfs", "nosuid,nodev,mode=1777", args, booted, m, outcomes, at);
    MakeAndMountRun("tmpfs", TMP, "tmpfs", "nosuid,nodev,mode=1777", m, outcomes, at);
    MountSparesLinks("tmpfs", TMP, "tmpfs", "nosuid,nodev,mode=1777");
    LinksKept(TmpSteps(), m, outcomes, at);
  }

  /** What holds from the mount of `/var` on. */
  ghost predicate Ready(m: Machine, args: BootArgs, booted: Option<string>) {
    Underway(m, args, booted) && Furnished(m) && VarIs(m, booted)
  }

  lemma StageVar(args: BootArgs, booted: Option<string>, m: Machine, outcomes: nat -> Outcome, at: nat)
    requires Underway(m, args, booted) && Furnished(m) && Legal(VarSteps(), outcomes, booted, at)
    ensures var r := RunFrom(VarSteps(), m, outcomes, at);
            Sound(r.machine) && (r.Through? ==> Ready(r.machine, args, booted))
  {
    Sources();
    MountElsewhere(VarSource(), VAR, "xfs", VAR_OPTIONS, args, booted, m, outcomes, at);
    VarStands(booted, m, outcomes, at);
    FurnitureBesideVar(m, outcomes, at);
  }

  lemma VarStands(booted: Option<string>, m: Machine, outcomes: nat -> Outcome, at: nat)
    requires Sound(m) && (m.foreign || SourceThere(m, VarSource())) && Legal(VarSteps(), outcomes, booted, at)
    ensures var r := RunFrom(VarSteps(), m, outcomes, at); r.Through? ==> VarIs(r.machine, booted)
  {
    Sources();
    MakeAndMountRun(VarSource(), VAR, "xfs", VAR_OPTIONS, m, outcomes, at);
    assert LegalAt(VarSteps()[1], outcomes(at + 1), booted);
  }

  lemma FurnitureBesideVar(m: Machine, outcomes: nat -> Outcome, at: nat)
    requires Furnished(m)
    ensures Furnished(RunFrom(VarSteps(), m, outcomes, at).machine)
  {
    MountSparesLinks(VarSource(), VAR, "xfs", VAR_OPTIONS);
    TopLevelsDiffer(VAR, TMP);
    MakeAndMountSpares(VarSource(), VAR, "xfs", VAR_OPTIONS, TMP);
    FurnitureKept(VarSteps(), m, outcomes, at);
  }

  /** The state action touches no mount. */
  lemma StageState(action: StateAction, args: BootArgs, booted: Option<string>, m: Machine, outcomes: nat -> Outcome,
                   at: nat)
    requires Ready(m, args, booted)
    ensures var r := RunFrom([ApplyState(action)], m, outcomes, at);
            && Ready(r.machine, args, booted)
            && (action.Migrate? ==> r.Failed?)
            && (action.Proceed? || action.RestoreForRollback? ==> r == Through(m))
  {
    var step := ApplyState(action);
    RunOne(step, m, outcomes, at);
    GroundedStep(step, m, outcomes(at));
    assert After(step, m, outcomes(at)).0.mounts == m.mounts;
    assert After(step, m, outcomes(at)).0.links == m.links;
    assert After(step, m, outcomes(at)).0.mapper == m.mapper;
  }

  // ----- The overlay and the moves -----

  /** `/etc` was made of a lower layer on the `/usr` that is mounted, and an upper layer and work
      directory on the `/var` that is mounted. */
  ghost predicate EtcIs(m: Machine) {
    && Up(m, USR) && Up(m, VAR)
    && m.mounts(ETC)
       == Some(Overlay(ETC_FACTORY, ETC_UPPER, ETC_WORK, Standing(m, USR), Standing(m, VAR), Standing(m, VAR)))
  }

  /** The mount at a path. */
  function Standing(m: Machine, p: Path): Option<Held> {
    if Up(m, p) then Some(Held(p, m.mounts(p).value)) else None
  }

  lemma EtcElsewhere(p: Path)
    requires TopLevel(p) && p[1] != Etc
    ensures AllSpare(EtcSteps(), p) && AllAvoid(EtcSteps(), p)
  {
    TopLevelsDiffer(ETC, p);
    TopLevelsDiffer(p, ETC);
  }

  /** Steps that also stay clear of the rest keep that too. */
  lemma KeepsReady(steps: seq<Step>, args: BootArgs, booted: Option<string>, m: Machine, outcomes: nat -> Outcome,
                   at: nat)
    requires Ready(m, args, booted) && StayClear(steps) && AllAvoid(steps, VAR)
    requires SparesLinks(steps) && AllSpare(steps, TMP)
    ensures var next := RunFrom(steps, m, outcomes, at).machine;
            Sound(next) ==> Ready(next, args, booted)
  {
    KeepsUnderway(steps, args, booted, m, outcomes, at);
    FurnitureKept(steps, m, outcomes, at);
    RunSpares(steps, m, outcomes, at, VAR);
    RunAvoids(steps, m, outcomes, at, VAR);
  }

  lemma EtcStaysClear()
    ensures StayClear(EtcSteps()) && AllAvoid(EtcSteps(), VAR)
    ensures SparesLinks(EtcSteps()) && AllSpare(EtcSteps(), TMP)
  {
    TopLevelsDiffer(ETC, USR);
    EtcElsewhere(USR);
    EtcElsewhere(VAR);
    EtcElsewhere(TMP);
    EtcSparesLinks();
  }

  lemma EtcSparesLinks()
    ensures SparesLinks(EtcSteps())
  {
    EtcElsewhere([Sysroot, Bin]);
    EtcElsewhere([Sysroot, Sbin]);
    EtcElsewhere([Sysroot, Lib]);
    EtcElsewhere([Sysroot, Lib64]);
  }

  lemma EtcKeeps(args: BootArgs, booted: Option<string>, m: Machine, outcomes: nat -> Outcome, at: nat)
    requires Ready(m, args, booted)
    ensures var next := RunFrom(EtcSteps(), m, outcomes, at).machine;
            Sound(next) ==> Ready(next, args, booted)
  {
    EtcStaysClear();
    KeepsReady(EtcSteps(), args, booted, m, outcomes, at);
  }

  /** The overlay itself, on a machine where its layers are in place. */
  lemma OverlayRun(m: Machine, o: Outcome)
    requires Sound(m) && Up(m, USR) && Up(m, VAR) && NoneBelow(m, USR) && NoneBelow(m, VAR)
    requires m.dirs(ETC_UPPER) && m.dirs(ETC_WORK)
    ensures var (next, ok) := After(EtcSteps()[2], m, o); Sound(next) && (ok ==> EtcIs(next))
  {
    GroundedStep(EtcSteps()[2], m, o);
    HolderIs(m, ETC_FACTORY, USR);
    HolderIs(m, ETC_UPPER, VAR);
    HolderIs(m, ETC_WORK, VAR);
    TopLevelsDiffer(ETC, USR);
    TopLevelsDiffer(ETC, VAR);
    StepSpares(EtcSteps()[2], m, o, USR);
    StepSpares(EtcSteps()[2], m, o, VAR);
  }

  lemma MakeLayer(p: Path, m: Machine, o: Outcome)
    requires Sound(m)
    ensures var (next, ok) := After(CreateDir(p), m, o);
            && Sound(next) && next.mounts == m.mounts
            && (forall q :: m.dirs(q) ==> next.dirs(q)) && (ok ==> next.dirs(p))
  {
    GroundedStep(CreateDir(p), m, o);
    assert p <= p;
  }

  lemma EtcRun(m: Machine, outcomes: nat -> Outcome, at: nat)
    requires Sound(m) && Up(m, USR) && Up(m, VAR) && NoneBelow(m, USR) && NoneBelow(m, VAR)
    ensures var r := RunFrom(EtcSteps(), m, outcomes, at);
            Sound(r.machine) && (r.Through? ==> EtcIs(r.machine))
  {
    var a, b, c := EtcSteps()[0], EtcSteps()[1], EtcSteps()[2];
    assert EtcSteps() == [a, b] + [c];
    RunConcat([a, b], [c], m, outcomes, at);
    RunTwo(a, b, m, outcomes, at);
    MakeLayer(ETC_UPPER, m, outcomes(at));
    var m1 := After(a, m, outcomes(at)).0;
    if After(a, m, outcomes(at)).1 {
      MakeLayer(ETC_WORK, m1, outcomes(at + 1));
      var m2 := After(b, m1, outcomes(at + 1)).0;
      if After(b, m1, outcomes(at + 1)).1 {
        RunOne(c, m2, outcomes, at + 2);
        SameNoneBelow(m, m2, USR);
        SameNoneBelow(m, m2, VAR);
        OverlayRun(m2, outcomes(at + 2));
      }
    }
  }

  lemma SameNoneBelow(m: Machine, next: Machine, top: Path)
    requires next.mounts == m.mounts && NoneBelow(m, top)
    ensures NoneBelow(next, top)
  {
    assert forall p :: Up(next, p) == Up(m, p);
  }

  lemma MoveShape(i: nat)
    requires i < 4
    ensures var step := MoveSteps()[i];
            && step.MoveMount? && |step.origin| == 1 && step.origin[0] in {Dev, Proc, Sys, Run}
            && step.target == SYSROOT + step.origin
  {
  }

  lemma MovesElsewhere(p: Path)
    requires p == SYSROOT || (TopLevel(p) && p[1] !in {Dev, Proc, Sys, Run})
    ensures AllSpare(MoveSteps(), p)
    ensures p != SYSROOT ==> AllAvoid(MoveSteps(), p)
  {
    forall i | 0 <= i < 4
      ensures !Touches(MoveSteps()[i], p)
      ensures p != SYSROOT ==> !Reaches(MoveSteps()[i], p)
    {
      MoveShape(i);
      var step := MoveSteps()[i];
      assert step.origin[0] != p[0] && step.target[1] == step.origin[0];
      if p != SYSROOT {
        TopLevelsDiffer(step.target, p);
        TopLevelsDiffer(p, step.target);
      }
    }
  }

  /** What the moves take along besides the mounts themselves. */
  function MovedBelow(): (below: seq<Path>)
    ensures |below| == 4
  {
    [[Pts], [], [Fs, Cgroup], []]
  }

  lemma MovesAreApart(i: nat, j: nat)
    requires i < j < 4
    ensures MoveSteps()[i].MoveMount? && MoveSteps()[j].MoveMount?
    ensures Apart(MoveSteps()[i], MoveSteps()[j], MovedBelow()[i], MovedBelow()[j])
  {
    MoveShape(i);
    MoveShape(j);
    var a, b := MoveSteps()[i], MoveSteps()[j];
    assert a.origin[0] != b.origin[0];
    MovesApart(a, b, MovedBelow()[i], MovedBelow()[j]);
  }

  lemma MovesApart(a: Step, b: Step, belowA: Path, belowB: Path)
    requires a.MoveMount? && b.MoveMount? && |a.origin| == |b.origin| == 1 && a.origin[0] != b.origin[0]
    requires a.origin[0] != Sysroot && b.origin[0] != Sysroot
    requires a.target == SYSROOT + a.origin && b.target == SYSROOT + b.origin
    ensures Apart(a, b, belowA, belowB)
  {
    assert (b.origin + belowB)[0] == b.origin[0];
    assert (a.target + belowA)[0] == Sysroot && (a.target + belowA)[1] == a.origin[0];
    assert a.target[1] == a.origin[0] && b.target[1] == b.origin[0];
  }

  /** The six mounts of the kernel's file systems are the same on both machines, the second time in the new
      root. */
  predicate SameSix(m: Machine, next: Machine) {
    && next.mounts([Sysroot, Dev]) == m.mounts([Dev]) && next.mounts([Sysroot, Dev, Pts]) == m.mounts([Dev, Pts])
    && next.mounts([Sysroot, Proc]) == m.mounts([Proc]) && next.mounts([Sysroot, Sys]) == m.mounts([Sys])
    && next.mounts([Sysroot, Sys, Fs, Cgroup]) == m.mounts([Sys, Fs, Cgroup])
    && next.mounts([Sysroot, Run]) == m.mounts([Run])
  }

  lemma {:induction false} MovesCarry(steps: seq<Step>, below: seq<Path>, m: Machine, outcomes: nat -> Outcome, at: nat)
    requires |below| == |steps| && forall i :: 0 <= i < |steps| ==> steps[i].MoveMount?
    requires forall i, j :: 0 <= i < j < |steps| ==> Apart(steps[i], steps[j], below[i], below[j])
    requires RunFrom(steps, m, outcomes, at).Through?
    ensures forall i :: 0 <= i < |steps| ==>
                          && RunFrom(steps, m, outcomes, at).machine.mounts(steps[i].target)
                             == m.mounts(steps[i].origin)
                          && RunFrom(steps, m, outcomes, at).machine.mounts(steps[i].target + below[i])
                             == m.mounts(steps[i].origin + below[i])
    decreases |steps|
  {
    if steps != [] {
      var next := After(steps[0], m, outcomes(at)).0;
      forall i | 0 < i < |steps|
        ensures next.mounts(steps[i].origin) == m.mounts(steps[i].origin)
        ensures next.mounts(steps[i].origin + below[i]) == m.mounts(steps[i].origin + below[i])
        ensures !Touches(steps[i], steps[0].target) && !Touches(steps[i], steps[0].target + below[0])
      {
        assert Apart(steps[0], steps[i], below[0], below[i]);
        StepSpares(steps[0], m, outcomes(at), steps[i].origin);
        StepSpares(steps[0], m, outcomes(at), steps[i].origin + below[i]);
      }
      MovesCarry(steps[1..], below[1..], next, outcomes, at + 1);
      MovedSubtree(steps[0].origin, steps[0].target, below[0], m, outcomes(at));
      MovedWhole(steps[0].origin, steps[0].target, m, outcomes(at));
      RunSpares(steps[1..], next, outcomes, at + 1, steps[0].target);
      RunSpares(steps[1..], next, outcomes, at + 1, steps[0].target + below[0]);
    }
  }

  lemma SixAreCarried(m: Machine, outcomes: nat -> Outcome, at: nat)
    requires RunFrom(MoveSteps(), m, outcomes, at).Through?
    ensures SameSix(m, RunFrom(MoveSteps(), m, outcomes, at).machine)
  {
    var steps, below := MoveSteps(), MovedBelow();
    forall i | 0 <= i < |steps|
      ensures steps[i].MoveMount?
    {
      MoveShape(i);
    }
    forall i, j | 0 <= i < j < |steps|
      ensures steps[i].MoveMount? && steps[j].MoveMount? && Apart(steps[i], steps[j], below[i], below[j])
    {
      MovesAreApart(i, j);
    }
    MovesCarry(steps, below, m, outcomes, at);
    SixFrom(m, RunFrom(steps, m, outcomes, at).machine, steps, below);
  }

  lemma SixFrom(m: Machine, next: Machine, steps: seq<Step>, below: seq<Path>)
    requires steps == MoveSteps() && below == MovedBelow()
    requires forall i :: 0 <= i < |steps| ==>
                           && steps[i].MoveMount? && next.mounts(steps[i].target) == m.mounts(steps[i].origin)
                           && next.mounts(steps[i].target + below[i]) == m.mounts(steps[i].origin + below[i])
    ensures SameSix(m, next)
  {
    assert steps[0].target == [Sysroot, Dev] && steps[1].target == [Sysroot, Proc];
    assert steps[2].target == [Sysroot, Sys] && steps[3].target == [Sysroot, Run];
    assert steps[0].target + below[0] == [Sysroot, Dev, Pts] && steps[0].origin + below[0] == [Dev, Pts];
    assert steps[2].target + below[2] == [Sysroot, Sys, Fs, Cgroup];
    assert steps[2].origin + below[2] == [Sys, Fs, Cgroup];
  }

  lemma StageMoves(m: Machine, outcomes: nat -> Outcome, at: nat)
    requires Sound(m) && EarlyUp(m)
    ensures var r := RunFrom(MoveSteps(), m, outcomes, at);
            Sound(r.machine) && (r.Through? ==> CarriedOver(r.machine))
  {
    var steps, below := MoveSteps(), MovedBelow();
    forall i | 0 <= i < |steps|
      ensures steps[i].MoveMount? && !(steps[i].origin <= steps[i].target) && Up(m, steps[i].origin)
    {
      MoveShape(i);
    }
    forall i, j | 0 <= i < j < |steps|
      ensures steps[i].MoveMount? && steps[j].MoveMount? && Apart(steps[i], steps[j], below[i], below[j])
    {
      MovesAreApart(i, j);
    }
    MoveRun(steps, below, m, outcomes, at);
    var r := RunFrom(steps, m, outcomes, at);
    if r.Through? {
      RunKeepsNotes(steps, m, outcomes, at);
      SixAreCarried(m, outcomes, at);
      CarriedFrom(m, r.machine);
    }
  }

  lemma CarriedFrom(m: Machine, next: Machine)
    requires EarlyUp(m) && next.found == m.found && next.foreign == m.foreign && SameSix(m, next)
    ensures CarriedOver(next)
  {
  }

  /** The root as the switch finds it. */
  ghost predicate Assembled(m: Machine, args: BootArgs, booted: Option<string>) {
    && Sound(m) && RootIs(m) && Furnished(m) && CarriedOver(m)
    && VerityIs(m, args, booted) && UsrIs(m, args, booted) && VarIs(m, booted) && EtcIs(m)
  }

  lemma MovesStayClear()
    ensures NoVerity(MoveSteps())
    ensures AllSpare(MoveSteps(), SYSROOT) && AllSpare(MoveSteps(), ETC)
    ensures AllAvoid(MoveSteps(), USR) && AllAvoid(MoveSteps(), VAR)
    ensures SparesLinks(MoveSteps()) && AllSpare(MoveSteps(), TMP)
  {
    MovesElsewhere(SYSROOT);
    MovesElsewhere(USR);
    MovesElsewhere(VAR);
    MovesElsewhere(ETC);
    MovesElsewhere(TMP);
    MovesElsewhere([Sysroot, Bin]);
    MovesElsewhere([Sysroot, Sbin]);
    MovesElsewhere([Sysroot, Lib]);
    MovesElsewhere([Sysroot, Lib64]);
  }

  lemma MovesKeep(args: BootArgs, booted: Option<string>, m: Machine, outcomes: nat -> Outcome, at: nat)
    requires Ready(m, args, booted) && EtcIs(m)
    ensures var r := RunFrom(MoveSteps(), m, outcomes, at);
            Sound(r.machine) && (r.Through? ==> Assembled(r.machine, args, booted))
  {
    StageMoves(m, outcomes, at);
    MovesStayClear();
    FourKept(MoveSteps(), args, booted, m, outcomes, at);
    FurnitureKept(MoveSteps(), m, outcomes, at);
  }

  lemma FourKept(steps: seq<Step>, args: BootArgs, booted: Option<string>, m: Machine, outcomes: nat -> Outcome,
                 at: nat)
    requires Underway(m, args, booted) && VarIs(m, booted) && EtcIs(m) && NoVerity(steps)
    requires AllSpare(steps, SYSROOT) && AllSpare(steps, ETC) && AllAvoid(steps, USR) && AllAvoid(steps, VAR)
    ensures var next := RunFrom(steps, m, outcomes, at).machine;
            && RootIs(next) && VerityIs(next, args, booted) && UsrIs(next, args, booted)
            && VarIs(next, booted) && EtcIs(next)
  {
    RunSpares(steps, m, outcomes, at, SYSROOT);
    RunSpares(steps, m, outcomes, at, ETC);
    RunSpares(steps, m, outcomes, at, USR);
    RunSpares(steps, m, outcomes, at, VAR);
    RunAvoids(steps, m, outcomes, at, USR);
    RunAvoids(steps, m, outcomes, at, VAR);
    RunKeepsMapper(steps, m, outcomes, at);
  }

  // ----- The plan as a whole -----

  lemma UpToRoot(m: Machine, outcomes: nat -> Outcome, at: nat)
    requires Sound(m)
    ensures var r := RunFrom(PseudoSteps() + RootSteps(), m, outcomes, at);
            Sound(r.machine) && (r.Through? ==> EarlyUp(r.machine) && RootIs(r.machine))
  {
    RunConcat(PseudoSteps(), RootSteps(), m, outcomes, at);
    StagePseudo(m, outcomes, at);
    var r := RunFrom(PseudoSteps(), m, outcomes, at);
    if r.Through? { StageRoot(r.machine, outcomes, at + |PseudoSteps()|); }
  }

  lemma UpToUsr(args: BootArgs, booted: Option<string>, m: Machine, outcomes: nat -> Outcome, at: nat)
    requires Sound(m)
    requires Legal(PseudoSteps() + RootSteps() + VeritySteps(args) + UsrSteps(), outcomes, booted, at)
    ensures var r := RunFrom(PseudoSteps() + RootSteps() + VeritySteps(args) + UsrSteps(), m, outcomes, at);
            Sound(r.machine) && (r.Through? ==> Underway(r.machine, args, booted))
  {
    var first := PseudoSteps() + RootSteps();
    LegalSplit(first + VeritySteps(args), UsrSteps(), outcomes, booted, at);
    LegalSplit(first, VeritySteps(args), outcomes, booted, at);
    RunConcat(first + VeritySteps(args), UsrSteps(), m, outcomes, at);
    RunConcat(first, VeritySteps(args), m, outcomes, at);
    UpToRoot(m, outcomes, at);
    var r := RunFrom(first, m, outcomes, at);
    if r.Through? {
      StageVerity(args, booted, r.machine, outcomes, at + |first|);
      var v := RunFrom(VeritySteps(args), r.machine, outcomes, at + |first|);
      if v.Through? { StageUsr(args, booted, v.machine, outcomes, at + |first + VeritySteps(args)|); }
    }
  }

  lemma FromUsrToVar(args: BootArgs, booted: Option<string>, m: Machine, outcomes: nat -> Outcome, at: nat)
    requires Underway(m, args, booted) && Legal(LinkSteps() + TmpSteps() + VarSteps(), outcomes, booted, at)
    ensures var r := RunFrom(LinkSteps() + TmpSteps() + VarSteps(), m, outcomes, at);
            Sound(r.machine) && (r.Through? ==> Ready(r.machine, args, booted))
  {
    var first := LinkSteps() + TmpSteps();
    LegalSplit(first, VarSteps(), outcomes, booted, at);
    RunConcat(first, VarSteps(), m, outcomes, at);
    RunConcat(LinkSteps(), TmpSteps(), m, outcomes, at);
    StageLinks(args, booted, m, outcomes, at);
    var l := RunFrom(LinkSteps(), m, outcomes, at);
    if l.Through? {
      StageTmp(args, booted, l.machine, outcomes, at + |LinkSteps()|);
      var r := RunFrom(TmpSteps(), l.machine, outcomes, at + |LinkSteps()|);
      if r.Through? { StageVar(args, booted, r.machine, outcomes, at + |first|); }
    }
  }

  lemma FromStateOn(args: BootArgs, action: StateAction, booted: Option<string>, m: Machine, outcomes: nat -> Outcome,
                    at: nat)
    requires Ready(m, args, booted)
    ensures var r := RunFrom([ApplyState(action)] + AfterState(), m, outcomes, at);
            && Sound(r.machine)
            && (r.Through? ==> Assembled(r.machine, args, booted) && !action.Migrate?)
  {
    RunConcat([ApplyState(action)], AfterState(), m, outcomes, at);
    StageState(action, args, booted, m, outcomes, at);
    var r := RunFrom([ApplyState(action)], m, outcomes, at);
    if r.Through? {
      RunConcat(EtcSteps(), MoveSteps(), r.machine, outcomes, at + 1);
      EtcRun(r.machine, outcomes, at + 1);
      EtcKeeps(args, booted, r.machine, outcomes, at + 1);
      var e := RunFrom(EtcSteps(), r.machine, outcomes, at + 1);
      if e.Through? { MovesKeep(args, booted, e.machine, outcomes, at + 1 + |EtcSteps()|); }
    }
  }

  function UntilUsr(args: BootArgs): seq<Step> {
    PseudoSteps() + RootSteps() + VeritySteps(args) + UsrSteps()
  }

  function UntilVar(): seq<Step> {
    LinkSteps() + TmpSteps() + VarSteps()
  }

  lemma AssemblySplits(args: BootArgs, action: StateAction)
    ensures Assembly(args, action) == UntilUsr(args) + (UntilVar() + ([ApplyState(action)] + AfterState()))
  {
  }

  lemma FromUsrOn(args: BootArgs, action: StateAction, booted: Option<string>, m: Machine, outcomes: nat -> Outcome,
                  at: nat, rest: seq<Step>)
    requires Underway(m, args, booted) && rest == [ApplyState(action)] + AfterState()
    requires Legal(UntilVar() + rest, outcomes, booted, at)
    ensures var r := RunFrom(UntilVar() + rest, m, outcomes, at);
            && Sound(r.machine)
            && (r.Through? ==> Assembled(r.machine, args, booted) && !action.Migrate?)
  {
    LegalSplit(UntilVar(), rest, outcomes, booted, at);
    RunConcat(UntilVar(), rest, m, outcomes, at);
    FromUsrToVar(args, booted, m, outcomes, at);
    var v := RunFrom(UntilVar(), m, outcomes, at);
    if v.Through? { FromStateOn(args, action, booted, v.machine, outcomes, at + |UntilVar()|); }
  }

  ghost predicate SafeEnd(r: Ran, args: BootArgs, action: StateAction, booted: Option<string>) {
    Sound(r.machine) && (r.Through? ==> Assembled(r.machine, args, booted) && !action.Migrate?)
  }

  lemma Compose(first: seq<Step>, tail: seq<Step>, args: BootArgs, action: StateAction, booted: Option<string>,
                m: Machine, outcomes: nat -> Outcome)
    requires Sound(RunFrom(first, m, outcomes, 0).machine)
    requires RunFrom(first, m, outcomes, 0).Through? ==>
               SafeEnd(RunFrom(tail, RunFrom(first, m, outcomes, 0).machine, outcomes, |first|), args, action, booted)
    ensures SafeEnd(RunFrom(first + tail, m, outcomes, 0), args, action, booted)
  {
    RunConcat(first, tail, m, outcomes, 0);
  }

  lemma FromStart(args: BootArgs, action: StateAction, booted: Option<string>, m: Machine, outcomes: nat -> Outcome,
                  rest: seq<Step>, tail: seq<Step>)
    requires Sound(m) && rest == [ApplyState(action)] + AfterState() && tail == UntilVar() + rest
    requires Legal(UntilUsr(args), outcomes, booted, 0) && Legal(tail, outcomes, booted, |UntilUsr(args)|)
    ensures Sound(RunFrom(UntilUsr(args), m, outcomes, 0).machine)
    ensures RunFrom(UntilUsr(args), m, outcomes, 0).Through? ==>
              SafeEnd(RunFrom(tail, RunFrom(UntilUsr(args), m, outcomes, 0).machine, outcomes, |UntilUsr(args)|), args,
                      action, booted)
  {
    UpToUsr(args, booted, m, outcomes, 0);
    var r := RunFrom(UntilUsr(args), m, outcomes, 0);
    if r.Through? { FromUsrOn(args, action, booted, r.machine, outcomes, |UntilUsr(args)|, rest); }
  }

  /** Whatever fails, the machine is never blind; and a run that gets as far as the switch has the
      root assembled. */
  lemma AssemblyIsSafe(args: BootArgs, action: StateAction, booted: Option<string>, m: Machine,
                       outcomes: nat -> Outcome)
    requires Sound(m) && Legal(Assembly(args, action), outcomes, booted, 0)
    ensures SafeEnd(RunFrom(Assembly(args, action), m, outcomes, 0), args, action, booted)
  {
    AssemblySplits(args, action);
    var rest := [ApplyState(action)] + AfterState();
    var tail := UntilVar() + rest;
    LegalSplit(UntilUsr(args), tail, outcomes, booted, 0);
    FromStart(args, action, booted, m, outcomes, rest, tail);
    Compose(UntilUsr(args), tail, args, action, booted, m, outcomes);
  }

  // ----- The theorems -----

  /** A mount holds a path: it is at or above it and nothing in between hides it. */
  ghost predicate LiesOn(m: Machine, p: Path, top: Path) {
    Up(m, top) && top <= p && forall q :: Under(top, q) && q <= p ==> !Up(m, q)
  }

  /** Another file system than the one that belongs there stands on a mount point of the kernel's. */
  ghost predicate TakenByOther(m: Machine) {
    || Other(m, [Dev], "devtmpfs") || Other(m, [Dev, Pts], "devpts") || Other(m, [Proc], "proc")
    || Other(m, [Sys], "sysfs") || Other(m, [Sys, Fs, Cgroup], "cgroup2") || Other(m, [Run], "tmpfs")
  }

  predicate Other(m: Machine, p: Path, fstype: string) {
    Up(m, p) && !Carries(m, p, fstype)
  }

  /** A machine on which nothing of the plan was done yet: its mount points are directories. */
  ghost predicate AtStart(m: Machine) {
    Wf(m) && !m.blind && !m.foreign && m.found == {} && m.switched.None?
  }

  lemma OnlyOthersAreForeign(steps: seq<Step>, m: Machine, i: nat)
    requires steps == PseudoSteps() && i < |steps| && FoundForeign(m, steps[i])
    ensures TakenByOther(m)
  {
  }

  lemma PseudoTargetsDiffer(steps: seq<Step>)
    requires steps == PseudoSteps()
    ensures forall i :: 0 <= i < |steps| ==> steps[i].MountPseudo?
    ensures forall i, j :: 0 <= i < j < |steps| ==> steps[i].target != steps[j].target
  {
    assert |steps[0].target| == 1 && steps[1].target == [Dev, Pts] && steps[4].target == [Sys, Fs, Cgroup];
  }

  /** What any run finds at the start. */
  lemma NotesOfRun(args: BootArgs, action: StateAction, m: Machine, outcomes: nat -> Outcome)
    requires AtStart(m)
    ensures var r := RunFrom(PlanOf(args, action), m, outcomes, 0);
            && (forall p :: p in r.machine.found ==> Up(m, p))
            && (r.machine.foreign ==> TakenByOther(m))
  {
    var steps := PseudoSteps();
    var rest := PlanStarts(args, action);
    PseudoTargetsDiffer(steps);
    NotesAfter(steps, rest, m, outcomes);
    if RunFrom(steps + rest, m, outcomes, 0).machine.foreign {
      var i :| 0 <= i < |steps| && FoundForeign(m, steps[i]);
      OnlyOthersAreForeign(steps, m, i);
    }
  }

  lemma NotesAfter(steps: seq<Step>, rest: seq<Step>, m: Machine, outcomes: nat -> Outcome)
    requires AtStart(m) && NoPseudo(rest)
    requires forall i :: 0 <= i < |steps| ==> steps[i].MountPseudo?
    requires forall i, j :: 0 <= i < j < |steps| ==> steps[i].target != steps[j].target
    ensures var r := RunFrom(steps + rest, m, outcomes, 0);
            && (forall p :: p in r.machine.found ==> Up(m, p))
            && (r.machine.foreign ==> exists i :: 0 <= i < |steps| && FoundForeign(m, steps[i]))
  {
    PseudoNotes(steps, m, outcomes, 0);
    SameNotes(steps, rest, m, outcomes);
  }

  lemma SameNotes(steps: seq<Step>, rest: seq<Step>, m: Machine, outcomes: nat -> Outcome)
    requires NoPseudo(rest)
    ensures var r, p := RunFrom(steps + rest, m, outcomes, 0).machine, RunFrom(steps, m, outcomes, 0).machine;
            r.found == p.found && r.foreign == p.foreign
  {
    var p := RunFrom(steps, m, outcomes, 0);
    if p.Through? { RunKeepsNotes(rest, p.machine, outcomes, |steps|); }
    var found, foreign := p.machine.found, p.machine.foreign;
    RunThen(steps, rest, m, outcomes, (r: Ran) => r.machine.found == found && r.machine.foreign == foreign);
  }

  lemma NoPseudoConcat(a: seq<Step>, b: seq<Step>)
    requires NoPseudo(a) && NoPseudo(b)
    ensures NoPseudo(a + b)
  {
  }

  lemma PartsMountNoPseudo(args: BootArgs, action: StateAction)
    ensures NoPseudo(RootSteps() + VeritySteps(args)) && NoPseudo(UsrSteps() + LinkSteps())
    ensures NoPseudo(TmpSteps() + VarSteps()) && NoPseudo([ApplyState(action)] + AfterState() + [SWITCH])
  {
  }

  lemma PlanStarts(args: BootArgs, action: StateAction) returns (rest: seq<Step>)
    ensures PlanOf(args, action) == PseudoSteps() + rest && NoPseudo(rest)
  {
    var a, b := RootSteps() + VeritySteps(args), UsrSteps() + LinkSteps();
    var c, d := TmpSteps() + VarSteps(), [ApplyState(action)] + AfterState() + [SWITCH];
    PartsMountNoPseudo(args, action);
    NoPseudoConcat(a, b);
    NoPseudoConcat(c, d);
    NoPseudoConcat(a + b, c + d);
    rest := (a + b) + (c + d);
    PlanIn(args, action, rest);
  }

  lemma PlanIn(args: BootArgs, action: StateAction, rest: seq<Step>)
    requires rest == RootSteps() + VeritySteps(args) + (UsrSteps() + LinkSteps())
                     + (TmpSteps() + VarSteps() + ([ApplyState(action)] + AfterState() + [SWITCH]))
    ensures PlanOf(args, action) == PseudoSteps() + rest
  {
  }

  lemma OnlyTheSwitchSwitches(args: BootArgs, action: StateAction)
    ensures NoSwitch(Assembly(args, action))
  {
  }

  /** How a run of the plan ends: switched to the assembled root, or stopped before. */
  ghost predicate SafeSwitch(r: Ran, args: BootArgs, action: StateAction, booted: Option<string>) {
    && Sound(r.machine) && (r.Through? <==> r.machine.switched.Some?)
    && (r.Through? ==>
          && Assembled(r.machine, args, booted) && !action.Migrate?
          && r.machine.switched == Some(([Sysroot], [Usr, Bin, PlexosInit])))
  }

  /** The plan's last step, on an assembled root. */
  lemma LastStep(args: BootArgs, action: StateAction, booted: Option<string>, m: Machine, outcomes: nat -> Outcome,
                 at: nat)
    requires Assembled(m, args, booted) && m.switched.None? && !action.Migrate?
    ensures SafeSwitch(RunFrom([SWITCH], m, outcomes, at), args, action, booted)
  {
    RunOne(SWITCH, m, outcomes, at);
    GroundedStep(SWITCH, m, outcomes(at));
    var next := After(SWITCH, m, outcomes(at)).0;
    assert forall p :: Up(next, p) == Up(m, p);
  }

  lemma PlanIsSafe(args: BootArgs, action: StateAction, booted: Option<string>, m: Machine, outcomes: nat -> Outcome)
    requires AtStart(m) && Legal(PlanOf(args, action), outcomes, booted, 0)
    ensures SafeSwitch(RunFrom(PlanOf(args, action), m, outcomes, 0), args, action, booted)
  {
    var steps := Assembly(args, action);
    LegalSplit(steps, [SWITCH], outcomes, booted, 0);
    AssemblyIsSafe(args, action, booted, m, outcomes);
    OnlyTheSwitchSwitches(args, action);
    SafeToSwitch(steps, args, action, booted, m, outcomes);
  }

  lemma SafeToSwitch(steps: seq<Step>, args: BootArgs, action: StateAction, booted: Option<string>, m: Machine,
                     outcomes: nat -> Outcome)
    requires AtStart(m) && NoSwitch(steps) && SafeEnd(RunFrom(steps, m, outcomes, 0), args, action, booted)
    ensures SafeSwitch(RunFrom(steps + [SWITCH], m, outcomes, 0), args, action, booted)
  {
    RunKeepsSwitched(steps, m, outcomes, 0);
    SwitchOrStop(RunFrom(steps, m, outcomes, 0), args, action, booted, outcomes, |steps|);
    RunThen(steps, [SWITCH], m, outcomes, r => SafeSwitch(r, args, action, booted));
  }

  lemma RunThen(steps: seq<Step>, last: seq<Step>, m: Machine, outcomes: nat -> Outcome, good: Ran -> bool)
    requires good(if RunFrom(steps, m, outcomes, 0).Through?
                  then RunFrom(last, RunFrom(steps, m, outcomes, 0).machine, outcomes, |steps|)
                  else RunFrom(steps, m, outcomes, 0))
    ensures good(RunFrom(steps + last, m, outcomes, 0))
  {
    RunConcat(steps, last, m, outcomes, 0);
  }

  lemma SwitchOrStop(r: Ran, args: BootArgs, action: StateAction, booted: Option<string>, outcomes: nat -> Outcome,
                     at: nat)
    requires SafeEnd(r, args, action, booted) && r.machine.switched.None?
    ensures SafeSwitch(if r.Through? then RunFrom([SWITCH], r.machine, outcomes, at) else r, args, action, booted)
  {
    if r.Through? { LastStep(args, action, booted, r.machine, outcomes, at); }
  }

  /** The root as it is switched to. `usr` and `data` are the mounts of `/usr` and `/var`. */
  ghost predicate RootFor(m: Machine, usr: Mounted, data: Mounted) {
    && m.mounts([Sysroot]) == Some(Plain("tmpfs", "tmpfs", "nosuid,nodev,mode=0755", None))
    && m.mounts([Sysroot, Tmp]) == Some(Plain("tmpfs", "tmpfs", "nosuid,nodev,mode=1777", None))
    && m.mounts([Sysroot, Usr]) == Some(usr) && m.mounts([Sysroot, Var]) == Some(data)
    && m.mounts([Sysroot, Etc])
       == Some(Overlay([Sysroot, Usr, Share, Factory, Etc], [Sysroot, Var, Lib, Plexos, Etc],
                       [Sysroot, Var, Lib, Plexos, EtcWork], Some(Held([Sysroot, Usr], usr)),
                       Some(Held([Sysroot, Var], data)), Some(Held([Sysroot, Var], data))))
  }

  ghost predicate UsrFor(usr: Mounted, args: BootArgs, booted: Option<string>) {
    && usr.Plain? && usr.source == "/dev/mapper/plexos-usr" && usr.fstype == "erofs" && Hardened(usr.options)
    && usr.device.Some? && usr.device.value.rootHash == args.rootHash
    && Labelled(booted, if args.slot.A? then "usr_a" else "usr_b", usr.device.value.data)
    && Labelled(booted, if args.slot.A? then "usr_a_hash" else "usr_b_hash", usr.device.value.hash)
  }

  ghost predicate VarFor(data: Mounted, booted: Option<string>) {
    && data.Plain? && data.fstype == "xfs" && Writable(data.options) && Labelled(booted, "var", data.source)
  }

  lemma LabelAfter(prefix: string, name: string)
    ensures StartsWith(prefix + name, prefix) && (prefix + name)[|prefix|..] == name
  {
  }

  lemma LabelsAre(slot: Slot)
    ensures IsLabel(UsrDevice(slot)) && UsrDevice(slot)[|BY_PARTLABEL|..] == if slot.A? then "usr_a" else "usr_b"
    ensures IsLabel(VerityDevice(slot))
    ensures VerityDevice(slot)[|BY_PARTLABEL|..] == if slot.A? then "usr_a_hash" else "usr_b_hash"
    ensures IsLabel(VarSource()) && VarSource()[|BY_PARTLABEL|..] == "var"
  {
    LabelAfter(BY_PARTLABEL, UsrLabel(slot));
    LabelAfter(BY_PARTLABEL, VerityLabel(slot));
    LabelAfter(BY_PARTLABEL, LABEL_VAR);
  }

  lemma UsrSourceIs()
    ensures UsrSource() == "/dev/mapper/plexos-usr"
  {
    assert MAPPER_DIR + VERITY_MAPPER_NAME == "/dev/mapper/plexos-usr";
  }

  lemma UsrIsFor(m: Machine, args: BootArgs, booted: Option<string>)
    requires UsrIs(m, args, booted)
    ensures UsrFor(m.mounts(USR).value, args, booted)
  {
    LabelsAre(args.slot);
    UsrSourceIs();
    MountOptions.UsrOptions();
  }

  lemma VarIsFor(m: Machine, booted: Option<string>)
    requires VarIs(m, booted)
    ensures VarFor(m.mounts(VAR).value, booted)
  {
    LabelsAre(A);
    MountOptions.VarOptions();
  }

  /** From any machine whose mount points are directories, whatever is mounted or mapped there already,
      whichever steps fail and whatever the labels resolve to, no step is ever blind, unless another
      file system stands on one of the kernel's mount points at the start; and the switch happens
      exactly when every step succeeds. Then
      - it is to the assembled root and its own init;
      - `/usr` is mounted read-only, without devices and set-user-id, and when it was mounted its
        source was a verity device on the slot's own two partitions, on the booted disk when it is
        known, that checks the last hash on the command line;
      - the lower layer of `/etc` was on that very mount when the overlay was made, the upper layer
        and work directory on the labelled `/var` that is still mounted, and nothing hides them since;
      - the root is a tmpfs with a `/tmp` open to all and the four links of the merged `/usr`, and each
        of the kernel's file systems is in its place in it, as it was mounted by the plan or found. */
  lemma SwitchMeansVerified(cmdline: string, action: StateAction, booted: Option<string>, m: Machine,
                            outcomes: nat -> Outcome)
    requires ArgsOf(Words(cmdline)).Ok? && AtStart(m)
    requires Legal(PlanOf(ArgsOf(Words(cmdline)).value, action), outcomes, booted, 0)
    ensures var args := ArgsOf(Words(cmdline)).value;
            var r := RunFrom(PlanOf(args, action), m, outcomes, 0);
            && (r.machine.blind ==> TakenByOther(m))
            && (r.Through? <==> r.machine.switched.Some?)
            && (r.Through? ==>
                  && Switched(m, r.machine, args, booted) && FoundIsKept(m, r.machine)
                  && r.machine.clock == Some([Sysroot, Usr, Lib, OsRelease])
                  && r.machine.stamp == if action.Initialise? then Some(([Sysroot, Var, Lib, Plexos], action.to))
                     else m.stamp)
    ensures exists i :: LastSaid(Words(cmdline), i, KEY_ROOTHASH + "=", ArgsOf(Words(cmdline)).value.rootHash)
  {
    var args := ArgsOf(Words(cmdline)).value;
    AcceptedSaysItLast(Words(cmdline));
    PlanIsSafe(args, action, booted, m, outcomes);
    NotesOfRun(args, action, m, outcomes);
    var r := RunFrom(PlanOf(args, action), m, outcomes, 0);
    if r.Through? {
      AssembledIsSwitched(m, r.machine, args, booted);
      FoundIsCarried(args, action, m, outcomes);
      ClockOfRun(args, action, m, outcomes);
      StampOfRun(args, action, m, outcomes);
    }
  }

  lemma {:induction false} RunKeepsClock(steps: seq<Step>, m: Machine, outcomes: nat -> Outcome, at: nat)
    requires ClockFree(steps)
    ensures RunFrom(steps, m, outcomes, at).machine.clock == m.clock
    decreases |steps|
  {
    if steps != [] {
      var (next, ok) := After(steps[0], m, outcomes(at));
      assert next.clock == m.clock;
      if ok { RunKeepsClock(steps[1..], next, outcomes, at + 1); }
    }
  }

  lemma {:induction false} RunKeepsStamp(steps: seq<Step>, m: Machine, outcomes: nat -> Outcome, at: nat)
    requires forall i :: 0 <= i < |steps| ==> !steps[i].ApplyState?
    ensures RunFrom(steps, m, outcomes, at).machine.stamp == m.stamp
    decreases |steps|
  {
    if steps != [] {
      var (next, ok) := After(steps[0], m, outcomes(at));
      assert next.stamp == m.stamp;
      if ok { RunKeepsStamp(steps[1..], next, outcomes, at + 1); }
    }
  }

  /** A run that gets through took this step on the way. */
  lemma ThroughStep(before: seq<Step>, step: Step, after: seq<Step>, m: Machine, outcomes: nat -> Outcome)
    returns (x: Machine)
    requires RunFrom(before + ([step] + after), m, outcomes, 0).Through?
    ensures RunFrom(before, m, outcomes, 0) == Through(x) && After(step, x, outcomes(|before|)).1
    ensures RunFrom(before + ([step] + after), m, outcomes, 0)
         == RunFrom(after, After(step, x, outcomes(|before|)).0, outcomes, |before| + 1)
  {
    RunConcat(before, [step] + after, m, outcomes, 0);
    x := RunFrom(before, m, outcomes, 0).machine;
    RunConcat([step], after, x, outcomes, |before|);
    RunOne(step, x, outcomes, |before|);
  }

  lemma ClockOfRun(args: BootArgs, action: StateAction, m: Machine, outcomes: nat -> Outcome)
    requires RunFrom(PlanOf(args, action), m, outcomes, 0).Through?
    ensures RunFrom(PlanOf(args, action), m, outcomes, 0).machine.clock == Some([Sysroot, Usr, Lib, OsRelease])
  {
    var step := RaiseClock([Sysroot, Usr, Lib, OsRelease]);
    var after := PlanAroundClock(args, action, step);
    ClockFrom(UntilUsr(args), step, after, m, outcomes);
  }

  lemma ClockFrom(before: seq<Step>, step: Step, after: seq<Step>, m: Machine, outcomes: nat -> Outcome)
    requires step.RaiseClock? && RunFrom(before + ([step] + after), m, outcomes, 0).Through?
    requires ClockFree(after)
    ensures RunFrom(before + ([step] + after), m, outcomes, 0).machine.clock == Some(step.osRelease)
  {
    var x := ThroughStep(before, step, after, m, outcomes);
    RunKeepsClock(after, After(step, x, outcomes(|before|)).0, outcomes, |before| + 1);
  }

  lemma PlanAroundClock(args: BootArgs, action: StateAction, step: Step) returns (after: seq<Step>)
    requires step == RaiseClock([Sysroot, Usr, Lib, OsRelease])
    ensures PlanOf(args, action) == UntilUsr(args) + ([step] + after) && ClockFree(after)
  {
    var links := LinkSteps();
    var rest := TmpSteps() + VarSteps() + [ApplyState(action)] + AfterState() + [SWITCH];
    assert links[0] == step && links == [step] + links[1..];
    after := links[1..] + rest;
    NoOtherClock(action);
    ClockFreeConcat(links[1..], rest);
    ClockInPlan(args, action, links + rest, rest);
    assert links + rest == [step] + after;
  }

  predicate ClockFree(steps: seq<Step>) {
    forall i :: 0 <= i < |steps| ==> !steps[i].RaiseClock?
  }

  lemma ClockFreeConcat(a: seq<Step>, b: seq<Step>)
    requires ClockFree(a) && ClockFree(b)
    ensures ClockFree(a + b)
  {
  }

  lemma ClockInPlan(args: BootArgs, action: StateAction, both: seq<Step>, rest: seq<Step>)
    requires both == LinkSteps() + rest
    requires rest == TmpSteps() + VarSteps() + [ApplyState(action)] + AfterState() + [SWITCH]
    ensures PlanOf(args, action) == UntilUsr(args) + both
  {
  }

  lemma NoOtherClock(action: StateAction)
    ensures ClockFree(LinkSteps()[1..])
    ensures ClockFree(TmpSteps() + VarSteps() + [ApplyState(action)] + AfterState() + [SWITCH])
  {
  }

  lemma StampOfRun(args: BootArgs, action: StateAction, m: Machine, outcomes: nat -> Outcome)
    requires RunFrom(PlanOf(args, action), m, outcomes, 0).Through?
    ensures RunFrom(PlanOf(args, action), m, outcomes, 0).machine.stamp
         == if action.Initialise? then Some(([Sysroot, Var, Lib, Plexos], action.to)) else m.stamp
  {
    PlanAroundState(args, action);
    NoOtherStamp(args);
    StampFrom(BeforeState(args), action, AfterState() + [SWITCH], m, outcomes);
  }

  lemma NoOtherStamp(args: BootArgs)
    ensures forall i :: 0 <= i < |BeforeState(args)| ==> !BeforeState(args)[i].ApplyState?
    ensures forall i :: 0 <= i < |AfterState() + [SWITCH]| ==> !(AfterState() + [SWITCH])[i].ApplyState?
  {
  }

  lemma StampFrom(before: seq<Step>, action: StateAction, after: seq<Step>, m: Machine, outcomes: nat -> Outcome)
    requires RunFrom(before + ([ApplyState(action)] + after), m, outcomes, 0).Through?
    requires forall i :: 0 <= i < |before| ==> !before[i].ApplyState?
    requires forall i :: 0 <= i < |after| ==> !after[i].ApplyState?
    ensures RunFrom(before + ([ApplyState(action)] + after), m, outcomes, 0).machine.stamp
         == if action.Initialise? then Some(([Sysroot, Var, Lib, Plexos], action.to)) else m.stamp
  {
    var x := ThroughStep(before, ApplyState(action), after, m, outcomes);
    RunKeepsStamp(before, m, outcomes, 0);
    RunKeepsStamp(after, After(ApplyState(action), x, outcomes(|before|)).0, outcomes, |before| + 1);
  }

  // ----- What was mounted before stays -----

  /** A mount stays when each step on it or above it finds its own place taken. */
  lemma {:induction false} PseudoLeaves(steps: seq<Step>, m: Machine, outcomes: nat -> Outcome, at: nat, p: Path)
    requires forall i :: 0 <= i < |steps| ==> steps[i].MountPseudo? && (steps[i].target <= p ==> Up(m, steps[i].target))
    requires Up(m, p)
    ensures RunFrom(steps, m, outcomes, at).machine.mounts(p) == m.mounts(p)
    decreases |steps|
  {
    if steps != [] {
      var (next, ok) := After(steps[0], m, outcomes(at));
      if ok {
        assert next.mounts(p) == m.mounts(p);
        forall i | 0 < i < |steps| && steps[i].target <= p
          ensures Up(next, steps[i].target)
        {
          assert Up(m, steps[i].target);
          if Under(steps[0].target, steps[i].target) { PrefixTrans(steps[0].target, steps[i].target, p); }
        }
        PseudoLeaves(steps[1..], next, outcomes, at + 1, p);
      }
    }
  }

  lemma PrefixTrans(a: Path, b: Path, c: Path)
    requires a <= b && b <= c
    ensures a <= c
  {
    assert c[..|a|] == b[..|a|];
  }

  /** A run of two parts that gets through both. */
  lemma ThroughSplit(a: seq<Step>, b: seq<Step>, m: Machine, outcomes: nat -> Outcome, at: nat) returns (x: Machine)
    requires RunFrom(a + b, m, outcomes, at).Through?
    ensures RunFrom(a, m, outcomes, at) == Through(x)
    ensures RunFrom(a + b, m, outcomes, at) == RunFrom(b, x, outcomes, at + |a|)
  {
    RunConcat(a, b, m, outcomes, at);
    x := RunFrom(a, m, outcomes, at).machine;
  }

  /** The plan between the kernel's file systems and the moves. */
  function Middle(args: BootArgs, action: StateAction): seq<Step> {
    RootSteps() + VeritySteps(args) + UsrSteps() + (LinkSteps() + TmpSteps() + VarSteps())
    + ([ApplyState(action)] + EtcSteps())
  }

  lemma MiddleIsInSysroot(args: BootArgs, action: StateAction)
    ensures AllInSysroot(Middle(args, action))
  {
    assert AllInSysroot(RootSteps() + VeritySteps(args) + UsrSteps());
    assert AllInSysroot(LinkSteps() + TmpSteps() + VarSteps());
    assert AllInSysroot([ApplyState(action)] + EtcSteps());
  }

  lemma PlanInParts(args: BootArgs, action: StateAction)
    ensures PlanOf(args, action) == PseudoSteps() + (Middle(args, action) + (MoveSteps() + [SWITCH]))
  {
  }

  /** The kernel's file systems arrive in the new root as the first steps left them. */
  lemma KernelArrives(args: BootArgs, action: StateAction, m: Machine, outcomes: nat -> Outcome)
    requires RunFrom(PlanOf(args, action), m, outcomes, 0).Through?
    ensures RunFrom(PseudoSteps(), m, outcomes, 0).Through?
    ensures SameSix(RunFrom(PseudoSteps(), m, outcomes, 0).machine,
                    RunFrom(PlanOf(args, action), m, outcomes, 0).machine)
  {
    var middle := Middle(args, action);
    PlanInParts(args, action);
    MiddleIsInSysroot(args, action);
    ArrivesAfter(PseudoSteps(), middle, m, outcomes);
  }

  lemma ArrivesAfter(first: seq<Step>, middle: seq<Step>, m: Machine, outcomes: nat -> Outcome)
    requires AllInSysroot(middle) && RunFrom(first + (middle + (MoveSteps() + [SWITCH])), m, outcomes, 0).Through?
    ensures RunFrom(first, m, outcomes, 0).Through?
    ensures SameSix(RunFrom(first, m, outcomes, 0).machine,
                    RunFrom(first + (middle + (MoveSteps() + [SWITCH])), m, outcomes, 0).machine)
  {
    var x := ThroughSplit(first, middle + (MoveSteps() + [SWITCH]), m, outcomes, 0);
    ArrivesFrom(middle, MoveSteps() + [SWITCH], x, outcomes, |first|);
  }

  lemma ArrivesFrom(middle: seq<Step>, last: seq<Step>, x: Machine, outcomes: nat -> Outcome, at: nat)
    requires AllInSysroot(middle) && last == MoveSteps() + [SWITCH]
    requires RunFrom(middle + last, x, outcomes, at).Through?
    ensures SameSix(x, RunFrom(middle + last, x, outcomes, at).machine)
  {
    var y := ThroughSplit(middle, last, x, outcomes, at);
    SixAreSpared(middle, x, outcomes, at);
    MovedAndSwitched(last, y, outcomes, at + |middle|);
  }

  lemma MovedAndSwitched(last: seq<Step>, y: Machine, outcomes: nat -> Outcome, at: nat)
    requires last == MoveSteps() + [SWITCH] && RunFrom(last, y, outcomes, at).Through?
    ensures SameSix(y, RunFrom(last, y, outcomes, at).machine)
  {
    var moves := MoveSteps();
    var z := ThroughSplit(moves, [SWITCH], y, outcomes, at);
    SixAreCarried(y, outcomes, at);
    SwitchKeepsMounts(z, outcomes, at + |moves|);
  }

  lemma SwitchKeepsMounts(m: Machine, outcomes: nat -> Outcome, at: nat)
    ensures RunFrom([SWITCH], m, outcomes, at).machine.mounts == m.mounts
  {
    RunOne(SWITCH, m, outcomes, at);
  }

  /** What was mounted on the kernel's mount points before is carried over, not covered. */
  ghost predicate FoundIsKept(start: Machine, m: Machine) {
    && (Up(start, [Dev]) ==> m.mounts([Sysroot, Dev]) == start.mounts([Dev]))
    && (Up(start, [Dev]) && Up(start, [Dev, Pts]) ==> m.mounts([Sysroot, Dev, Pts]) == start.mounts([Dev, Pts]))
    && (Up(start, [Proc]) ==> m.mounts([Sysroot, Proc]) == start.mounts([Proc]))
    && (Up(start, [Sys]) ==> m.mounts([Sysroot, Sys]) == start.mounts([Sys]))
    && (Up(start, [Sys]) && Up(start, [Sys, Fs, Cgroup]) ==>
          m.mounts([Sysroot, Sys, Fs, Cgroup]) == start.mounts([Sys, Fs, Cgroup]))
    && (Up(start, [Run]) ==> m.mounts([Sysroot, Run]) == start.mounts([Run]))
  }

  lemma PseudoLeavesOne(m: Machine, outcomes: nat -> Outcome, p: Path)
    requires Up(m, p)
    requires forall i :: 0 <= i < |PseudoSteps()| && PseudoSteps()[i].target <= p ==> Up(m, PseudoSteps()[i].target)
    ensures RunFrom(PseudoSteps(), m, outcomes, 0).machine.mounts(p) == m.mounts(p)
  {
    PseudoLeaves(PseudoSteps(), m, outcomes, 0, p);
  }

  lemma AboveIs(p: Path, i: nat)
    requires i < |PseudoSteps()| && PseudoSteps()[i].target <= p
    requires p in {[Dev], [Dev, Pts], [Proc], [Sys], [Sys, Fs, Cgroup], [Run]}
    ensures PseudoSteps()[i].target == p || (PseudoSteps()[i].target == [Dev] && p == [Dev, Pts])
            || (PseudoSteps()[i].target == [Sys] && p == [Sys, Fs, Cgroup])
  {
    var target := PseudoSteps()[i].target;
    assert target[0] == p[0] && |target| <= |p|;
  }

  lemma LeftInPlace(m: Machine, outcomes: nat -> Outcome, p: Path, above: Path)
    requires p in {[Dev], [Dev, Pts], [Proc], [Sys], [Sys, Fs, Cgroup], [Run]} && above == [p[0]]
    requires Up(m, p) && Up(m, above)
    ensures RunFrom(PseudoSteps(), m, outcomes, 0).machine.mounts(p) == m.mounts(p)
  {
    forall i | 0 <= i < |PseudoSteps()| && PseudoSteps()[i].target <= p
      ensures Up(m, PseudoSteps()[i].target)
    {
      AboveIs(p, i);
    }
    PseudoLeavesOne(m, outcomes, p);
  }

  lemma FoundIsCarried(args: BootArgs, action: StateAction, m: Machine, outcomes: nat -> Outcome)
    requires RunFrom(PlanOf(args, action), m, outcomes, 0).Through?
    ensures FoundIsKept(m, RunFrom(PlanOf(args, action), m, outcomes, 0).machine)
  {
    KernelArrives(args, action, m, outcomes);
    if Up(m, [Dev]) {
      LeftInPlace(m, outcomes, [Dev], [Dev]);
      if Up(m, [Dev, Pts]) { LeftInPlace(m, outcomes, [Dev, Pts], [Dev]); }
    }
    if Up(m, [Proc]) { LeftInPlace(m, outcomes, [Proc], [Proc]); }
    if Up(m, [Sys]) {
      LeftInPlace(m, outcomes, [Sys], [Sys]);
      if Up(m, [Sys, Fs, Cgroup]) { LeftInPlace(m, outcomes, [Sys, Fs, Cgroup], [Sys]); }
    }
    if Up(m, [Run]) { LeftInPlace(m, outcomes, [Run], [Run]); }
  }

  /** What the switch leaves, from a machine that was `start`. */
  ghost predicate Switched(start: Machine, m: Machine, args: BootArgs, booted: Option<string>) {
    && m.switched == Some(([Sysroot], [Usr, Bin, PlexosInit]))
    && (exists usr, data :: RootFor(m, usr, data) && UsrFor(usr, args, booted) && VarFor(data, booted))
    && LiesOn(m, ETC_FACTORY, USR) && LiesOn(m, ETC_UPPER, VAR) && LiesOn(m, ETC_WORK, VAR)
    && LinksAre(m) && CarriedOver(m)
    && (forall p :: p in m.found ==> Up(start, p)) && (m.foreign ==> TakenByOther(start))
  }

  lemma AssembledIsSwitched(start: Machine, m: Machine, args: BootArgs, booted: Option<string>)
    requires Assembled(m, args, booted) && m.switched == Some(([Sysroot], [Usr, Bin, PlexosInit]))
    requires (forall p :: p in m.found ==> Up(start, p)) && (m.foreign ==> TakenByOther(start))
    ensures Switched(start, m, args, booted)
  {
    UsrIsFor(m, args, booted);
    VarIsFor(m, booted);
    assert RootFor(m, m.mounts(USR).value, m.mounts(VAR).value);
  }

  /** `MS_NODEV` and `MS_NOSUID`: no devices, no set-user-id; `MS_RDONLY` is the bit below. */
  predicate Contained(options: string) {
    MountOptions.Has(MountOptions.BitsOf(options), 4) && MountOptions.Has(MountOptions.BitsOf(options), 2)
  }

  predicate Hardened(options: string) {
    Contained(options) && MountOptions.Has(MountOptions.BitsOf(options), 1)
  }

  predicate Writable(options: string) {
    Contained(options) && !MountOptions.Has(MountOptions.BitsOf(options), 1)
  }

  /** A missing migration never reaches the switch. */
  lemma MigrateNeverSwitches(args: BootArgs, origin: nat, to: nat, m: Machine, outcomes: nat -> Outcome)
    ensures RunFrom(PlanOf(args, Migrate(origin, to)), m, outcomes, 0).Failed?
    ensures RunFrom(PlanOf(args, Migrate(origin, to)), m, outcomes, 0).at <= |BeforeState(args)|
  {
    PlanAroundState(args, Migrate(origin, to));
    StopsAtMigration(BeforeState(args), AfterState() + [SWITCH], origin, to, m, outcomes);
  }

  lemma StopsAtMigration(before: seq<Step>, rest: seq<Step>, origin: nat, to: nat, m: Machine, outcomes: nat -> Outcome)
    ensures var r := RunFrom(before + ([ApplyState(Migrate(origin, to))] + rest), m, outcomes, 0);
            r.Failed? && r.at <= |before|
  {
    var step := ApplyState(Migrate(origin, to));
    RunConcat(before, [step] + rest, m, outcomes, 0);
    StopsWithin(before, m, outcomes, 0);
    var r := RunFrom(before, m, outcomes, 0);
    if r.Through? {
      RunConcat([step], rest, r.machine, outcomes, |before|);
      RunOne(step, r.machine, outcomes, |before|);
    }
  }

  lemma {:induction false} StopsWithin(steps: seq<Step>, m: Machine, outcomes: nat -> Outcome, at: nat)
    ensures RunFrom(steps, m, outcomes, at).Failed? ==>
              at <= RunFrom(steps, m, outcomes, at).at < at + |steps|
    decreases |steps|
  {
    if steps != [] {
      var (next, ok) := After(steps[0], m, outcomes(at));
      if ok { StopsWithin(steps[1..], next, outcomes, at + 1); }
    }
  }

  lemma SwapAction(before: seq<Step>, rest: seq<Step>, a: StateAction, b: StateAction, m: Machine,
                   outcomes: nat -> Outcome)
    requires (a.Proceed? || a.RestoreForRollback?) && (b.Proceed? || b.RestoreForRollback?)
    ensures RunFrom(before + ([ApplyState(a)] + rest), m, outcomes, 0)
         == RunFrom(before + ([ApplyState(b)] + rest), m, outcomes, 0)
  {
    RunConcat(before, [ApplyState(a)] + rest, m, outcomes, 0);
    RunConcat(before, [ApplyState(b)] + rest, m, outcomes, 0);
    var r := RunFrom(before, m, outcomes, 0);
    if r.Through? {
      RunConcat([ApplyState(a)], rest, r.machine, outcomes, |before|);
      RunConcat([ApplyState(b)], rest, r.machine, outcomes, |before|);
      RunOne(ApplyState(a), r.machine, outcomes, |before|);
      RunOne(ApplyState(b), r.machine, outcomes, |before|);
    }
  }

  lemma PlanAroundState(args: BootArgs, action: StateAction)
    ensures PlanOf(args, action) == BeforeState(args) + ([ApplyState(action)] + (AfterState() + [SWITCH]))
  {
  }

  /** A rollback never stops the boot: every run ends exactly as it would have, had the state been
      current. */
  lemma RollbackRunsLikeProceed(args: BootArgs, found: nat, expected: nat, m: Machine, outcomes: nat -> Outcome)
    ensures RunFrom(PlanOf(args, RestoreForRollback(found, expected)), m, outcomes, 0)
         == RunFrom(PlanOf(args, Proceed), m, outcomes, 0)
  {
    PlanAroundState(args, RestoreForRollback(found, expected));
    PlanAroundState(args, Proceed);
    SwapAction(BeforeState(args), AfterState() + [SWITCH], RestoreForRollback(found, expected), Proceed, m, outcomes);
  }

  /** A run stops at its first failure: every step before it succeeded, and the machine is as that
      step left it. */
  lemma {:induction false} FirstFailureEnds(steps: seq<Step>, m: Machine, outcomes: nat -> Outcome, at: nat)
    requires RunFrom(steps, m, outcomes, at).Failed?
    ensures at <= RunFrom(steps, m, outcomes, at).at < at + |steps|
    ensures var k := RunFrom(steps, m, outcomes, at).at - at;
            && RunFrom(steps[..k], m, outcomes, at).Through?
            && After(steps[k], RunFrom(steps[..k], m, outcomes, at).machine, outcomes(at + k))
               == (RunFrom(steps, m, outcomes, at).machine, false)
    decreases |steps|
  {
    var (next, ok) := After(steps[0], m, outcomes(at));
    if ok {
      FirstFailureEnds(steps[1..], next, outcomes, at + 1);
      var k := RunFrom(steps, m, outcomes, at).at - at;
      assert steps[..k][1..] == steps[1..][..k - 1] && steps[..k][0] == steps[0];
    }
  }

  // ----- The two orders the plan depends on -----

  lemma {:induction false} BlindStays(steps: seq<Step>, m: Machine, outcomes: nat -> Outcome, at: nat)
    requires m.blind
    ensures RunFrom(steps, m, outcomes, at).machine.blind
    decreases |steps|
  {
    if steps != [] {
      var (next, ok) := After(steps[0], m, outcomes(at));
      assert next.blind;
      if ok { BlindStays(steps[1..], next, outcomes, at + 1); }
    }
  }

  /** With `/usr` mounted before its device is opened, every run that gets as far is blind. */
  lemma UsrBeforeVerity(args: BootArgs, m: Machine, outcomes: nat -> Outcome, at: nat)
    requires VERITY_MAPPER_NAME !in m.mapper
    ensures var r := RunFrom(UsrSteps() + VeritySteps(args), m, outcomes, at);
            (r.Failed? && r.at == at) || r.machine.blind
  {
    Sources();
    var a, b := UsrSteps()[0], UsrSteps()[1];
    assert UsrSteps() + VeritySteps(args) == [a] + ([b] + VeritySteps(args));
    RunConcat([a], [b] + VeritySteps(args), m, outcomes, at);
    RunOne(a, m, outcomes, at);
    var (next, ok) := After(a, m, outcomes(at));
    if ok {
      RunConcat([b], VeritySteps(args), next, outcomes, at + 1);
      RunOne(b, next, outcomes, at + 1);
      var (last, fine) := After(b, next, outcomes(at + 1));
      assert last.blind;
      if fine { BlindStays(VeritySteps(args), last, outcomes, at + 2); }
    }
  }

  lemma {:induction false} HolderIsUp(m: Machine, p: Path)
    ensures Holder(m, p).Some? ==> Up(m, Holder(m, p).value.point)
    decreases |p|
  {
    if !Up(m, p) && p != [] { HolderIsUp(m, p[..|p| - 1]); }
  }

  /** An overlay made before `/var` is mounted is never one on the `/var` that is mounted later. */
  lemma EtcBeforeVar(later: seq<Step>, m: Machine, o: Outcome, outcomes: nat -> Outcome, at: nat)
    requires !Up(m, VAR) && AllSpare(later, ETC)
    requires After(EtcSteps()[2], m, o).1
    ensures !EtcIs(RunFrom(later, After(EtcSteps()[2], m, o).0, outcomes, at).machine)
  {
    HolderIsUp(m, ETC_UPPER);
    var made := After(EtcSteps()[2], m, o).0;
    assert made.mounts(ETC) == Some(OverlayMount(m, ETC_FACTORY, ETC_UPPER, ETC_WORK));
    RunSpares(later, made, outcomes, at, ETC);
  }

  // ----- A boot in which nothing goes wrong -----

  predicate NoMigration(steps: seq<Step>) {
    forall i :: 0 <= i < |steps| ==> steps[i].ApplyState? ==> !steps[i].action.Migrate?
  }

  /** What the step needs of the outside world. */
  predicate Needed(step: Step, o: Outcome) {
    match step
    case MountPseudo(_, _, _) => o.made && o.did
    case CreateDir(_) => o.made
    case Symlink(_, _) => o.did || o.existed
    case SetupVerity(_, _, _, _) => o.first.Some? && o.second.Some? && o.did
    case Mount(source, _, _, _) => (IsLabel(source) ==> o.first.Some?) && o.did
    case MountOverlay(_, _, _, _) => o.made && o.did
    case RaiseClock(_) => true
    case ApplyState(action) => action.Initialise? ==> o.did
    case MoveMount(_, _) => o.made && o.did
    case SwitchRoot(_, _) => o.did
  }

  predicate AllNeeded(steps: seq<Step>, outcomes: nat -> Outcome, at: nat) {
    forall i :: 0 <= i < |steps| ==> Needed(steps[i], outcomes(at + i))
  }

  lemma {:induction false} GoodRun(steps: seq<Step>, m: Machine, outcomes: nat -> Outcome, at: nat)
    requires NoMigration(steps) && AllNeeded(steps, outcomes, at)
    ensures RunFrom(steps, m, outcomes, at).Through?
    decreases |steps|
  {
    if steps != [] {
      assert Needed(steps[0], outcomes(at + 0));
      assert After(steps[0], m, outcomes(at)).1;
      forall i | 0 <= i < |steps| - 1
        ensures Needed(steps[1..][i], outcomes(at + 1 + i))
      {
        assert Needed(steps[i + 1], outcomes(at + (i + 1)));
      }
      GoodRun(steps[1..], After(steps[0], m, outcomes(at)).0, outcomes, at + 1);
    }
  }

  lemma PartsHaveNoMigration(args: BootArgs)
    ensures NoMigration(BeforeState(args)) && NoMigration(AfterState() + [SWITCH])
  {
  }

  /** Where every step gets what it needs, only a missing migration keeps the switch from happening: a link
      that is there already, a mount found in place and a clock that cannot be set do not. */
  lemma OnlyMigrationStopsAGoodBoot(args: BootArgs, action: StateAction, m: Machine, outcomes: nat -> Outcome)
    requires AllNeeded(PlanOf(args, action), outcomes, 0)
    ensures RunFrom(PlanOf(args, action), m, outcomes, 0).Through? <==> !action.Migrate?
  {
    PlanAroundState(args, action);
    PartsHaveNoMigration(args);
    if action.Migrate? {
      var Migrate(origin, to) := action;
      StopsAtMigration(BeforeState(args), AfterState() + [SWITCH], origin, to, m, outcomes);
    } else {
      assert NoMigration([ApplyState(action)] + (AfterState() + [SWITCH]));
      GoodRun(PlanOf(args, action), m, outcomes, 0);
    }
  }
}
