/** Performing the boot plan on an abstract mount namespace, with every step free to fail. */
module BootRun {
  import opened Wrappers
  import opened Text
  import opened Partition
  import opened Cmdline
  import opened BootPlan

  /** A live dm-verity device: the two partitions it was opened on and the hash it checks. */
  datatype Verity = Verity(data: string, hash: string, rootHash: string)

  /** A mount remembers what it was made of: the device-mapper device its source named at that
      moment, or the mounts its layers were on. */
  datatype Mounted =
    | Plain(source: string, fstype: string, options: string, device: Option<Verity>)
    | Overlay(lower: Path, upper: Path, work: Path, lowerOn: Option<Held>, upperOn: Option<Held>, workOn: Option<Held>)

  /** A mount and where it is. */
  datatype Held = Held(point: Path, mounted: Mounted)

  /** What is known of the name of a link: nothing, the link that was made, or that something was
      there already. */
  datatype Link = Unknown | LinkTo(to: Path) | Taken

  /** What is visibly mounted at each path, which paths are known to be directories and what of links,
      and the device-mapper devices.

      `blind`: a step was issued on a mount point, a layer, a device or a moved mount that was not
      there, on a label with sysfs or devtmpfs not mounted, or on a build stamp that was not on a
      verified image. `found`: the mount points of the kernel's file systems on which something was
      mounted already, and `foreign`: on one of them it was another file system. `clock`: the file the
      clock was last raised from, `stamp`: the directory a state version was last written in, and
      which. `switched`: the root and the program that were switched to. */
  datatype Machine = Machine(mounts: Path -> Option<Mounted>, dirs: Path -> bool, links: Path -> Link,
                             mapper: map<string, Verity>, blind: bool, found: set<Path>, foreign: bool,
                             clock: Option<Path>, stamp: Option<(Path, nat)>, switched: Option<(Path, Path)>)

  /** How the outside world answers one step: whether its directory can be made, what its device
      names resolve to, whether its operation succeeds, whether a link is already there. */
  datatype Outcome = Outcome(made: bool, first: Option<string>, second: Option<string>, did: bool, existed: bool)

  predicate Up(m: Machine, p: Path) { m.mounts(p).Some? }

  predicate Under(top: Path, p: Path) { top < p }

  /** The mount a path is on. */
  function Holder(m: Machine, p: Path): Option<Held>
    decreases |p|
  {
    if Up(m, p) then Some(Held(p, m.mounts(p).value))
    else if p == [] then None
    else Holder(m, p[..|p| - 1])
  }

  // ----- The namespace -----

  /** Making a directory with its parents. */
  function Made(m: Machine, p: Path): Machine {
    m.(dirs := q => m.dirs(q) || q <= p)
  }

  /** A mount hides whatever was mounted, or known to exist, below its point. */
  function MountedAt(m: Machine, p: Path, what: Mounted): Machine {
    m.(mounts := q => if q == p then Some(what) else if Under(p, q) then None else m.mounts(q),
       dirs := q => (m.dirs(q) && !Under(p, q)),
       links := q => if Under(p, q) then Unknown else m.links(q),
       blind := m.blind || !m.dirs(p))
  }

  /** Moving a mount takes everything below it along and hides what was below the target. */
  function MovedTo(m: Machine, origin: Path, target: Path): Machine {
    m.(mounts := q => if target <= q then m.mounts(origin + q[|target|..])
                      else if origin <= q then None
                      else m.mounts(q),
       dirs := q => if Under(target, q) then m.dirs(origin + q[|target|..])
                    else (m.dirs(q) && !Under(origin, q)),
       links := q => if Under(target, q) then m.links(origin + q[|target|..])
                     else if Under(origin, q) then Unknown else m.links(q),
       blind := m.blind || !Up(m, origin) || !m.dirs(target))
  }

  /** A link made, or something found where it should be. */
  function Linked(m: Machine, p: Path, to: Path, made: bool): Machine {
    m.(links := q => if q != p then m.links(q) else if made then LinkTo(to) else Taken)
  }

  /** A file system of this type is mounted there. */
  predicate Carries(m: Machine, p: Path, fstype: string) {
    m.mounts(p).Some? && m.mounts(p).value.Plain? && m.mounts(p).value.fstype == fstype
  }

  /** A mount found where a file system of this type was to be mounted. */
  function Noticed(m: Machine, p: Path, fstype: string): Machine {
    m.(found := m.found + {p}, foreign := m.foreign || !Carries(m, p, fstype))
  }

  function Blinded(m: Machine, missing: bool): Machine {
    m.(blind := m.blind || missing)
  }

  predicate IsLabel(source: string) {
    StartsWith(source, BY_PARTLABEL)
  }

  /** `resolve_on`: a label is looked up, any other name stands for itself. */
  function Resolved(source: string, answer: Option<string>): Option<string> {
    if IsLabel(source) then answer else Some(source)
  }

  predicate IsMapped(source: string) {
    StartsWith(source, MAPPER_DIR)
  }

  /** The device-mapper device a source names. */
  function DeviceBehind(m: Machine, source: string): Option<Verity> {
    if IsMapped(source) && source[|MAPPER_DIR|..] in m.mapper then Some(m.mapper[source[|MAPPER_DIR|..]]) else None
  }

  /** A label is looked up in sysfs and stands for a node in `/dev`; a mapped source needs its node
      and its device. */
  predicate SourceThere(m: Machine, source: string) {
    && (IsLabel(source) ==> Carries(m, [Sys], "sysfs") && Carries(m, [Dev], "devtmpfs"))
    && (IsMapped(source) ==> Carries(m, [Dev], "devtmpfs") && DeviceBehind(m, source).Some?)
  }

  function LookedUp(m: Machine, source: string): Machine {
    Blinded(m, !SourceThere(m, source))
  }

  /** The path is on a mount made of a verity device. */
  predicate OnVerified(m: Machine, p: Path) {
    && Holder(m, p).Some? && Holder(m, p).value.mounted.Plain?
    && Holder(m, p).value.mounted.device.Some?
  }

  function PlainMount(m: Machine, source: string, device: string, fstype: string, options: string): Mounted {
    Plain(device, fstype, options, DeviceBehind(m, source))
  }

  function OverlayMount(m: Machine, lower: Path, upper: Path, work: Path): Mounted {
    Overlay(lower, upper, work, Holder(m, lower), Holder(m, upper), Holder(m, work))
  }

  // ----- One step -----

  /** What `apply_state` does: only a missing migration is fatal, and only a fresh `/var` is written. */
  function Applied(m: Machine, action: StateAction, o: Outcome): (Machine, bool) {
    match action
    case Proceed => (m, true)
    case Initialise(to) =>
      var looked := Blinded(m, !Up(m, VAR));
      (if o.did then Made(looked, PLEXOS_STATE).(stamp := Some((PLEXOS_STATE, to))) else looked, o.did)
    case Migrate(_, _) => (m, false)
    case RestoreForRollback(_, _) => (m, true)
  }

  /** `perform`: the machine after one step, and whether the step succeeded. */
  function After(step: Step, m: Machine, o: Outcome): (Machine, bool) {
    match step
    case MountPseudo(fstype, target, options) =>
      if Up(m, target) then (Noticed(m, target, fstype), true)
      else if !o.made then (m, false)
      else if !o.did then (Blinded(Made(m, target), !Made(m, target).dirs(target)), false)
      else (MountedAt(Made(m, target), target, Plain(fstype, fstype, options, None)), true)
    case CreateDir(path) => if o.made then (Made(m, path), true) else (m, false)
    case Symlink(to, link) =>
      var looked := Blinded(m, link != [] && !m.dirs(link[..|link| - 1]));
      if o.did || o.existed then (Linked(looked, link, to, o.did), true) else (looked, false)
    case SetupVerity(data, hash, rootHash, name) =>
      var looked := LookedUp(LookedUp(m, data), hash);
      if Resolved(data, o.first).None? || Resolved(hash, o.second).None? then (looked, false)
      else
        var ready := Blinded(looked, !Carries(m, [Dev], "devtmpfs"));
        if !o.did then (ready, false)
        else
          var device := Verity(Resolved(data, o.first).value, Resolved(hash, o.second).value, rootHash);
          (ready.(mapper := m.mapper[name := device]), true)
    case Mount(source, target, fstype, options) =>
      var looked := LookedUp(m, source);
      if Resolved(source, o.first).None? then (looked, false)
      else if !o.did then (Blinded(looked, !m.dirs(target)), false)
      else (MountedAt(looked, target, PlainMount(m, source, Resolved(source, o.first).value, fstype, options)), true)
    case MountOverlay(lower, upper, work, target) =>
      if !o.made then (m, false)
      else
        var ready := Blinded(Made(m, target), !m.dirs(upper) || !m.dirs(work));
        if !o.did then (Blinded(ready, !ready.dirs(target)), false)
        else (MountedAt(ready, target, OverlayMount(m, lower, upper, work)), true)
    case RaiseClock(osRelease) => (Blinded(m, !OnVerified(m, osRelease)).(clock := Some(osRelease)), true)
    case ApplyState(action) => Applied(m, action, o)
    case MoveMount(origin, target) =>
      if !o.made then (m, false)
      else if !o.did then (Blinded(Made(m, target), !Up(m, origin)), false)
      else (MovedTo(Made(m, target), origin, target), true)
    case SwitchRoot(newRoot, init) =>
      var looked := Blinded(m, !Up(m, newRoot));
      if o.did then (looked.(switched := Some((newRoot, init))), true) else (looked, false)
  }

  // ----- A run -----

  /** Where a run stopped: at a step that failed, or past the last one. */
  datatype Ran = Failed(machine: Machine, at: nat) | Through(machine: Machine)

  /** `execute`, from step number `at`. */
  function RunFrom(steps: seq<Step>, m: Machine, outcomes: nat -> Outcome, at: nat): Ran
    decreases |steps|
  {
    if steps == [] then Through(m)
    else
      var (next, ok) := After(steps[0], m, outcomes(at));
      if ok then RunFrom(steps[1..], next, outcomes, at + 1) else Failed(next, at)
  }

  lemma {:induction false} RunConcat(a: seq<Step>, b: seq<Step>, m: Machine, outcomes: nat -> Outcome, at: nat)
    ensures RunFrom(a + b, m, outcomes, at)
         == match RunFrom(a, m, outcomes, at)
            case Failed(_, _) => RunFrom(a, m, outcomes, at)
            case Through(next) => RunFrom(b, next, outcomes, at + |a|)
    decreases |a|
  {
    if a == [] {
      assert a + b == b;
    } else {
      assert (a + b)[1..] == a[1..] + b;
      var (next, ok) := After(a[0], m, outcomes(at));
      if ok { RunConcat(a[1..], b, next, outcomes, at + 1); }
    }
  }

  /** The executor, changing the machine in place. */
  class Executor {
    var machine: Machine

    constructor (m: Machine)
      ensures machine == m
    {
      machine := m;
    }

    /** `create_dir_all`. */
    method CreateDirAll(p: Path, o: Outcome) returns (ok: bool)
      modifies this
      ensures ok == o.made
      ensures machine == if o.made then Made(old(machine), p) else old(machine)
    {
      ok := o.made;
      if ok { machine := Made(machine, p); }
    }

    /** `perform`. */
    method Perform(step: Step, o: Outcome) returns (ok: bool)
      modifies this
      ensures (machine, ok) == After(step, old(machine), o)
    {
      match step {
        case MountPseudo(fstype, target, options) =>
          if Up(machine, target) {
            machine := Noticed(machine, target, fstype);
            return true;
          }
          ok := CreateDirAll(target, o);
          if !ok { return; }
          machine := if o.did then MountedAt(machine, target, Plain(fstype, fstype, options, None))
                     else Blinded(machine, !machine.dirs(target));
          ok := o.did;
        case CreateDir(path) =>
          ok := CreateDirAll(path, o);
        case Symlink(to, link) =>
          machine := Blinded(machine, link != [] && !machine.dirs(link[..|link| - 1]));
          ok := o.did || o.existed;
          if ok { machine := Linked(machine, link, to, o.did); }
        case SetupVerity(data, hash, rootHash, name) =>
          var hasDev := Carries(machine, [Dev], "devtmpfs");
          machine := LookedUp(LookedUp(machine, data), hash);
          var dataDevice, hashDevice := Resolved(data, o.first), Resolved(hash, o.second);
          if dataDevice.None? || hashDevice.None? { return false; }
          machine := Blinded(machine, !hasDev);
          ok := o.did;
          if ok {
            var device := Verity(dataDevice.value, hashDevice.value, rootHash);
            machine := machine.(mapper := machine.mapper[name := device]);
          }
        case Mount(source, target, fstype, options) =>
          var behind := DeviceBehind(machine, source);
          machine := LookedUp(machine, source);
          var device := Resolved(source, o.first);
          if device.None? { return false; }
          machine := if o.did then MountedAt(machine, target, Plain(device.value, fstype, options, behind))
                     else Blinded(machine, !machine.dirs(target));
          ok := o.did;
        case MountOverlay(lower, upper, work, target) =>
          var layers := machine.dirs(upper) && machine.dirs(work);
          var overlay := OverlayMount(machine, lower, upper, work);
          ok := CreateDirAll(target, o);
          if !ok { return; }
          machine := Blinded(machine, !layers);
          machine := if o.did then MountedAt(machine, target, overlay)
                     else Blinded(machine, !machine.dirs(target));
          ok := o.did;
        case RaiseClock(osRelease) =>
          machine := Blinded(machine, !OnVerified(machine, osRelease)).(clock := Some(osRelease));
          ok := true;
        case ApplyState(action) =>
          ok := Apply(action, o);
        case MoveMount(origin, target) =>
          var wasUp := Up(machine, origin);
          ok := CreateDirAll(target, o);
          if !ok { return; }
          machine := if o.did then MovedTo(machine, origin, target) else Blinded(machine, !wasUp);
          ok := o.did;
        case SwitchRoot(newRoot, init) =>
          machine := Blinded(machine, !Up(machine, newRoot));
          ok := o.did;
          if ok { machine := machine.(switched := Some((newRoot, init))); }
      }
    }

    /** `apply_state`. */
    method Apply(action: StateAction, o: Outcome) returns (ok: bool)
      modifies this
      ensures (machine, ok) == Applied(old(machine), action, o)
    {
      match action {
        case Proceed => ok := true;
        case Initialise(to) =>
          machine := Blinded(machine, !Up(machine, VAR));
          ok := o.did;
          if ok { machine := Made(machine, PLEXOS_STATE).(stamp := Some((PLEXOS_STATE, to))); }
        case Migrate(_, _) => ok := false;
        case RestoreForRollback(_, _) => ok := true;
      }
    }

    /** `execute`: every step in order, stopping at the first failure. */
    method Execute(steps: seq<Step>, outcomes: nat -> Outcome) returns (failedAt: Option<nat>)
      modifies this
      ensures match RunFrom(steps, old(machine), outcomes, 0)
              case Failed(m, at) => failedAt == Some(at) && machine == m
              case Through(m) => failedAt == None && machine == m
    {
      for index := 0 to |steps|
        invariant RunFrom(steps[index..], machine, outcomes, index) == RunFrom(steps, old(machine), outcomes, 0)
      {
        assert steps[index..][1..] == steps[index + 1..];
        var ok := Perform(steps[index], outcomes(index));
        if !ok { return Some(index); }
      }
      return None;
    }
  }
}
