/** The boot plan: the whole sequence of operations that assembles the root, as data. */
module BootPlan {
  import opened Wrappers
  import opened Text
  import opened Partition
  import opened Cmdline

  // ----- What to do about the state on /var -----

  const U32_MAX: nat := 0xFFFF_FFFF

  datatype StateAction =
    | Proceed
    | Initialise(to: nat)
    | Migrate(from: nat, to: nat)
    | RestoreForRollback(found: nat, expected: nat)

  /** `decide`. */
  function Decide(found: Option<nat>, expected: nat): StateAction {
    match found
    case None => Initialise(expected)
    case Some(v) =>
      if v == expected then Proceed
      else if v < expected then Migrate(v, expected)
      else RestoreForRollback(v, expected)
  }

  /** `parse_state_version`: anything that is not a number counts as absent. */
  function ParseStateVersion(contents: string): Option<nat> {
    ParseUnsigned(Trim(contents), U32_MAX)
  }

  /** A stamp that `apply_state` wrote is read back, by this release or any other: only an older
      stamp asks for a migration, and newer state is always a rollback. */
  lemma StampDecides(written: nat, expected: nat)
    requires written <= U32_MAX
    ensures ParseStateVersion(Decimal(written) + "\n") == Some(written)
    ensures Decide(ParseStateVersion(Decimal(written) + "\n"), expected).Migrate? <==> written < expected
    ensures Decide(ParseStateVersion(Decimal(written) + "\n"), expected).RestoreForRollback? <==> expected < written
  {
    var text := Decimal(written);
    ParseOfDecimal(written, U32_MAX);
    TrimStartOfWord(text + "\n");
    assert (text + "\n")[..|text|] == text;
    assert TrimEnd(text + "\n") == TrimEnd(text);
    assert !IsSpace(text[|text| - 1]);
  }

  /** What the file says decides: without white space around it, a number of 32 bits is the version it
      holds, and anything else counts as no file. No version means a new state, the same one nothing, an
      older one a migration and a newer one a rollback. */
  lemma ContentsDecide(contents: string, expected: nat)
    ensures match Decide(ParseStateVersion(contents), expected)
            case Proceed => Holds(contents, expected)
            case Initialise(to) => to == expected && forall n: nat :: !Holds(contents, n)
            case Migrate(origin, to) => to == expected && origin < expected && Holds(contents, origin)
            case RestoreForRollback(found, wanted) => wanted == expected && expected < found && Holds(contents, found)
    ensures Decide(None, expected) == Initialise(expected)
  {
    TrimMeans(contents, Trim(contents));
    forall n: nat
      ensures Holds(contents, n) <==> ParseStateVersion(contents) == Some(n)
    {
      HoldsIsParsed(contents, n);
    }
  }

  ghost predicate Holds(contents: string, n: nat) {
    n <= 0xFFFF_FFFF && exists text :: IsTrimOf(text, contents) && IsNumber(text, n)
  }

  lemma HoldsIsParsed(contents: string, n: nat)
    ensures Holds(contents, n) <==> ParseStateVersion(contents) == Some(n)
  {
    TrimMeans(contents, Trim(contents));
    ParseUnsignedMeans(Trim(contents), U32_MAX, n);
    if Holds(contents, n) {
      var text :| IsTrimOf(text, contents) && IsNumber(text, n);
      TrimMeans(contents, text);
    }
  }

  lemma TrimStartOfWord(s: string)
    requires s != "" && !IsSpace(s[0])
    ensures TrimStart(s) == s
  {
  }

  // ----- Paths -----

  /** The names the plan's paths are made of; `OsRelease` is `os-release`, `EtcWork` `.etc-work`. */
  datatype Name =
    | Sysroot | Usr | Var | Etc | Tmp | Dev | Pts | Proc | Sys | Fs | Cgroup | Run
    | Bin | Sbin | Lib | Lib64 | Share | Factory | Plexos | EtcWork | OsRelease | PlexosInit

  /** An absolute path, from the root down; `p <= q` says that `q` is at or under `p`. */
  type Path = seq<Name>

  const SYSROOT: Path := [Sysroot]
  const USR: Path := [Sysroot, Usr]
  const VAR: Path := [Sysroot, Var]
  const ETC: Path := [Sysroot, Etc]
  const TMP: Path := [Sysroot, Tmp]
  const ETC_FACTORY: Path := [Sysroot, Usr, Share, Factory, Etc]
  const ETC_UPPER: Path := [Sysroot, Var, Lib, Plexos, Etc]
  const ETC_WORK: Path := [Sysroot, Var, Lib, Plexos, EtcWork]
  const PLEXOS_STATE: Path := [Sysroot, Var, Lib, Plexos]

  // ----- Steps -----

  datatype Step =
    | MountPseudo(fstype: string, target: Path, options: string)
    | CreateDir(path: Path)
    | Symlink(to: Path, link: Path)
    | SetupVerity(dataDevice: string, hashDevice: string, rootHash: string, mapperName: string)
    | Mount(source: string, target: Path, fstype: string, options: string)
    | MountOverlay(lower: Path, upper: Path, work: Path, target: Path)
    | RaiseClock(osRelease: Path)
    | ApplyState(action: StateAction)
    | MoveMount(origin: Path, target: Path)
    | SwitchRoot(newRoot: Path, init: Path)

  const VERITY_MAPPER_NAME := "plexos-usr"
  const BY_PARTLABEL := "/dev/disk/by-partlabel/"
  const MAPPER_DIR := "/dev/mapper/"
  const USR_OPTIONS := "ro,nodev,nosuid"
  const VAR_OPTIONS := "rw,nosuid,nodev"

  function UsrDevice(slot: Slot): string { BY_PARTLABEL + UsrLabel(slot) }

  function VerityDevice(slot: Slot): string { BY_PARTLABEL + VerityLabel(slot) }

  function UsrSource(): string { MAPPER_DIR + VERITY_MAPPER_NAME }

  function VarSource(): string { BY_PARTLABEL + LABEL_VAR }

  // ----- The plan, part by part -----

  function PseudoSteps(): seq<Step> {
    [MountPseudo("devtmpfs", [Dev], "nosuid,mode=0755"),
     MountPseudo("devpts", [Dev, Pts], "nosuid,noexec,gid=5,mode=0620,ptmxmode=0666"),
     MountPseudo("proc", [Proc], "nosuid,nodev,noexec"),
     MountPseudo("sysfs", [Sys], "nosuid,nodev,noexec"),
     MountPseudo("cgroup2", [Sys, Fs, Cgroup], "nosuid,nodev,noexec"),
     MountPseudo("tmpfs", [Run], "nosuid,nodev,mode=0755")]
  }

  function MakeAndMount(source: string, target: Path, fstype: string, options: string): seq<Step> {
    [CreateDir(target), Mount(source, target, fstype, options)]
  }

  function RootSteps(): seq<Step> {
    MakeAndMount("tmpfs", SYSROOT, "tmpfs", "nosuid,nodev,mode=0755")
  }

  function VeritySteps(args: BootArgs): seq<Step> {
    [SetupVerity(UsrDevice(args.slot), VerityDevice(args.slot), args.rootHash, VERITY_MAPPER_NAME)]
  }

  function UsrSteps(): seq<Step> {
    MakeAndMount(UsrSource(), USR, "erofs", USR_OPTIONS)
  }

  function LinkSteps(): seq<Step> {
    [RaiseClock(USR + [Lib, OsRelease]),
     Symlink([Usr, Bin], SYSROOT + [Bin]),
     Symlink([Usr, Sbin], SYSROOT + [Sbin]),
     Symlink([Usr, Lib], SYSROOT + [Lib]),
     Symlink([Lib], SYSROOT + [Lib64])]
  }

  function TmpSteps(): seq<Step> {
    MakeAndMount("tmpfs", TMP, "tmpfs", "nosuid,nodev,mode=1777")
  }

  function VarSteps(): seq<Step> {
    MakeAndMount(VarSource(), VAR, "xfs", VAR_OPTIONS)
  }

  function EtcSteps(): seq<Step> {
    [CreateDir(ETC_UPPER), CreateDir(ETC_WORK), MountOverlay(ETC_FACTORY, ETC_UPPER, ETC_WORK, ETC)]
  }

  function MoveSteps(): seq<Step> {
    [MoveMount([Dev], SYSROOT + [Dev]), MoveMount([Proc], SYSROOT + [Proc]),
     MoveMount([Sys], SYSROOT + [Sys]), MoveMount([Run], SYSROOT + [Run])]
  }

  /** Everything that comes before the state action. */
  function BeforeState(args: BootArgs): seq<Step> {
    PseudoSteps() + RootSteps() + VeritySteps(args) + UsrSteps() + LinkSteps() + TmpSteps() + VarSteps()
  }

  /** Everything that comes after it, up to the switch. */
  function AfterState(): seq<Step> {
    EtcSteps() + MoveSteps()
  }

  const SWITCH := SwitchRoot(SYSROOT, [Usr, Bin, PlexosInit])

  function Assembly(args: BootArgs, action: StateAction): seq<Step> {
    BeforeState(args) + [ApplyState(action)] + AfterState()
  }

  function PlanOf(args: BootArgs, action: StateAction): seq<Step> {
    Assembly(args, action) + [SWITCH]
  }

  /** `boot_plan`. */
  method BuildPlan(args: BootArgs, action: StateAction) returns (steps: seq<Step>)
    ensures steps == PlanOf(args, action)
  {
    steps := [];
    var pseudo := [("devtmpfs", [Dev], "nosuid,mode=0755"),
                   ("devpts", [Dev, Pts], "nosuid,noexec,gid=5,mode=0620,ptmxmode=0666"),
                   ("proc", [Proc], "nosuid,nodev,noexec"),
                   ("sysfs", [Sys], "nosuid,nodev,noexec"),
                   ("cgroup2", [Sys, Fs, Cgroup], "nosuid,nodev,noexec"),
                   ("tmpfs", [Run], "nosuid,nodev,mode=0755")];
    for i := 0 to |pseudo|
      invariant steps == PseudoSteps()[..i]
    {
      var (fstype, target, options) := pseudo[i];
      steps := steps + [MountPseudo(fstype, target, options)];
    }
    steps := steps + [CreateDir(SYSROOT), Mount("tmpfs", SYSROOT, "tmpfs", "nosuid,nodev,mode=0755")];
    steps := steps + [SetupVerity(UsrDevice(args.slot), VerityDevice(args.slot), args.rootHash, VERITY_MAPPER_NAME)];
    steps := steps + [CreateDir(USR), Mount(UsrSource(), USR, "erofs", USR_OPTIONS)];
    ghost var soFar := steps;
    steps := steps + [RaiseClock(USR + [Lib, OsRelease])];
    var links: seq<(Name, Path)> := [(Bin, [Usr, Bin]), (Sbin, [Usr, Sbin]), (Lib, [Usr, Lib]), (Lib64, [Lib])];
    for i := 0 to |links|
      invariant steps == soFar + LinkSteps()[..i + 1]
    {
      var (name, to) := links[i];
      steps := steps + [Symlink(to, SYSROOT + [name])];
    }
    steps := steps + [CreateDir(TMP), Mount("tmpfs", TMP, "tmpfs", "nosuid,nodev,mode=1777")];
    steps := steps + [CreateDir(VAR), Mount(VarSource(), VAR, "xfs", VAR_OPTIONS)];
    assert steps == BeforeState(args);
    steps := steps + [ApplyState(action)];
    soFar := steps;
    steps := steps + [CreateDir(ETC_UPPER), CreateDir(ETC_WORK), MountOverlay(ETC_FACTORY, ETC_UPPER, ETC_WORK, ETC)];
    var moved := [Dev, Proc, Sys, Run];
    for i := 0 to |moved|
      invariant steps == soFar + EtcSteps() + MoveSteps()[..i]
    {
      steps := steps + [MoveMount([moved[i]], SYSROOT + [moved[i]])];
    }
    steps := steps + [SWITCH];
  }
}
