/** What carrying out an install plan may leave on disk: crates/plexos-plex/src/execute.rs.

    A run may stop inside or between any two steps, because the process dies or a step fails.
    Effects reach the disk in program order; nothing here reorders them. */
module Install {
  import opened Wrappers
  import opened Text
  import opened Store
  import opened Build
  import opened Mount
  import opened Octets

  type Tree = seq<string>

  /** An entry of the image directory. A file's contents are written as characters. */
  datatype Node = File(data: string) | Dir(tree: Tree) | Link(target: string)

  type Directory = map<string, Node>

  /** Everything outside the directory that a plan depends on: the packages it reads, and the
      programs it runs. `builds(tree, image)` says that `mkfs.erofs` can make `image` of `tree`. */
  datatype World = World(packages: map<string, Bytes>,
                         untar: Bytes -> Tree,
                         builds: (Tree, string) -> bool,
                         hash: string -> string)

  ghost predicate ValidWorld(w: World) {
    forall data :: IsDigest(w.hash(data))
  }

  // ----- One step -----

  function Payload(w: World, package: string, data: Extent): Option<Bytes> {
    if package in w.packages && data.offset + data.size <= |w.packages[package]|
    then Some(w.packages[package][data.offset..data.offset + data.size])
    else None
  }

  predicate IsDir(s: Directory, name: string) {
    name in s && s[name].Dir?
  }

  function RemoveAll(s: Directory, paths: seq<string>): Directory
    decreases paths
  {
    if paths == [] then s else RemoveAll(s - {paths[0]}, paths[1..])
  }

  /** Stopped while removing: a prefix is gone, and a directory may be half emptied. */
  ghost predicate RemoveStopped(s: Directory, paths: seq<string>, s': Directory)
    decreases paths
  {
    || s' == s
    || (paths != [] && IsDir(s, paths[0]) && exists t: Tree :: s' == s[paths[0] := Dir(t)])
    || (paths != [] && RemoveStopped(s - {paths[0]}, paths[1..], s'))
  }

  lemma {:induction false} RemoveAllConcat(s: Directory, first: seq<string>, rest: seq<string>)
    ensures RemoveAll(s, first + rest) == RemoveAll(RemoveAll(s, first), rest)
    decreases first
  {
    if first == [] {
      assert first + rest == rest;
    } else {
      assert (first + rest)[1..] == first[1..] + rest;
      RemoveAllConcat(s - {first[0]}, first[1..], rest);
    }
  }

  lemma {:induction false} RemoveStoppedLater(s: Directory, first: seq<string>, rest: seq<string>, s': Directory)
    requires rest != [] && RemoveStopped(RemoveAll(s, first), [rest[0]], s')
    ensures RemoveStopped(s, first + rest, s')
    decreases first
  {
    if first == [] {
      assert first + rest == rest;
    } else {
      assert (first + rest)[1..] == first[1..] + rest;
      RemoveStoppedLater(s - {first[0]}, first[1..], rest, s');
    }
  }

  predicate MadeFrom(w: World, s: Directory, source: string, image: string, data: string, s': Directory)
    requires IsDir(s, source)
  {
    s' == s[image := File(data)] && w.builds(s[source].tree, data)
  }

  /** The step succeeded and left `s'`. */
  ghost predicate Done(w: World, s: Directory, step: Step, s': Directory) {
    match step
    case ClearStaging(paths) => s' == RemoveAll(s, paths)
    case CreateDir(path) =>
      && (path in s ==> s[path].Dir?)
      && s' == if path in s then s else s[path := Dir([])]
    case Unpack(package, data, into) =>
      && IsDir(s, into) && Payload(w, package, data).Some?
      && exists t: Tree :: s' == s[into := Dir(t)]
                        && (s[into].tree == [] ==> t == w.untar(Payload(w, package, data).value))
    case Mkfs(source, image) =>
      && IsDir(s, source) && !IsDir(s, image)
      && exists data: string :: MadeFrom(w, s, source, image, data, s')
    case Record(image, record, names) =>
      && image in s && s[image].File? && !IsDir(s, record)
      && s' == s[record := File(RecordBody(w.hash(s[image].data), names))]
    case Publish(staged, name) =>
      && staged in s && s[staged].File? && !IsDir(s, name)
      && s' == (s - {staged})[name := s[staged]]
    case Activate(link, target) =>
      && !IsDir(s, SWAP) && !IsDir(s, link)
      && s' == (s - {SWAP})[link := Link(target)]
    case Remove(paths) => s' == RemoveAll(s, paths)
    case RemoveDir(path) => s' == RemoveAll(s, [path])
  }

  /** The step failed, or the process died, at a moment when the directory was `s'`. */
  ghost predicate Stopped(w: World, s: Directory, step: Step, s': Directory) {
    || s' == s
    || Done(w, s, step, s')
    || match step
       case ClearStaging(paths) => RemoveStopped(s, paths, s')
       case CreateDir(path) => false
       case Unpack(package, data, into) =>
         IsDir(s, into) && exists t: Tree :: s' == s[into := Dir(t)]
       case Mkfs(source, image) =>
         !IsDir(s, image) && exists data: string :: s' == s[image := File(data)]
       case Record(image, record, names) =>
         && image in s && s[image].File? && !IsDir(s, record)
         && exists k: nat :: k <= |RecordBody(w.hash(s[image].data), names)|
                          && s' == s[record := File(RecordBody(w.hash(s[image].data), names)[..k])]
       case Publish(staged, name) => false
       case Activate(link, target) =>
         !IsDir(s, SWAP) && (s' == s - {SWAP} || s' == s[SWAP := Link(target)])
       case Remove(paths) => RemoveStopped(s, paths, s')
       case RemoveDir(path) => RemoveStopped(s, [path], s')
  }

  // ----- A plan -----

  ghost predicate RunDone(w: World, s: Directory, steps: seq<Step>, s': Directory)
    decreases steps
  {
    if steps == [] then s' == s
    else exists m: Directory :: Done(w, s, steps[0], m) && RunDone(w, m, steps[1..], s')
  }

  /** A state some run of the plan can be left in, wherever it stops. */
  ghost predicate RunStopped(w: World, s: Directory, steps: seq<Step>, s': Directory)
    decreases steps
  {
    if steps == [] then s' == s
    else
      || Stopped(w, s, steps[0], s')
      || exists m: Directory :: Done(w, s, steps[0], m) && RunStopped(w, m, steps[1..], s')
  }

  lemma {:induction false} RunDoneThenDone(w: World, s: Directory, steps: seq<Step>, m: Directory, last: Step,
                                           s': Directory)
    requires RunDone(w, s, steps, m) && Done(w, m, last, s')
    ensures RunDone(w, s, steps + [last], s')
    decreases steps
  {
    if steps == [] {
      assert [last][1..] == [];
      assert RunDone(w, s', [], s');
    } else {
      var m0: Directory :| Done(w, s, steps[0], m0) && RunDone(w, m0, steps[1..], m);
      RunDoneThenDone(w, m0, steps[1..], m, last, s');
      assert (steps + [last])[1..] == steps[1..] + [last];
    }
  }

  lemma {:induction false} RunDoneThenStopped(w: World, s: Directory, steps: seq<Step>, m: Directory, rest: seq<Step>,
                                              s': Directory)
    requires RunDone(w, s, steps, m) && RunStopped(w, m, rest, s')
    ensures RunStopped(w, s, steps + rest, s')
    decreases steps
  {
    if steps == [] {
      assert steps + rest == rest;
    } else {
      var m0: Directory :| Done(w, s, steps[0], m0) && RunDone(w, m0, steps[1..], m);
      RunDoneThenStopped(w, m0, steps[1..], m, rest, s');
      assert (steps + rest)[1..] == steps[1..] + rest;
    }
  }

  // ----- An attempt -----

  /** One request to install: a version and where its payload is. */
  datatype Job = Job(version: Version, package: string, data: Extent)

  ghost predicate IsListing(listing: seq<string>, s: Directory) {
    && (forall i, j :: 0 <= i < j < |listing| ==> listing[i] != listing[j])
    && (forall n :: n in listing <==> n in s)
  }

  function CurrentTarget(s: Directory): Option<string> {
    if CURRENT_LINK in s && s[CURRENT_LINK].Link? then Some(s[CURRENT_LINK].target) else None
  }

  function PlanFor(s: Directory, listing: seq<string>, job: Job): seq<Step> {
    InstallPlan(job.version, job.package, job.data,
                Superseded(FromListing(listing, CurrentTarget(s)), job.version))
  }

  /** Some run of the job, planned from the directory as it is, may be left in `s'`. */
  ghost predicate Attempt(w: World, s: Directory, job: Job, s': Directory) {
    exists listing: seq<string> :: IsListing(listing, s) && RunStopped(w, s, PlanFor(s, listing, job), s')
  }

  ghost predicate Completed(w: World, s: Directory, job: Job, s': Directory) {
    exists listing: seq<string> :: IsListing(listing, s) && RunDone(w, s, PlanFor(s, listing, job), s')
  }

  // ----- The directory as a machine performing the steps -----

  /** Whether a step got to its end, or the run ended in it. */
  datatype Outcome = Finished | Ended

  /** What `mkfs.erofs` makes of a tree, when it succeeds. */
  type Mkfs = Tree -> Option<string>

  ghost predicate Makes(w: World, mkfs: Mkfs) {
    forall tree: Tree :: mkfs(tree).Some? ==> w.builds(tree, mkfs(tree).value)
  }

  /** Nothing in the directory, and neither of the two programs, stands in the way of the step. */
  predicate Feasible(w: World, mkfs: Mkfs, s: Directory, step: Step) {
    match step
    case ClearStaging(_) => true
    case CreateDir(path) => path in s ==> s[path].Dir?
    case Unpack(package, data, into) => IsDir(s, into) && Payload(w, package, data).Some?
    case Mkfs(source, image) => IsDir(s, source) && !IsDir(s, image) && mkfs(s[source].tree).Some?
    case Record(image, record, _) => image in s && s[image].File? && !IsDir(s, record)
    case Publish(staged, name) => staged in s && s[staged].File? && !IsDir(s, name)
    case Activate(link, _) => !IsDir(s, SWAP) && (link == SWAP || !IsDir(s, link))
    case Remove(_) => true
    case RemoveDir(_) => true
  }

  /** The first `k` steps can be done and leave a directory in which the next one cannot. */
  ghost predicate StuckAt(w: World, mkfs: Mkfs, s: Directory, steps: seq<Step>, k: nat) {
    && k < |steps|
    && exists m: Directory :: RunDone(w, s, steps[..k], m) && !Feasible(w, mkfs, m, steps[k])
  }

  class AppsDirectory {
    /** Whether the process may die, or an operation fail, at any moment. */
    const interrupted: bool
    const mkfs: Mkfs
    var entries: Directory

    constructor (interrupted: bool, mkfs: Mkfs)
      ensures this.interrupted == interrupted && this.mkfs == mkfs && entries == map[]
    {
      this.interrupted, this.mkfs := interrupted, mkfs;
      entries := map[];
    }

    /** Whether the run ends here. */
    method Dies() returns (dies: bool)
      ensures dies ==> interrupted
    {
      var now: bool := *;
      dies := interrupted && now;
    }

    method RemoveAny(path: string) returns (o: Outcome)
      modifies this
      ensures o.Finished? ==> entries == old(entries) - {path}
      ensures o.Ended? ==> RemoveStopped(old(entries), [path], entries)
      ensures !interrupted ==> o.Finished?
    {
      var dies := Dies();
      if dies {
        return Ended;
      }
      if path in entries && entries[path].Dir? {
        dies := Dies();
        if dies {
          var left: Tree := *;
          entries := entries[path := Dir(left)];
          return Ended;
        }
      }
      entries := entries - {path};
      return Finished;
    }

    method RemovePaths(paths: seq<string>) returns (o: Outcome)
      modifies this
      ensures o.Finished? ==> entries == RemoveAll(old(entries), paths)
      ensures o.Ended? ==> RemoveStopped(old(entries), paths, entries)
      ensures !interrupted ==> o.Finished?
    {
      for i := 0 to |paths|
        invariant entries == RemoveAll(old(entries), paths[..i])
      {
        o := RemoveAny(paths[i]);
        RemoveAllConcat(old(entries), paths[..i], [paths[i]]);
        assert paths[..i] + [paths[i]] == paths[..i + 1];
        if o.Ended? {
          RemoveStoppedLater(old(entries), paths[..i], paths[i..], entries);
          assert paths[..i] + paths[i..] == paths;
          return;
        }
      }
      assert paths[..|paths|] == paths;
      return Finished;
    }

    /** Uninterrupted, a step gets to its end exactly when nothing stands in its way. */
    method Perform(step: Step, w: World) returns (o: Outcome)
      requires Makes(w, mkfs)
      modifies this
      ensures o.Finished? ==> Done(w, old(entries), step, entries)
      ensures o.Ended? ==> Stopped(w, old(entries), step, entries)
      ensures !interrupted ==> (o.Finished? <==> Feasible(w, mkfs, old(entries), step))
    {
      var dies := Dies();
      if dies {
        return Ended;
      }
      match step
      case ClearStaging(paths) =>
        o := RemovePaths(paths);
      case Remove(paths) =>
        o := RemovePaths(paths);
      case RemoveDir(path) =>
        o := RemovePaths([path]);
      case CreateDir(path) =>
        if path !in entries {
          entries := entries[path := Dir([])];
        } else if !entries[path].Dir? {
          return Ended;
        }
        return Finished;
      case Unpack(package, data, into) =>
        o := UnpackInto(package, data, into, w);
      case Mkfs(source, image) =>
        o := MakeImage(source, image, w);
      case Record(image, record, names) =>
        o := WriteRecord(image, record, names, w);
      case Publish(staged, name) =>
        if staged !in entries || !entries[staged].File? || IsDir(entries, name) {
          return Ended;
        }
        entries := (entries - {staged})[name := entries[staged]];
        return Finished;
      case Activate(link, target) =>
        o := ActivateLink(link, target, w);
    }

    method UnpackInto(package: string, data: Extent, into: string, w: World) returns (o: Outcome)
      modifies this
      ensures o.Finished? ==> Done(w, old(entries), Unpack(package, data, into), entries)
      ensures o.Ended? ==> Stopped(w, old(entries), Unpack(package, data, into), entries)
      ensures !interrupted ==> (o.Finished? <==> Feasible(w, mkfs, old(entries), Unpack(package, data, into)))
    {
      if !IsDir(entries, into) || Payload(w, package, data).None? {
        return Ended;
      }
      var part: Tree := *;
      var dies := Dies();
      if dies {
        entries := entries[into := Dir(part)];
        return Ended;
      }
      var whole := if entries[into].tree == [] then w.untar(Payload(w, package, data).value) else part;
      entries := entries[into := Dir(whole)];
      assert entries == old(entries)[into := Dir(whole)];
      return Finished;
    }

    method MakeImage(source: string, image: string, w: World) returns (o: Outcome)
      requires Makes(w, mkfs)
      modifies this
      ensures o.Finished? ==> Done(w, old(entries), Mkfs(source, image), entries)
      ensures o.Ended? ==> Stopped(w, old(entries), Mkfs(source, image), entries)
      ensures !interrupted ==> (o.Finished? <==> Feasible(w, mkfs, old(entries), Mkfs(source, image)))
    {
      if !IsDir(entries, source) || IsDir(entries, image) {
        return Ended;
      }
      var made := mkfs(entries[source].tree);
      var dies := Dies();
      if dies || made.None? {
        var part: string := *;
        entries := entries[image := File(part)];
        assert entries == old(entries)[image := File(part)];
        return Ended;
      }
      entries := entries[image := File(made.value)];
      assert MadeFrom(w, old(entries), source, image, made.value, entries);
      return Finished;
    }

    method WriteRecord(image: string, record: string, names: string, w: World) returns (o: Outcome)
      modifies this
      ensures o.Finished? ==> Done(w, old(entries), Record(image, record, names), entries)
      ensures o.Ended? ==> Stopped(w, old(entries), Record(image, record, names), entries)
      ensures !interrupted ==> (o.Finished? <==> Feasible(w, mkfs, old(entries), Record(image, record, names)))
    {
      if image !in entries || !entries[image].File? || IsDir(entries, record) {
        return Ended;
      }
      var body := RecordBody(w.hash(entries[image].data), names);
      var dies := Dies();
      if dies {
        var kept: nat :| kept <= |body|;
        entries := entries[record := File(body[..kept])];
        assert entries == old(entries)[record := File(body[..kept])];
        return Ended;
      }
      entries := entries[record := File(body)];
      return Finished;
    }

    method ActivateLink(link: string, target: string, ghost w: World) returns (o: Outcome)
      modifies this
      ensures o.Finished? ==> Done(w, old(entries), Activate(link, target), entries)
      ensures o.Ended? ==> Stopped(w, old(entries), Activate(link, target), entries)
      ensures !interrupted ==> (o.Finished? <==> Feasible(w, mkfs, old(entries), Activate(link, target)))
    {
      var dies := Dies();
      if dies || IsDir(entries, SWAP) {
        return Ended;
      }
      entries := entries - {SWAP};
      dies := Dies();
      if dies {
        return Ended;
      }
      entries := entries[SWAP := Link(target)];
      dies := Dies();
      if dies || (link != SWAP && IsDir(entries, link)) {
        assert entries == old(entries)[SWAP := Link(target)];
        return Ended;
      }
      entries := (entries - {SWAP})[link := entries[SWAP]];
      return Finished;
    }

    /** Uninterrupted, a run ends early only where a step cannot be done. */
    method Plan(steps: seq<Step>, w: World) returns (o: Outcome)
      requires Makes(w, mkfs)
      modifies this
      ensures o.Finished? ==> RunDone(w, old(entries), steps, entries)
      ensures o.Ended? ==> RunStopped(w, old(entries), steps, entries)
      ensures !interrupted && o.Ended? ==> exists k :: StuckAt(w, mkfs, old(entries), steps, k)
    {
      for i := 0 to |steps|
        invariant RunDone(w, old(entries), steps[..i], entries)
      {
        ghost var before := entries;
        o := Perform(steps[i], w);
        if o.Ended? {
          assert steps[i..][0] == steps[i];
          assert RunStopped(w, before, steps[i..], entries);
          RunDoneThenStopped(w, old(entries), steps[..i], before, steps[i..], entries);
          assert steps[..i] + steps[i..] == steps;
          assert !interrupted ==> StuckAt(w, mkfs, old(entries), steps, i);
          return;
        }
        RunDoneThenDone(w, old(entries), steps[..i], before, steps[i], entries);
        assert steps[..i] + [steps[i]] == steps[..i + 1];
      }
      assert steps[..|steps|] == steps;
      return Finished;
    }

    method Run(job: Job, listing: seq<string>, w: World) returns (o: Outcome)
      requires Makes(w, mkfs) && IsListing(listing, entries)
      modifies this
      ensures o.Finished? ==> Completed(w, old(entries), job, entries)
      ensures o.Ended? ==> Attempt(w, old(entries), job, entries)
      ensures !interrupted && o.Ended? ==>
                exists k :: StuckAt(w, mkfs, old(entries), PlanFor(old(entries), listing, job), k)
    {
      var target := CurrentTarget(entries);
      var superseded := Superseded(FromListing(listing, target), job.version);
      o := Plan(InstallPlan(job.version, job.package, job.data, superseded), w);
    }
  }
}
