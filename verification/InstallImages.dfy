/** Every image, not only the active one: an image is there only with the record it passes by. */
module InstallImages {
  import opened Wrappers
  import opened Text
  import opened Store
  import opened Build
  import opened Mount
  import opened Install
  import opened InstallSafety
  import opened Octets

  ghost predicate AllUsable(w: World, s: Directory) {
    forall n :: n in Images(s) ==> Usable(w, s, n)
  }

  // ----- One step -----

  /** A name that is neither an image's nor a record's. */
  predicate Neither(n: string) {
    VersionOf(n).None? && !EndsWith(n, RECORD_EXT)
  }

  lemma RecordEnds(image: string)
    ensures EndsWith(image + RECORD_EXT, RECORD_EXT)
  {
  }

  lemma OthersKeep(w: World, s: Directory, s': Directory, changed: set<string>)
    requires AllUsable(w, s)
    requires forall n :: n !in changed ==> SameAt(s, s', n)
    requires forall n :: n in changed ==> Neither(n)
    ensures AllUsable(w, s')
  {
    forall n | n in Images(s')
      ensures Usable(w, s', n)
    {
      assert n !in changed;
      RecordEnds(n);
      assert n + RECORD_EXT !in changed;
      UsableFrame(w, s, s', n);
    }
  }

  /** The record comes first: while the image it is for is not there, it is no image's record. */
  lemma RecordKeeps(w: World, s: Directory, nm: Names, s': Directory)
    requires AllUsable(w, s) && Separate(nm) && nm.image !in s
    requires forall n :: n != nm.record ==> SameAt(s, s', n)
    ensures AllUsable(w, s')
  {
    forall n | n in Images(s')
      ensures Usable(w, s', n)
    {
      assert SameAt(s, s', n) && SameAt(s, s', nm.image);
      if n + RECORD_EXT == nm.record { SuffixCancels(n, nm.image, RECORD_EXT); }
      UsableFrame(w, s, s', n);
    }
  }

  /** The rename then adds an image that passes. */
  lemma PublishKeeps(w: World, s: Directory, nm: Names, s': Directory)
    requires AllUsable(w, s) && Separate(nm) && nm.staged in s
    requires s' == (s - {nm.staged})[nm.image := s[nm.staged]] && Usable(w, s', nm.image)
    ensures AllUsable(w, s')
  {
    forall n | n in Images(s')
      ensures Usable(w, s', n)
    {
      if n != nm.image {
        RecordEnds(n);
        assert SameAt(s, s', n) && SameAt(s, s', n + RECORD_EXT);
        UsableFrame(w, s, s', n);
      }
    }
  }

  lemma WithoutPair(w: World, s: Directory, v: Version, s': Directory)
    requires AllUsable(w, s) && ImageName(v) !in s'
    requires forall n :: n != ImageName(v) && n != RecordName(v) ==> SameAt(s, s', n)
    ensures AllUsable(w, s')
  {
    RecordsAreNotImages(v);
    forall n | n in Images(s')
      ensures Usable(w, s', n)
    {
      RecordsAreNotImages(v);
      assert SameAt(s, s', n);
      if n + RECORD_EXT == RecordName(v) { SuffixCancels(n, ImageName(v), RECORD_EXT); }
      RecordEnds(n);
      assert n + RECORD_EXT != ImageName(v);
      UsableFrame(w, s, s', n);
    }
  }

  lemma PairAndRest(versions: seq<Version>)
    requires versions != []
    ensures var paths := ImageAndRecord(versions);
            && paths != [] && paths[0] == ImageName(versions[0])
            && paths[1..] != [] && paths[1..][0] == RecordName(versions[0])
            && paths[1..][1..] == ImageAndRecord(versions[1..])
  {
  }

  /** Retention removes an image before its record, so no image is ever left without. */
  lemma {:induction false} RemovalKeeps(w: World, s: Directory, versions: seq<Version>, paths: seq<string>,
                                        s': Directory)
    requires AllUsable(w, s) && paths == ImageAndRecord(versions) && RemoveStopped(s, paths, s')
    requires forall v :: v in versions ==> Parsed(v)
    ensures AllUsable(w, s')
    decreases |versions|
  {
    if s' != s {
      var v := versions[0];
      PairAndRest(versions);
      VersionOfImageName(v);
      ImagesAreFiles(w, s, v);
      assert RemoveStopped(s - {paths[0]}, paths[1..], s');
      var m := s - {ImageName(v)};
      WithoutPair(w, s, v, m);
      if s' != m {
        if RemoveStopped(m - {RecordName(v)}, paths[1..][1..], s') {
          WithoutPair(w, s, v, m - {RecordName(v)});
          RemovalKeeps(w, m - {RecordName(v)}, versions[1..], paths[1..][1..], s');
        } else {
          HalfRecord(m, paths[1..], s');
          WithoutPair(w, s, v, s');
        }
      }
    }
  }

  lemma HalfRecord(m: Directory, paths: seq<string>, s': Directory)
    requires paths != [] && RemoveStopped(m, paths, s') && s' != m && !RemoveStopped(m - {paths[0]}, paths[1..], s')
    ensures forall n :: n != paths[0] ==> SameAt(m, s', n)
  {
  }

  lemma ImagesAreFiles(w: World, s: Directory, v: Version)
    requires AllUsable(w, s)
    ensures VersionOf(ImageName(v)).Some? ==> !IsDir(s, ImageName(v))
  {
    if VersionOf(ImageName(v)).Some? && ImageName(v) in s {
      assert ImageName(v) in Images(s);
      UsableByDigest(w, s, ImageName(v));
    }
  }

  // ----- A whole attempt -----

  /** What an attempt keeps before step `k`. */
  ghost predicate Kept(w: World, nm: Names, k: nat, s: Directory) {
    AllUsable(w, s) && (k <= 5 ==> nm.image !in s)
  }

  lemma NamesAreNeither(nm: Names)
    requires Separate(nm)
    ensures Neither(nm.staged) && Neither(nm.root) && Neither(SWAP) && Neither(CURRENT_LINK)
    ensures VersionOf(nm.image).Some?
  {
  }

  lemma AllNeither(a: string, b: string, c: string, d: string, names: set<string>)
    requires Neither(a) && Neither(b) && Neither(c) && Neither(d) && names <= {a, b, c, d}
    ensures forall n :: n in names ==> Neither(n)
  {
  }

  /** The steps that touch neither an image nor a record. */
  lemma QuietKeeps(w: World, image: string, changed: set<string>, s: Directory, s': Directory)
    requires AllUsable(w, s) && VersionOf(image).Some?
    requires forall n :: n in changed ==> Neither(n)
    requires forall n :: n !in changed ==> SameAt(s, s', n)
    ensures AllUsable(w, s') && (image !in s ==> image !in s')
  {
    OthersKeep(w, s, s', changed);
    assert image !in changed && SameAt(s, s', image);
  }

  lemma RecordStepKeeps(w: World, nm: Names, step: Step, s: Directory, s': Directory)
    requires Kept(w, nm, 4, s) && Separate(nm) && Stopped(w, s, step, s') && Touched(step) == {nm.record}
    ensures AllUsable(w, s') && nm.image !in s'
  {
    TouchedOnly(w, s, step, s');
    assert SameAt(s, s', nm.image);
    RecordKeeps(w, s, nm, s');
  }

  lemma PublishStepKeeps(c: Claim, payload: Option<Bytes>, nm: Names, s: Directory, s': Directory)
    requires Setting(c, payload, nm) && Phase(c, payload, nm, 5, s) && Kept(c.w, nm, 5, s)
    requires Stopped(c.w, s, Publish(nm.staged, nm.image), s')
    ensures AllUsable(c.w, s')
  {
    if Done(c.w, s, Publish(nm.staged, nm.image), s') {
      PublishStep(c, payload, nm, s, s');
      PublishKeeps(c.w, s, nm, s');
    }
  }

  lemma RemoveStepKeeps(w: World, versions: seq<Version>, s: Directory, s': Directory)
    requires AllUsable(w, s) && Stopped(w, s, Remove(ImageAndRecord(versions)), s')
    requires forall v :: v in versions ==> Parsed(v)
    ensures AllUsable(w, s')
  {
    var paths := ImageAndRecord(versions);
    if !RemoveStopped(s, paths, s') { RemoveAllIsStopped(s, paths); }
    RemovalKeeps(w, s, versions, paths, s');
  }

  lemma {:induction false} RemoveAllIsStopped(s: Directory, paths: seq<string>)
    ensures RemoveStopped(s, paths, RemoveAll(s, paths))
    decreases paths
  {
    if paths != [] { RemoveAllIsStopped(s - {paths[0]}, paths[1..]); }
  }

  lemma StepAt(nm: Names, package: string, data: Extent, removed: seq<string>, step: Step, k: nat)
    requires k < |Steps(nm, package, data, removed)| && step == Steps(nm, package, data, removed)[k]
    ensures k == 4 ==> Touched(step) == {nm.record}
    ensures k == 5 ==> step == Publish(nm.staged, nm.image)
    ensures k == 8 ==> step == Remove(removed)
    ensures k != 4 && k != 5 && k != 8 ==> Touched(step) <= {nm.staged, nm.root, SWAP, CURRENT_LINK}
  {
  }

  lemma StepKeepsAll(c: Claim, package: string, data: Extent, nm: Names, versions: seq<Version>, step: Step, k: nat,
                     s: Directory, s': Directory)
    requires Setting(c, Payload(c.w, package, data), nm)
    requires k < |Steps(nm, package, data, ImageAndRecord(versions))|
    requires step == Steps(nm, package, data, ImageAndRecord(versions))[k]
    requires Phase(c, Payload(c.w, package, data), nm, k, s) && Kept(c.w, nm, k, s) && Stopped(c.w, s, step, s')
    requires forall v :: v in versions ==> Parsed(v)
    ensures AllUsable(c.w, s') && (k < 5 ==> nm.image !in s')
  {
    StepAt(nm, package, data, ImageAndRecord(versions), step, k);
    if k == 4 {
      RecordStepKeeps(c.w, nm, step, s, s');
    } else if k == 5 {
      PublishStepKeeps(c, Payload(c.w, package, data), nm, s, s');
    } else if k == 8 {
      RemoveStepKeeps(c.w, versions, s, s');
    } else {
      TouchedOnly(c.w, s, step, s');
      NamesAreNeither(nm);
      AllNeither(nm.staged, nm.root, SWAP, CURRENT_LINK, Touched(step));
      QuietKeeps(c.w, nm.image, Touched(step), s, s');
    }
  }

  lemma StepAdvances(c: Claim, package: string, data: Extent, nm: Names, versions: seq<Version>, step: Step, k: nat,
                     s: Directory, m: Directory)
    requires Setting(c, Payload(c.w, package, data), nm) && Removable(nm, ImageAndRecord(versions))
    requires k < |Steps(nm, package, data, ImageAndRecord(versions))|
    requires step == Steps(nm, package, data, ImageAndRecord(versions))[k]
    requires Phase(c, Payload(c.w, package, data), nm, k, s) && Kept(c.w, nm, k, s) && Done(c.w, s, step, m)
    requires forall v :: v in versions ==> Parsed(v)
    ensures Phase(c, Payload(c.w, package, data), nm, k + 1, m) && Kept(c.w, nm, k + 1, m)
  {
    StepKeeps(c, package, data, nm, ImageAndRecord(versions), step, k, s, m);
    StepKeepsAll(c, package, data, nm, versions, step, k, s, m);
  }

  lemma {:induction false} RunKeepsAll(c: Claim, package: string, data: Extent, nm: Names, versions: seq<Version>,
                                       plan: seq<Step>, k: nat, s: Directory, s': Directory)
    requires Setting(c, Payload(c.w, package, data), nm) && Removable(nm, ImageAndRecord(versions))
    requires forall v :: v in versions ==> Parsed(v)
    requires plan == Steps(nm, package, data, ImageAndRecord(versions)) && k <= |plan|
    requires Phase(c, Payload(c.w, package, data), nm, k, s) && Kept(c.w, nm, k, s)
    requires RunStopped(c.w, s, plan[k..], s')
    ensures AllUsable(c.w, s')
    decreases |plan| - k
  {
    if k < |plan| {
      assert plan[k..][0] == plan[k] && plan[k..][1..] == plan[k + 1..];
      if Stopped(c.w, s, plan[k], s') {
        StepKeepsAll(c, package, data, nm, versions, plan[k], k, s, s');
      } else {
        var m: Directory :| Done(c.w, s, plan[k], m) && RunStopped(c.w, m, plan[k + 1..], s');
        StepAdvances(c, package, data, nm, versions, plan[k], k, s, m);
        RunKeepsAll(c, package, data, nm, versions, plan, k + 1, m, s');
      }
    }
  }

  lemma SupersededAreParsed(s: Directory, listing: seq<string>, v: Version, u: Version)
    requires IsListing(listing, s) && Parsed(v) && u in Superseded(FromListing(listing, CurrentTarget(s)), v)
    ensures Parsed(u)
  {
    var spared := SupersededSparesTheNewest(FromListing(listing, CurrentTarget(s)), v);
    SparedOrRemoved(s, listing, v, spared, u);
  }

  /** From a directory whose every image passes the check, an attempt to install a version that has
      no image there leaves every image passing, wherever it stops. */
  lemma AttemptKeepsAll(c: Claim, job: Job, s: Directory, s': Directory)
    requires ValidWorld(c.w) && ValidJob(c, job) && Safe(c, s) && !c.strict
    requires AllUsable(c.w, s) && ImageName(job.version) !in s
    requires Attempt(c.w, s, job, s')
    ensures AllUsable(c.w, s')
  {
    var listing: seq<string> :| IsListing(listing, s) && RunStopped(c.w, s, PlanFor(s, listing, job), s');
    var nm, versions := NamesOf(job.version), Superseded(FromListing(listing, CurrentTarget(s)), job.version);
    var _ := PlannedRemovals(s, listing, job.version);
    JobSetting(c, job);
    PlanIsSteps(s, listing, job);
    forall u | u in versions
      ensures Parsed(u)
    {
      SupersededAreParsed(s, listing, job.version, u);
    }
    var plan := Steps(nm, job.package, job.data, ImageAndRecord(versions));
    assert plan[0..] == PlanFor(s, listing, job);
    RunKeepsAll(c, job.package, job.data, nm, versions, plan, 0, s, s');
  }

  /** And that is exactly when: where the version has an image already, a run can stop with the
      record begun for the new one beside the old. */
  lemma OnlyReplacingAnImageOpensAWindow(c: Claim, job: Job, s: Directory, data: string)
    requires ValidWorld(c.w) && ValidJob(c, job) && Safe(c, s) && !c.strict
    requires AllUsable(c.w, s) && Buildable(c.w, job, data)
    ensures (forall s' :: Attempt(c.w, s, job, s') ==> AllUsable(c.w, s')) <==> ImageName(job.version) !in s
  {
    var v := job.version;
    if ImageName(v) !in s {
      forall s' | Attempt(c.w, s, job, s')
        ensures AllUsable(c.w, s')
      {
        AttemptKeepsAll(c, job, s, s');
      }
    } else {
      VersionOfImageName(v);
      assert ImageName(v) in Images(s);
      RecordIsAFile(c.w, s, v);
      var s' := WindowRun(c.w, job, s, data);
      assert ImageName(v) in Images(s');
    }
  }

  /** Over any history from the empty directory in which no attempt installs a version that already
      has an image, every image there is always passes the check. */
  lemma {:induction false} NoImageWithoutItsRecord(c: Claim, states: seq<Directory>, jobs: seq<Job>, i: nat)
    requires ValidWorld(c.w) && History(c, states, jobs) && !c.strict && i < |states| && states[0] == map[]
    requires forall j :: 0 <= j < |jobs| ==> ImageName(jobs[j].version) !in states[j]
    ensures Safe(c, states[i]) && AllUsable(c.w, states[i])
    decreases i
  {
    EmptyIsSafe(c);
    EveryHistoryIsSafe(c, states, jobs, i);
    if i > 0 {
      NoImageWithoutItsRecord(c, states, jobs, i - 1);
      assert Leads(c, states[i - 1], jobs[i - 1], states[i - 1 + 1]);
      AttemptKeepsAll(c, jobs[i - 1], states[i - 1], states[i]);
    }
  }
}
