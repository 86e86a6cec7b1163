/** No stopped attempt ever keeps a later one from finishing. */
module InstallProgress {
  import opened Wrappers
  import opened Text
  import opened Store
  import opened Build
  import opened Install
  import opened InstallSafety
  import opened Octets

  const ROOT_EXT: string := ".unpacked"

  /** Only staging roots are directories. */
  ghost predicate Tidy(s: Directory) {
    forall n :: IsDir(s, n) ==> EndsWith(n, ROOT_EXT)
  }

  predicate TidyStep(step: Step) {
    step.CreateDir? ==> EndsWith(step.path, ROOT_EXT)
  }

  lemma RemovalIsTidy(s: Directory, paths: seq<string>, s': Directory)
    requires Tidy(s) && (s' == RemoveAll(s, paths) || RemoveStopped(s, paths, s'))
    ensures Tidy(s')
  {
    RemoveAllMeans(s, paths);
    if RemoveStopped(s, paths, s') { RemoveStoppedMeans(s, paths, s'); }
    forall n | IsDir(s', n)
      ensures EndsWith(n, ROOT_EXT)
    {
      if RemoveStopped(s, paths, s') { assert SameAt(s, s', n) || IsDir(s, n); }
      assert IsDir(s, n);
    }
  }

  lemma StepIsTidy(w: World, s: Directory, step: Step, s': Directory)
    requires Tidy(s) && TidyStep(step) && Stopped(w, s, step, s')
    ensures Tidy(s')
  {
    match step
    case ClearStaging(paths) => if s' != s { RemovalIsTidy(s, paths, s'); }
    case Remove(paths) => if s' != s { RemovalIsTidy(s, paths, s'); }
    case RemoveDir(path) => if s' != s { RemovalIsTidy(s, [path], s'); }
    case _ =>
      forall n | IsDir(s', n)
        ensures EndsWith(n, ROOT_EXT)
      {
        assert IsDir(s, n) || step.CreateDir?;
      }
  }

  lemma {:induction false} RunIsTidy(w: World, s: Directory, steps: seq<Step>, s': Directory)
    requires Tidy(s) && RunStopped(w, s, steps, s')
    requires forall i :: 0 <= i < |steps| ==> TidyStep(steps[i])
    ensures Tidy(s')
    decreases steps
  {
    if steps != [] {
      if Stopped(w, s, steps[0], s') {
        StepIsTidy(w, s, steps[0], s');
      } else {
        var m: Directory :| Done(w, s, steps[0], m) && RunStopped(w, m, steps[1..], s');
        StepIsTidy(w, s, steps[0], m);
        RunIsTidy(w, m, steps[1..], s');
      }
    }
  }

  lemma PlanIsTidy(nm: Names, package: string, data: Extent, removed: seq<string>)
    requires EndsWith(nm.root, ROOT_EXT)
    ensures forall i :: 0 <= i < |Steps(nm, package, data, removed)| ==> TidyStep(Steps(nm, package, data, removed)[i])
  {
  }

  lemma RootsEndInTheirExtension(v: Version)
    ensures EndsWith(StagingRoot(v), ROOT_EXT)
  {
    var root := StagingRoot(v);
    assert root[|root| - |ROOT_EXT|..] == ROOT_EXT;
  }

  lemma AttemptIsTidy(w: World, s: Directory, job: Job, s': Directory)
    requires Tidy(s) && Attempt(w, s, job, s')
    ensures Tidy(s')
  {
    var listing: seq<string> :| IsListing(listing, s) && RunStopped(w, s, PlanFor(s, listing, job), s');
    var nm, removed := NamesOf(job.version), RemovedPaths(s, listing, job.version);
    RootsEndInTheirExtension(job.version);
    PlanIsSteps(s, listing, job);
    PlanIsTidy(nm, job.package, job.data, removed);
    RunIsTidy(w, s, Steps(nm, job.package, job.data, removed), s');
  }

  // ----- A whole run -----

  lemma DoneThenDone(w: World, s: Directory, step: Step, m: Directory, rest: seq<Step>, s': Directory)
    requires Done(w, s, step, m) && RunDone(w, m, rest, s')
    ensures RunDone(w, s, [step] + rest, s')
  {
    assert ([step] + rest)[0] == step && ([step] + rest)[1..] == rest;
  }

  lemma NamesAreNotRoots(v: Version)
    ensures !EndsWith(ImageName(v), ROOT_EXT) && !EndsWith(RecordName(v), ROOT_EXT)
    ensures !EndsWith(StagingImage(v), ROOT_EXT) && !EndsWith(SWAP, ROOT_EXT) && !EndsWith(CURRENT_LINK, ROOT_EXT)
  {
    LastLetter(ImageName(v), 'g');
    LastLetter(RecordName(v), '6');
    LastLetter(StagingImage(v), 'g');
    LastLetter(SWAP, 'p');
    LastLetter(CURRENT_LINK, 't');
  }

  lemma LastLetter(name: string, c: char)
    requires name != "" && name[|name| - 1] == c && c != 'd'
    ensures !EndsWith(name, ROOT_EXT)
  {
    if EndsWith(name, ROOT_EXT) { RootsEndInD(name); }
  }

  lemma RootsEndInD(name: string)
    requires EndsWith(name, ROOT_EXT)
    ensures name[|name| - 1] == 'd'
  {
    assert name[|name| - 1] == name[|name| - |ROOT_EXT|..][|ROOT_EXT| - 1];
  }

  /** The second half of a plan, from a staged image on. */
  lemma PublishRun(w: World, nm: Names, removed: seq<string>, s: Directory) returns (s': Directory)
    requires Separate(nm) && nm.staged in s && s[nm.staged].File?
    requires !IsDir(s, nm.record) && !IsDir(s, nm.image) && !IsDir(s, SWAP) && !IsDir(s, CURRENT_LINK)
    ensures RunDone(w, s, [Record(nm.staged, nm.record, nm.image)] + ([Publish(nm.staged, nm.image)]
                            + ([RemoveDir(nm.root)] + ([Activate(CURRENT_LINK, nm.image)]
                            + (if removed == [] then [] else [Remove(removed)])))), s')
  {
    var m5 := s[nm.record := File(RecordBody(w.hash(s[nm.staged].data), nm.image))];
    var m6 := (m5 - {nm.staged})[nm.image := m5[nm.staged]];
    var m7 := RemoveAll(m6, [nm.root]);
    RemoveAllMeans(m6, [nm.root]);
    var m8 := (m7 - {SWAP})[CURRENT_LINK := Link(nm.image)];
    var last: seq<Step> := if removed == [] then [] else [Remove(removed)];
    s' := if removed == [] then m8 else RemoveAll(m8, removed);
    if removed != [] {
      assert RunDone(w, s', [], s');
      DoneThenDone(w, m8, Remove(removed), s', [], s');
      assert [Remove(removed)] + [] == last;
    }
    var r4 := [Activate(CURRENT_LINK, nm.image)] + last;
    var r3 := [RemoveDir(nm.root)] + r4;
    DoneThenDone(w, m7, Activate(CURRENT_LINK, nm.image), m8, last, s');
    DoneThenDone(w, m6, RemoveDir(nm.root), m7, r4, s');
    DoneThenDone(w, m5, Publish(nm.staged, nm.image), m6, r3, s');
    DoneThenDone(w, s, Record(nm.staged, nm.record, nm.image), m5, [Publish(nm.staged, nm.image)] + r3, s');
  }

  /** The first half, up to the staged image. */
  lemma StageRun(w: World, nm: Names, package: string, data: Extent, image: string, rest: seq<Step>, s: Directory,
                 s': Directory)
    requires Separate(nm) && Payload(w, package, data).Some?
    requires w.builds(w.untar(Payload(w, package, data).value), image)
    requires RunDone(w, Staged(w, nm, package, data, image, s), rest, s')
    ensures RunDone(w, s,
                    [ClearStaging([nm.staged, nm.root])] + ([CreateDir(nm.root)]
                      + ([Unpack(package, data, nm.root)] + ([Mkfs(nm.root, nm.staged)] + rest))), s')
  {
    RemoveAllMeans(s, [nm.staged, nm.root]);
    var m1 := RemoveAll(s, [nm.staged, nm.root]);
    var m2 := m1[nm.root := Dir([])];
    var m3 := m2[nm.root := Dir(w.untar(Payload(w, package, data).value))];
    var m4 := Staged(w, nm, package, data, image, s);
    assert MadeFrom(w, m3, nm.root, nm.staged, image, m4);
    var r3 := [Mkfs(nm.root, nm.staged)] + rest;
    var r2 := [Unpack(package, data, nm.root)] + r3;
    DoneThenDone(w, m3, Mkfs(nm.root, nm.staged), m4, rest, s');
    DoneThenDone(w, m2, Unpack(package, data, nm.root), m3, r3, s');
    DoneThenDone(w, m1, CreateDir(nm.root), m2, r2, s');
    DoneThenDone(w, s, ClearStaging([nm.staged, nm.root]), m1, [CreateDir(nm.root)] + r2, s');
  }

  lemma WholePlan(nm: Names, package: string, data: Extent, removed: seq<string>)
    ensures Steps(nm, package, data, removed)
         == [ClearStaging([nm.staged, nm.root])] + ([CreateDir(nm.root)]
              + ([Unpack(package, data, nm.root)] + ([Mkfs(nm.root, nm.staged)]
              + ([Record(nm.staged, nm.record, nm.image)] + ([Publish(nm.staged, nm.image)]
              + ([RemoveDir(nm.root)] + ([Activate(CURRENT_LINK, nm.image)]
              + (if removed == [] then [] else [Remove(removed)]))))))))
  {
  }

  lemma CompleteFrom(w: World, s: Directory, nm: Names, package: string, data: Extent, image: string,
                     removed: seq<string>)
    returns (s': Directory)
    requires Separate(nm) && nm.root != SWAP && nm.staged != SWAP && Payload(w, package, data).Some?
    requires w.builds(w.untar(Payload(w, package, data).value), image)
    requires !IsDir(s, nm.record) && !IsDir(s, nm.image) && !IsDir(s, SWAP) && !IsDir(s, CURRENT_LINK)
    ensures RunDone(w, s, Steps(nm, package, data, removed), s')
  {
    StagedKeepsFiles(w, nm, package, data, image, s);
    s' := PublishRun(w, nm, removed, Staged(w, nm, package, data, image, s));
    var rest := [Record(nm.staged, nm.record, nm.image)] + ([Publish(nm.staged, nm.image)]
                  + ([RemoveDir(nm.root)] + ([Activate(CURRENT_LINK, nm.image)]
                  + (if removed == [] then [] else [Remove(removed)]))));
    StageRun(w, nm, package, data, image, rest, s, s');
    WholePlan(nm, package, data, removed);
  }

  /** From any tidy directory, a job whose payload is there and can be made into an image has a run
      that completes. */
  lemma CanComplete(w: World, s: Directory, job: Job, image: string)
    requires Tidy(s) && Parsed(job.version) && Buildable(w, job, image)
    ensures exists s' :: Completed(w, s, job, s')
  {
    var nm := NamesOf(job.version);
    var listing := KeysInOrder(s.Keys);
    var removed := RemovedPaths(s, listing, job.version);
    NamesAreSeparate(job.version);
    NamesAreNotRoots(job.version);
    StagingIsScratch(job.version);
    var s' := CompleteFrom(w, s, nm, job.package, job.data, image, removed);
    PlanIsSteps(s, listing, job);
    assert IsListing(listing, s) && RunDone(w, s, PlanFor(s, listing, job), s');
    assert Completed(w, s, job, s');
  }

  lemma StagedKeepsFiles(w: World, nm: Names, package: string, data: Extent, image: string, s: Directory)
    requires Separate(nm) && Payload(w, package, data).Some? && nm.root != SWAP && nm.staged != SWAP
    requires !IsDir(s, nm.record) && !IsDir(s, nm.image) && !IsDir(s, SWAP) && !IsDir(s, CURRENT_LINK)
    ensures var m := Staged(w, nm, package, data, image, s);
            && nm.staged in m && m[nm.staged].File?
            && !IsDir(m, nm.record) && !IsDir(m, nm.image) && !IsDir(m, SWAP) && !IsDir(m, CURRENT_LINK)
  {
    var m := Staged(w, nm, package, data, image, s);
    StagedElsewhere(w, nm, package, data, image, s, m, nm.record);
    StagedElsewhere(w, nm, package, data, image, s, m, nm.image);
    StagedElsewhere(w, nm, package, data, image, s, m, SWAP);
    StagedElsewhere(w, nm, package, data, image, s, m, CURRENT_LINK);
  }

  lemma StagedElsewhere(w: World, nm: Names, package: string, data: Extent, image: string, s: Directory, m: Directory,
                        n: string)
    requires Payload(w, package, data).Some? && m == Staged(w, nm, package, data, image, s)
    requires n != nm.root && n != nm.staged
    ensures IsDir(m, n) <==> IsDir(s, n)
  {
    RemoveAllMeans(s, [nm.staged, nm.root]);
  }

  /** After any history of attempts on a fresh directory, each stopped anywhere, every further job
      that can be built can be completed: nothing an attempt leaves behind is in its way. */
  lemma {:induction false} NeverWedged(c: Claim, states: seq<Directory>, jobs: seq<Job>, i: nat, job: Job,
                                       image: string)
    requires History(c, states, jobs) && i < |states| && states[0] == map[]
    requires Parsed(job.version) && Buildable(c.w, job, image)
    ensures exists s' :: Completed(c.w, states[i], job, s')
  {
    HistoryIsTidy(c, states, jobs, i);
    CanComplete(c.w, states[i], job, image);
  }

  lemma {:induction false} HistoryIsTidy(c: Claim, states: seq<Directory>, jobs: seq<Job>, i: nat)
    requires History(c, states, jobs) && i < |states| && states[0] == map[]
    ensures Tidy(states[i])
    decreases i
  {
    if i > 0 {
      var j := i - 1;
      HistoryIsTidy(c, states, jobs, j);
      assert Leads(c, states[j], jobs[j], states[j + 1]);
      AttemptIsTidy(c.w, states[j], jobs[j], states[i]);
    }
  }

  // ----- No uninterrupted run gets stuck -----

  /** What the names and the payload of a job give, whatever state the directory is in. */
  ghost predicate Fit(w: World, mkfs: Mkfs, payload: Option<Bytes>, nm: Names) {
    && payload.Some? && mkfs(w.untar(payload.value)).Some? && EndsWith(nm.root, ROOT_EXT)
    && !EndsWith(nm.image, ROOT_EXT) && !EndsWith(nm.record, ROOT_EXT) && !EndsWith(nm.staged, ROOT_EXT)
    && !EndsWith(SWAP, ROOT_EXT) && !EndsWith(CURRENT_LINK, ROOT_EXT)
  }

  lemma StepCanBeDone(c: Claim, mkfs: Mkfs, package: string, data: Extent, nm: Names, removed: seq<string>, k: nat,
                      m: Directory)
    requires k < |Steps(nm, package, data, removed)|
    requires Fit(c.w, mkfs, Payload(c.w, package, data), nm) && Tidy(m)
    requires Phase(c, Payload(c.w, package, data), nm, k, m)
    ensures Feasible(c.w, mkfs, m, Steps(nm, package, data, removed)[k])
  {
  }

  lemma FirstOf(w: World, s: Directory, plan: seq<Step>, j: nat, k: nat, m: Directory) returns (next: Directory)
    requires j < k <= |plan| && RunDone(w, s, plan[j..k], m)
    ensures Done(w, s, plan[j], next) && RunDone(w, next, plan[j + 1..k], m)
  {
    assert plan[j..k][0] == plan[j] && plan[j..k][1..] == plan[j + 1..k];
    next :| Done(w, s, plan[j], next) && RunDone(w, next, plan[j + 1..k], m);
  }

  lemma StepAdvances(c: Claim, package: string, data: Extent, nm: Names, removed: seq<string>, step: Step, k: nat,
                     s: Directory, m: Directory)
    requires Setting(c, Payload(c.w, package, data), nm) && Removable(nm, removed) && EndsWith(nm.root, ROOT_EXT)
    requires k < |Steps(nm, package, data, removed)| && step == Steps(nm, package, data, removed)[k]
    requires Phase(c, Payload(c.w, package, data), nm, k, s) && Tidy(s) && Done(c.w, s, step, m)
    ensures Phase(c, Payload(c.w, package, data), nm, k + 1, m) && Tidy(m)
  {
    StepCompletes(c, package, data, nm, removed, step, k, s, m);
    PlanIsTidy(nm, package, data, removed);
    StepIsTidy(c.w, s, step, m);
  }

  lemma {:induction false} StateAfter(c: Claim, package: string, data: Extent, nm: Names, removed: seq<string>,
                                      plan: seq<Step>, j: nat, k: nat, s: Directory, m: Directory)
    requires Setting(c, Payload(c.w, package, data), nm) && Removable(nm, removed)
    requires plan == Steps(nm, package, data, removed) && j <= k <= |plan| && EndsWith(nm.root, ROOT_EXT)
    requires Phase(c, Payload(c.w, package, data), nm, j, s) && Tidy(s)
    requires RunDone(c.w, s, plan[j..k], m)
    ensures Phase(c, Payload(c.w, package, data), nm, k, m) && Tidy(m)
    decreases k - j
  {
    if j < k {
      var next := FirstOf(c.w, s, plan, j, k, m);
      StepAdvances(c, package, data, nm, removed, plan[j], j, s, next);
      StateAfter(c, package, data, nm, removed, plan, j + 1, k, next, m);
    }
  }

  /** From any tidy and safe directory, a job whose payload is there and can be made into an image
      meets no step that cannot be done. */
  lemma NeverStuck(c: Claim, mkfs: Mkfs, s: Directory, listing: seq<string>, job: Job, k: nat)
    requires ValidWorld(c.w) && ValidJob(c, job) && Safe(c, s) && !c.strict && Tidy(s) && IsListing(listing, s)
    requires Payload(c.w, job.package, job.data).Some?
    requires mkfs(c.w.untar(Payload(c.w, job.package, job.data).value)).Some?
    ensures !StuckAt(c.w, mkfs, s, PlanFor(s, listing, job), k)
  {
    var nm, removed := NamesOf(job.version), RemovedPaths(s, listing, job.version);
    var plan := PlanFor(s, listing, job);
    var _ := PlannedRemovals(s, listing, job.version);
    JobSetting(c, job);
    PlanIsSteps(s, listing, job);
    RootsEndInTheirExtension(job.version);
    NamesAreNotRoots(job.version);
    if StuckAt(c.w, mkfs, s, plan, k) {
      var m: Directory :| RunDone(c.w, s, plan[..k], m) && !Feasible(c.w, mkfs, m, plan[k]);
      assert plan[0..k] == plan[..k];
      StateAfter(c, job.package, job.data, nm, removed, plan, 0, k, s, m);
      StepCanBeDone(c, mkfs, job.package, job.data, nm, removed, k, m);
    }
  }

  /** After any history of attempts on a fresh directory, an uninterrupted run of any further job that
      can be built gets to its end. */
  lemma UninterruptedRunsFinish(c: Claim, mkfs: Mkfs, states: seq<Directory>, jobs: seq<Job>, i: nat,
                                listing: seq<string>, job: Job, k: nat)
    requires ValidWorld(c.w) && History(c, states, jobs) && !c.strict && i < |states| && states[0] == map[]
    requires ValidJob(c, job) && IsListing(listing, states[i])
    requires Payload(c.w, job.package, job.data).Some?
    requires mkfs(c.w.untar(Payload(c.w, job.package, job.data).value)).Some?
    ensures !StuckAt(c.w, mkfs, states[i], PlanFor(states[i], listing, job), k)
  {
    EmptyIsSafe(c);
    EveryHistoryIsSafe(c, states, jobs, i);
    HistoryIsTidy(c, states, jobs, i);
    NeverStuck(c, mkfs, states[i], listing, job, k);
  }
}
