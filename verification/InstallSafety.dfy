/** What every run of every install plan keeps, wherever it stops. */
module InstallSafety {
  import opened Wrappers
  import opened Text
  import opened Store
  import opened Build
  import opened Mount
  import opened Install
  import opened Octets

  // ----- What a later boot sees -----

  /** `mount::check` on an image of this directory and the record beside it. */
  function CheckIn(w: World, s: Directory, image: string): Result<Verified, Refusal> {
    Check(image, image + RECORD_EXT,
          n => n in s && !s[n].Link?,
          n => if n in s && s[n].File? then Some(s[n].data) else None,
          n => if n in s && s[n].File? then Some(w.hash(s[n].data)) else None)
  }

  predicate Usable(w: World, s: Directory, image: string) {
    CheckIn(w, s, image).Ok?
  }

  lemma UsableByDigest(w: World, s: Directory, image: string)
    ensures Usable(w, s, image) <==>
            && image in s && s[image].File?
            && image + RECORD_EXT in s && s[image + RECORD_EXT].File?
            && DigestFromRecord(s[image + RECORD_EXT].data, image).Some?
            && Lower(DigestFromRecord(s[image + RECORD_EXT].data, image).value) == Lower(w.hash(s[image].data))
  {
  }

  predicate Present(s: Directory, n: string) {
    n in s && !s[n].Link?
  }

  predicate IsFile(s: Directory, n: string) {
    n in s && s[n].File?
  }

  /** The record is a file and holds these digits for the image beside it. */
  ghost predicate Holds(s: Directory, image: string, digits: string) {
    IsFile(s, image + ".sha256") && RecordHolds(s[image + ".sha256"].data, image, digits)
  }

  /** When each answer of the check is given. */
  ghost predicate Answered(w: World, s: Directory, image: string, r: Result<Verified, Refusal>) {
    match r
    case Err(NoImage(n)) => n == image && !Present(s, image)
    case Err(NoRecord(n)) => n == image + ".sha256" && Present(s, image) && !Present(s, n)
    case Err(UnreadableRecord(n)) =>
      && n == image + ".sha256" && Present(s, image) && Present(s, n)
      && forall digits :: !Holds(s, image, digits)
    case Err(Failed) => Present(s, image) && !IsFile(s, image) && exists digits :: Holds(s, image, digits)
    case Err(Altered(n, recorded, found)) =>
      && n == image && IsFile(s, image) && found == w.hash(s[image].data) && Lower(found) != recorded
      && exists digits :: Holds(s, image, digits) && recorded == Lower(digits)
    case Ok(Verified(digest)) =>
      && IsFile(s, image) && digest == Lower(w.hash(s[image].data))
      && exists digits :: Holds(s, image, digits) && digest == Lower(digits)
  }

  /** The digest that is read, when one is. */
  ghost predicate IsRead(s: Directory, image: string, digest: Option<string>) {
    && (forall digits :: Holds(s, image, digits) ==> digest == Some(Lower(digits)))
    && (digest.Some? ==> exists digits :: Holds(s, image, digits) && digest.value == Lower(digits))
  }

  lemma ReadIs(s: Directory, image: string)
    requires IsFile(s, image + RECORD_EXT)
    ensures IsRead(s, image, DigestFromRecord(s[image + RECORD_EXT].data, image))
  {
    var body := s[image + RECORD_EXT].data;
    forall digits | Holds(s, image, digits)
      ensures DigestFromRecord(body, image) == Some(Lower(digits))
    {
      DigestMeans(body, image, Lower(digits));
    }
    if DigestFromRecord(body, image).Some? {
      var digest := DigestFromRecord(body, image).value;
      DigestMeans(body, image, digest);
      var digits :| RecordHolds(body, image, digits) && digest == Lower(digits);
      assert Holds(s, image, digits);
    }
  }

  /** The check, with the digest it reads. */
  function CheckedWith(w: World, s: Directory, image: string, record: string, digest: Option<string>)
    : Result<Verified, Refusal>
  {
    if !Present(s, image) then Err(NoImage(image))
    else if !Present(s, record) then Err(NoRecord(record))
    else if digest.None? then Err(UnreadableRecord(record))
    else if !IsFile(s, image) then Err(Failed)
    else if Lower(w.hash(s[image].data)) != Lower(digest.value) then
      Err(Altered(image, digest.value, w.hash(s[image].data)))
    else Ok(Verified(digest.value))
  }

  lemma CheckedBy(w: World, s: Directory, image: string) returns (digest: Option<string>)
    ensures CheckIn(w, s, image) == CheckedWith(w, s, image, image + RECORD_EXT, digest)
    ensures IsRead(s, image, digest)
  {
    digest := None;
    if IsFile(s, image + RECORD_EXT) {
      ReadIs(s, image);
      digest := DigestFromRecord(s[image + RECORD_EXT].data, image);
    }
  }

  lemma AnswersWith(w: World, s: Directory, image: string, digest: Option<string>)
    requires IsRead(s, image, digest)
    ensures Answered(w, s, image, CheckedWith(w, s, image, image + RECORD_EXT, digest))
  {
    if digest.Some? {
      var digits :| Holds(s, image, digits) && digest.value == Lower(digits);
      LowerIsIdempotent(digits);
    }
  }

  lemma CheckAnswers(w: World, s: Directory, image: string)
    ensures Answered(w, s, image, CheckIn(w, s, image))
  {
    var digest := CheckedBy(w, s, image);
    AnswersWith(w, s, image, digest);
  }

  /** An image passes exactly when its record holds, for its very name, the digest of its present
      bytes, in either case. */
  lemma UsableMeans(w: World, s: Directory, image: string)
    ensures Usable(w, s, image) <==>
            && IsFile(s, image)
            && exists digits :: Holds(s, image, digits) && Lower(digits) == Lower(w.hash(s[image].data))
  {
    var digest := CheckedBy(w, s, image);
    PassesWith(w, s, image, digest);
  }

  lemma PassesWith(w: World, s: Directory, image: string, digest: Option<string>)
    requires IsRead(s, image, digest)
    ensures CheckedWith(w, s, image, image + RECORD_EXT, digest).Ok? <==>
            && IsFile(s, image)
            && exists digits :: Holds(s, image, digits) && Lower(digits) == Lower(w.hash(s[image].data))
  {
    if digest.Some? {
      var digits :| Holds(s, image, digits) && digest.value == Lower(digits);
      LowerIsIdempotent(digits);
    }
  }

  /** The image was made of the complete unpacking of an accepted payload. */
  ghost predicate Whole(w: World, accepted: Bytes -> bool, data: string) {
    exists p: Bytes :: accepted(p) && w.builds(w.untar(p), data)
  }

  function Images(s: Directory): set<string> {
    set n | n in s && VersionOf(n).Some?
  }

  /** What a proof is about: the world, which payloads were accepted by verification, and
      whether the active image must stay usable throughout. */
  datatype Claim = Claim(w: World, accepted: Bytes -> bool, strict: bool)

  /** Every version-named image is whole, and `current`, once it exists, names one of them;
      under a strict claim that one also passes the check. */
  ghost predicate Safe(c: Claim, s: Directory) {
    && (forall n :: n in Images(s) ==> s[n].File? && Whole(c.w, c.accepted, s[n].data))
    && (CURRENT_LINK in s ==>
          && s[CURRENT_LINK].Link? && s[CURRENT_LINK].target in Images(s)
          && (c.strict ==> Usable(c.w, s, s[CURRENT_LINK].target)))
  }

  ghost predicate NotActive(s: Directory, image: string) {
    CurrentTarget(s) != Some(image)
  }

  /** What a job needs of the source's own callers: a version `parse` gave, on one line, and a
      payload the package comparison accepted. */
  ghost predicate ValidJob(c: Claim, job: Job) {
    && Parsed(job.version) && '\n' !in job.version.raw
    && forall p :: Payload(c.w, job.package, job.data) == Some(p) ==> c.accepted(p)
  }

  // ----- Frames -----

  function ToSet(paths: seq<string>): set<string> {
    set p | p in paths
  }

  function Touched(step: Step): set<string> {
    match step
    case ClearStaging(paths) => ToSet(paths)
    case CreateDir(path) => {path}
    case Unpack(_, _, into) => {into}
    case Mkfs(_, image) => {image}
    case Record(_, record, _) => {record}
    case Publish(staged, name) => {staged, name}
    case Activate(link, _) => {SWAP, link}
    case Remove(paths) => ToSet(paths)
    case RemoveDir(path) => {path}
  }

  ghost predicate SameAt(s: Directory, s': Directory, n: string) {
    (n in s <==> n in s') && (n in s && n in s' ==> s[n] == s'[n])
  }

  lemma {:induction false} RemoveAllMeans(s: Directory, paths: seq<string>)
    ensures forall n :: n in RemoveAll(s, paths) <==> n in s && n !in paths
    ensures forall n :: n in RemoveAll(s, paths) ==> RemoveAll(s, paths)[n] == s[n]
    decreases paths
  {
    if paths != [] {
      RemoveAllMeans(s - {paths[0]}, paths[1..]);
      assert paths == [paths[0]] + paths[1..];
    }
  }

  /** Half a removal: every entry is as it was, or is one of the paths, and then it is gone
      or was and is a directory. */
  lemma {:induction false} RemoveStoppedMeans(s: Directory, paths: seq<string>, s': Directory)
    requires RemoveStopped(s, paths, s')
    ensures forall n :: n in s' ==> n in s
    ensures forall n :: SameAt(s, s', n) || (n in paths && (n !in s' || IsDir(s, n)))
    decreases paths
  {
    if s' != s && RemoveStopped(s - {paths[0]}, paths[1..], s') {
      RemoveStoppedMeans(s - {paths[0]}, paths[1..], s');
      assert paths == [paths[0]] + paths[1..];
      forall n
        ensures SameAt(s, s', n) || (n in paths && (n !in s' || IsDir(s, n)))
      {
        if n != paths[0] {
          assert SameAt(s, s - {paths[0]}, n);
        }
      }
    }
  }

  lemma TouchedOnly(w: World, s: Directory, step: Step, s': Directory)
    requires Stopped(w, s, step, s')
    ensures forall n :: n !in Touched(step) ==> SameAt(s, s', n)
  {
    match step
    case ClearStaging(paths) =>
      RemoveAllMeans(s, paths);
      if RemoveStopped(s, paths, s') { RemoveStoppedMeans(s, paths, s'); }
    case Remove(paths) =>
      RemoveAllMeans(s, paths);
      if RemoveStopped(s, paths, s') { RemoveStoppedMeans(s, paths, s'); }
    case RemoveDir(path) =>
      RemoveAllMeans(s, [path]);
      if RemoveStopped(s, [path], s') { RemoveStoppedMeans(s, [path], s'); }
    case _ =>
  }

  lemma UsableFrame(w: World, s: Directory, s': Directory, image: string)
    requires SameAt(s, s', image) && SameAt(s, s', image + RECORD_EXT)
    ensures Usable(w, s, image) == Usable(w, s', image)
  {
    UsableByDigest(w, s, image);
    UsableByDigest(w, s', image);
  }

  /** Changes to scratch names, and to records of inactive images, are harmless. */
  lemma SafeFrame(c: Claim, s: Directory, s': Directory, changed: set<string>)
    requires Safe(c, s)
    requires forall n :: n !in changed ==> SameAt(s, s', n)
    requires forall n :: n in changed ==> VersionOf(n).None? && n != CURRENT_LINK
    requires c.strict ==> forall n :: n in changed ==>
              CurrentTarget(s).None? || n != CurrentTarget(s).value + RECORD_EXT
    ensures Safe(c, s') && CurrentTarget(s') == CurrentTarget(s)
    ensures Images(s') == Images(s) && forall n :: n in Images(s) ==> s[n] == s'[n]
  {
    assert SameAt(s, s', CURRENT_LINK);
    forall n | VersionOf(n).Some?
      ensures SameAt(s, s', n)
    {
      assert n !in changed;
    }
    assert Images(s') == Images(s);
    if CURRENT_LINK in s {
      var t := s[CURRENT_LINK].target;
      if c.strict {
        UsableFrame(c.w, s, s', t);
      }
    }
  }

  lemma QuietStep(c: Claim, s: Directory, step: Step, s': Directory)
    requires Safe(c, s) && Stopped(c.w, s, step, s')
    requires forall n :: n in Touched(step) ==> IsScratch(n)
    ensures Safe(c, s') && CurrentTarget(s') == CurrentTarget(s) && Images(s') == Images(s)
    ensures forall n :: !IsScratch(n) ==> SameAt(s, s', n)
  {
    TouchedOnly(c.w, s, step, s');
    if c.strict && CurrentTarget(s).Some? {
      var t := CurrentTarget(s).value;
      assert EndsWith(t + RECORD_EXT, RECORD_EXT);
    }
    SafeFrame(c, s, s', Touched(step));
  }

  // ----- One plan, step by step -----

  /** The four names one install works with. */
  datatype Names = Names(image: string, record: string, staged: string, root: string)

  function NamesOf(v: Version): Names {
    Names(ImageName(v), RecordName(v), StagingImage(v), StagingRoot(v))
  }

  ghost predicate Separate(nm: Names) {
    && VersionOf(nm.image).Some? && nm.image != CURRENT_LINK && !EndsWith(nm.image, RECORD_EXT)
    && nm.record == nm.image + RECORD_EXT && VersionOf(nm.record).None? && nm.record != CURRENT_LINK
    && EndsWith(nm.record, RECORD_EXT)
    && IsScratch(nm.staged) && IsScratch(nm.root) && IsScratch(SWAP) && nm.staged != nm.root
    && VersionOf(CURRENT_LINK).None? && !EndsWith(CURRENT_LINK, RECORD_EXT)
  }

  lemma NamesAreSeparate(v: Version)
    requires Parsed(v)
    ensures Separate(NamesOf(v))
  {
    StagingIsScratch(v);
    RecordsAreNotImages(v);
    VersionOfImageName(v);
  }

  /** The image and the record are in place and belong together. */
  ghost predicate Published(w: World, s: Directory, nm: Names) {
    && nm.image in s && s[nm.image].File?
    && nm.record in s && s[nm.record] == File(RecordBody(w.hash(s[nm.image].data), nm.image))
  }

  /** The image was made of the complete unpacking of this payload. */
  ghost predicate MadeOf(w: World, payload: Option<Bytes>, data: string) {
    payload.Some? && w.builds(w.untar(payload.value), data)
  }

  /** What is known before step `k` of a plan over these names that unpacks `payload`. */
  ghost predicate Phase(c: Claim, payload: Option<Bytes>, nm: Names, k: nat, s: Directory) {
    && Safe(c, s)
    && (c.strict && k < 8 ==> NotActive(s, nm.image))
    && (1 <= k <= 3 ==> nm.staged !in s)
    && (k == 1 ==> nm.root !in s)
    && (k == 2 ==> nm.root in s && s[nm.root] == Dir([]))
    && (k == 3 ==> payload.Some? && nm.root in s && s[nm.root] == Dir(c.w.untar(payload.value)))
    && (4 <= k <= 5 ==> nm.staged in s && s[nm.staged].File? && MadeOf(c.w, payload, s[nm.staged].data))
    && (k == 5 ==> nm.record in s && s[nm.record] == File(RecordBody(c.w.hash(s[nm.staged].data), nm.image)))
    && (k >= 6 ==> Published(c.w, s, nm) && MadeOf(c.w, payload, s[nm.image].data))
    && (k >= 8 ==> CurrentTarget(s) == Some(nm.image))
  }

  /** The plan again, with its names taken apart. */
  function Steps(nm: Names, package: string, data: Extent, removed: seq<string>): seq<Step> {
    [ ClearStaging([nm.staged, nm.root]),
      CreateDir(nm.root),
      Unpack(package, data, nm.root),
      Mkfs(nm.root, nm.staged),
      Record(nm.staged, nm.record, nm.image),
      Publish(nm.staged, nm.image),
      RemoveDir(nm.root),
      Activate(CURRENT_LINK, nm.image)
    ] + if removed == [] then [] else [Remove(removed)]
  }

  /** The claim, the job's payload and the names, as every step below assumes them. */
  ghost predicate Setting(c: Claim, payload: Option<Bytes>, nm: Names) {
    && Separate(nm)
    && (payload.Some? ==> c.accepted(payload.value))
    && forall s: Directory {:trigger Published(c.w, s, nm)} :: Published(c.w, s, nm) ==> Usable(c.w, s, nm.image)
  }

  lemma PublishedIsUsable(w: World, s: Directory, v: Version)
    requires ValidWorld(w) && Parsed(v) && Published(w, s, NamesOf(v))
    ensures Usable(w, s, ImageName(v)) <==> '\n' !in v.raw
  {
    var image := ImageName(v);
    RecordsAreNotImages(v);
    RecordRoundTrip(w.hash(s[image].data), image);
    ImageNamesAreTrimmed(v);
    LowerIsIdempotent(w.hash(s[image].data));
    UsableByDigest(w, s, image);
    assert forall i :: 0 <= i < |v.raw| ==> image[i] == v.raw[i];
  }

  /** A version starts with a digit or a sign, and an image name ends in its extension. */
  lemma ImageNamesAreTrimmed(v: Version)
    requires Parsed(v)
    ensures Trimmed(ImageName(v))
  {
    var numeric := Split(v.raw, '-')[0];
    var first := Split(numeric, '.')[0];
    assert ParseUnsigned(first, U64_MAX).Some?;
    SplitStarts(numeric, '.');
    SplitStarts(v.raw, '-');
    assert first[0] == v.raw[0] && (IsDigit(first[0]) || first[0] == '+') by {
      if |first| > 1 && first[0] == '+' {
      } else {
        assert AllDigits(first);
      }
    }
    assert ImageName(v)[|ImageName(v)| - 1] == 'g';
  }

  lemma SplitStarts(s: string, sep: char)
    ensures Split(s, sep)[0] != "" ==> s != "" && s[0] == Split(s, sep)[0][0]
  {
  }

  lemma JobSetting(c: Claim, job: Job)
    requires ValidWorld(c.w) && ValidJob(c, job)
    ensures Setting(c, Payload(c.w, job.package, job.data), NamesOf(job.version))
  {
    NamesAreSeparate(job.version);
    forall s: Directory | Published(c.w, s, NamesOf(job.version))
      ensures Usable(c.w, s, ImageName(job.version))
    {
      PublishedIsUsable(c.w, s, job.version);
    }
  }

  /** A step of the plan, and what it takes for it to keep the phases. */
  ghost predicate Keeps(c: Claim, payload: Option<Bytes>, nm: Names, k: nat, s: Directory, step: Step, s': Directory) {
    && Safe(c, s')
    && (Done(c.w, s, step, s') ==> Phase(c, payload, nm, k + 1, s'))
  }

  lemma ClearStep(c: Claim, payload: Option<Bytes>, nm: Names, s: Directory, s': Directory)
    requires Setting(c, payload, nm) && Phase(c, payload, nm, 0, s)
    requires Stopped(c.w, s, ClearStaging([nm.staged, nm.root]), s')
    ensures Keeps(c, payload, nm, 0, s, ClearStaging([nm.staged, nm.root]), s') && Images(s') == Images(s)
  {
    QuietStep(c, s, ClearStaging([nm.staged, nm.root]), s');
    RemoveAllMeans(s, [nm.staged, nm.root]);
  }

  lemma CreateStep(c: Claim, payload: Option<Bytes>, nm: Names, s: Directory, s': Directory)
    requires Setting(c, payload, nm) && Phase(c, payload, nm, 1, s)
    requires Stopped(c.w, s, CreateDir(nm.root), s')
    ensures Keeps(c, payload, nm, 1, s, CreateDir(nm.root), s') && Images(s') == Images(s)
  {
    QuietStep(c, s, CreateDir(nm.root), s');
  }

  lemma UnpackStep(c: Claim, package: string, data: Extent, nm: Names, s: Directory, s': Directory)
    requires Setting(c, Payload(c.w, package, data), nm) && Phase(c, Payload(c.w, package, data), nm, 2, s)
    requires Stopped(c.w, s, Unpack(package, data, nm.root), s')
    ensures Keeps(c, Payload(c.w, package, data), nm, 2, s, Unpack(package, data, nm.root), s')
            && Images(s') == Images(s)
  {
    QuietStep(c, s, Unpack(package, data, nm.root), s');
  }

  lemma MkfsStep(c: Claim, payload: Option<Bytes>, nm: Names, s: Directory, s': Directory)
    requires Setting(c, payload, nm) && Phase(c, payload, nm, 3, s)
    requires Stopped(c.w, s, Mkfs(nm.root, nm.staged), s')
    ensures Keeps(c, payload, nm, 3, s, Mkfs(nm.root, nm.staged), s') && Images(s') == Images(s)
  {
    QuietStep(c, s, Mkfs(nm.root, nm.staged), s');
    if Done(c.w, s, Mkfs(nm.root, nm.staged), s') {
      var data: string :| MadeFrom(c.w, s, nm.root, nm.staged, data, s');
      assert c.accepted(payload.value) && c.w.builds(c.w.untar(payload.value), data);
    }
  }

  lemma InactiveRecord(nm: Names, s: Directory)
    requires Separate(nm) && NotActive(s, nm.image)
    ensures CurrentTarget(s).None? || nm.record != CurrentTarget(s).value + RECORD_EXT
  {
    if CurrentTarget(s).Some? && nm.record == CurrentTarget(s).value + RECORD_EXT {
      SuffixCancels(nm.image, CurrentTarget(s).value, RECORD_EXT);
    }
  }

  lemma RecordStep(c: Claim, payload: Option<Bytes>, nm: Names, s: Directory, s': Directory)
    requires Setting(c, payload, nm) && Phase(c, payload, nm, 4, s)
    requires Stopped(c.w, s, Record(nm.staged, nm.record, nm.image), s')
    ensures Keeps(c, payload, nm, 4, s, Record(nm.staged, nm.record, nm.image), s') && Images(s') == Images(s)
  {
    TouchedOnly(c.w, s, Record(nm.staged, nm.record, nm.image), s');
    if c.strict {
      InactiveRecord(nm, s);
    }
    SafeFrame(c, s, s', {nm.record});
  }

  lemma SuffixCancels(a: string, b: string, suffix: string)
    requires a + suffix == b + suffix
    ensures a == b
  {
    assert (a + suffix)[..|a|] == a && (b + suffix)[..|b|] == b;
  }

  lemma RenameIsSafe(c: Claim, s: Directory, staged: string, image: string, s': Directory)
    requires Safe(c, s) && (c.strict ==> NotActive(s, image))
    requires staged in s && s[staged].File? && Whole(c.w, c.accepted, s[staged].data) && IsScratch(staged)
    requires VersionOf(image).Some? && image != CURRENT_LINK && !EndsWith(image, RECORD_EXT)
    requires s' == (s - {staged})[image := s[staged]]
    ensures Safe(c, s') && CurrentTarget(s') == CurrentTarget(s)
    ensures Images(s') == Images(s) + {image}
  {
    assert SameAt(s, s', CURRENT_LINK);
    if CURRENT_LINK in s && c.strict {
      var t := s[CURRENT_LINK].target;
      assert t in Images(s) && t != image && SameAt(s, s', t);
      assert EndsWith(t + RECORD_EXT, RECORD_EXT);
      assert SameAt(s, s', t + RECORD_EXT);
      UsableFrame(c.w, s, s', t);
    }
  }

  lemma PublishStep(c: Claim, payload: Option<Bytes>, nm: Names, s: Directory, s': Directory)
    requires Setting(c, payload, nm) && Phase(c, payload, nm, 5, s)
    requires Stopped(c.w, s, Publish(nm.staged, nm.image), s')
    ensures Keeps(c, payload, nm, 5, s, Publish(nm.staged, nm.image), s')
    ensures Done(c.w, s, Publish(nm.staged, nm.image), s') ==> Images(s') == Images(s) + {nm.image}
  {
    if Done(c.w, s, Publish(nm.staged, nm.image), s') {
      RenameIsSafe(c, s, nm.staged, nm.image, s');
      assert SameAt(s, s', nm.record);
    }
  }

  lemma ClearRootStep(c: Claim, payload: Option<Bytes>, nm: Names, s: Directory, s': Directory)
    requires Setting(c, payload, nm) && Phase(c, payload, nm, 6, s)
    requires Stopped(c.w, s, RemoveDir(nm.root), s')
    ensures Keeps(c, payload, nm, 6, s, RemoveDir(nm.root), s') && Images(s') == Images(s)
  {
    QuietStep(c, s, RemoveDir(nm.root), s');
    assert SameAt(s, s', nm.image) && SameAt(s, s', nm.record);
  }

  lemma LinkIsSafe(c: Claim, s: Directory, swap: string, link: string, image: string, s': Directory)
    requires Safe(c, s) && image in Images(s) && (c.strict ==> Usable(c.w, s, image))
    requires link == CURRENT_LINK && IsScratch(swap) && VersionOf(link).None? && !EndsWith(link, RECORD_EXT)
    requires s' == (s - {swap})[link := Link(image)]
    ensures Safe(c, s') && CurrentTarget(s') == Some(image)
    ensures Images(s') == Images(s)
  {
    assert EndsWith(image + RECORD_EXT, RECORD_EXT);
    assert SameAt(s, s', image) && SameAt(s, s', image + RECORD_EXT);
    UsableFrame(c.w, s, s', image);
    assert Images(s') == Images(s);
  }

  lemma ActivateDone(c: Claim, payload: Option<Bytes>, nm: Names, s: Directory, s': Directory)
    requires Setting(c, payload, nm) && Phase(c, payload, nm, 7, s)
    requires s' == (s - {SWAP})[CURRENT_LINK := Link(nm.image)]
    ensures Phase(c, payload, nm, 8, s') && Images(s') == Images(s)
  {
    LinkIsSafe(c, s, SWAP, CURRENT_LINK, nm.image, s');
    assert SameAt(s, s', nm.image) && SameAt(s, s', nm.record);
  }

  lemma ActivateStopped(c: Claim, nm: Names, s: Directory, s': Directory)
    requires Separate(nm) && Safe(c, s)
    requires forall n :: n != SWAP ==> SameAt(s, s', n)
    ensures Safe(c, s') && Images(s') == Images(s)
  {
    if c.strict && CurrentTarget(s).Some? {
      assert EndsWith(CurrentTarget(s).value + RECORD_EXT, RECORD_EXT);
    }
    SafeFrame(c, s, s', {SWAP});
  }

  lemma ActivateCases(w: World, s: Directory, link: string, image: string, s': Directory)
    requires Stopped(w, s, Activate(link, image), s')
    ensures s' == (s - {SWAP})[link := Link(image)] || forall n :: n != SWAP ==> SameAt(s, s', n)
  {
  }

  lemma ActivateStep(c: Claim, payload: Option<Bytes>, nm: Names, s: Directory, step: Step, s': Directory)
    requires Setting(c, payload, nm) && Phase(c, payload, nm, 7, s)
    requires step == Activate(CURRENT_LINK, nm.image) && Stopped(c.w, s, step, s')
    ensures Keeps(c, payload, nm, 7, s, step, s') && Images(s') == Images(s)
  {
    ActivateCases(c.w, s, CURRENT_LINK, nm.image, s');
    if s' == (s - {SWAP})[CURRENT_LINK := Link(nm.image)] {
      ActivateDone(c, payload, nm, s, s');
    } else {
      ActivateStopped(c, nm, s, s');
    }
  }

  /** What a retention step may remove: anything but the installed image, its record and the link. */
  ghost predicate Removable(nm: Names, paths: seq<string>) {
    nm.image !in paths && nm.record !in paths && CURRENT_LINK !in paths
  }

  lemma RemoveStep(c: Claim, payload: Option<Bytes>, nm: Names, paths: seq<string>, s: Directory, s': Directory)
    requires Setting(c, payload, nm) && Removable(nm, paths) && Phase(c, payload, nm, 8, s)
    requires Stopped(c.w, s, Remove(paths), s')
    ensures Keeps(c, payload, nm, 8, s, Remove(paths), s')
    ensures Done(c.w, s, Remove(paths), s') ==> Images(s') == Images(s) - ToSet(paths)
  {
    RemoveAllMeans(s, paths);
    if RemoveStopped(s, paths, s') {
      RemoveStoppedMeans(s, paths, s');
    }
    assert SameAt(s, s', nm.image) && SameAt(s, s', nm.record) && SameAt(s, s', CURRENT_LINK);
    assert forall n :: n in Images(s') ==> n in Images(s) && SameAt(s, s', n);
    UsableFrame(c.w, s, s', nm.image);
  }

  lemma StepIsSafe(c: Claim, package: string, data: Extent, nm: Names, removed: seq<string>, k: nat, s: Directory,
                   s': Directory)
    requires Setting(c, Payload(c.w, package, data), nm) && Removable(nm, removed)
    requires k < |Steps(nm, package, data, removed)|
    requires Phase(c, Payload(c.w, package, data), nm, k, s)
    requires Stopped(c.w, s, Steps(nm, package, data, removed)[k], s')
    ensures Keeps(c, Payload(c.w, package, data), nm, k, s, Steps(nm, package, data, removed)[k], s')
    ensures Done(c.w, s, Steps(nm, package, data, removed)[k], s') ==>
              Images(s')
              == if k == 5 then Images(s) + {nm.image}
                 else if k == 8 then Images(s) - ToSet(removed)
                 else Images(s)
  {
    var payload := Payload(c.w, package, data);
    if k == 0 { ClearStep(c, payload, nm, s, s'); }
    else if k == 1 { CreateStep(c, payload, nm, s, s'); }
    else if k == 2 { UnpackStep(c, package, data, nm, s, s'); }
    else if k == 3 { MkfsStep(c, payload, nm, s, s'); }
    else if k == 4 { RecordStep(c, payload, nm, s, s'); }
    else if k == 5 { PublishStep(c, payload, nm, s, s'); }
    else if k == 6 { ClearRootStep(c, payload, nm, s, s'); }
    else if k == 7 { ActivateStep(c, payload, nm, s, Activate(CURRENT_LINK, nm.image), s'); }
    else { RemoveStep(c, payload, nm, removed, s, s'); }
  }

  // ----- A whole run -----

  lemma StepKeeps(c: Claim, package: string, data: Extent, nm: Names, removed: seq<string>, step: Step, k: nat,
                  s: Directory, s': Directory)
    requires Setting(c, Payload(c.w, package, data), nm) && Removable(nm, removed)
    requires k < |Steps(nm, package, data, removed)| && step == Steps(nm, package, data, removed)[k]
    requires Phase(c, Payload(c.w, package, data), nm, k, s) && Stopped(c.w, s, step, s')
    ensures Safe(c, s') && (Done(c.w, s, step, s') ==> Phase(c, Payload(c.w, package, data), nm, k + 1, s'))
  {
    StepIsSafe(c, package, data, nm, removed, k, s, s');
  }

  lemma {:induction false} RunIsSafe(c: Claim, package: string, data: Extent, nm: Names, removed: seq<string>,
                                     plan: seq<Step>, k: nat, s: Directory, s': Directory)
    requires Setting(c, Payload(c.w, package, data), nm) && Removable(nm, removed)
    requires plan == Steps(nm, package, data, removed) && k <= |plan|
    requires Phase(c, Payload(c.w, package, data), nm, k, s)
    requires RunStopped(c.w, s, plan[k..], s')
    ensures Safe(c, s')
    decreases |plan| - k
  {
    if k < |plan| {
      assert plan[k..][0] == plan[k] && plan[k..][1..] == plan[k + 1..];
      if Stopped(c.w, s, plan[k], s') {
        StepKeeps(c, package, data, nm, removed, plan[k], k, s, s');
      } else {
        var m: Directory :| Done(c.w, s, plan[k], m) && RunStopped(c.w, m, plan[k + 1..], s');
        StepKeeps(c, package, data, nm, removed, plan[k], k, s, m);
        RunIsSafe(c, package, data, nm, removed, plan, k + 1, m, s');
      }
    }
  }

  /** The version-named images a finished plan leaves, from what there was before step `k`. */
  function ImagesAfter(nm: Names, removed: seq<string>, k: nat, images: set<string>): set<string> {
    var published := if k <= 5 then images + {nm.image} else images;
    if k <= 8 then published - ToSet(removed) else published
  }

  function ImagesStep(nm: Names, removed: seq<string>, k: nat, images: set<string>): set<string> {
    if k == 5 then images + {nm.image} else if k == 8 then images - ToSet(removed) else images
  }

  lemma ImagesCompose(nm: Names, removed: seq<string>, k: nat, images: set<string>)
    requires nm.image !in removed
    ensures ImagesAfter(nm, removed, k + 1, ImagesStep(nm, removed, k, images)) == ImagesAfter(nm, removed, k, images)
    ensures (removed == [] && k == 8) || k >= 9 ==> ImagesAfter(nm, removed, k, images) == images
  {
  }

  lemma StepCompletes(c: Claim, package: string, data: Extent, nm: Names, removed: seq<string>, step: Step, k: nat,
                      s: Directory, m: Directory)
    requires Setting(c, Payload(c.w, package, data), nm) && Removable(nm, removed)
    requires k < |Steps(nm, package, data, removed)| && step == Steps(nm, package, data, removed)[k]
    requires Phase(c, Payload(c.w, package, data), nm, k, s) && Done(c.w, s, step, m)
    ensures Phase(c, Payload(c.w, package, data), nm, k + 1, m)
    ensures Images(m) == ImagesStep(nm, removed, k, Images(s))
  {
    StepIsSafe(c, package, data, nm, removed, k, s, m);
  }

  lemma FirstStep(c: Claim, package: string, data: Extent, nm: Names, removed: seq<string>, plan: seq<Step>, k: nat,
                  s: Directory, s': Directory)
    returns (m: Directory)
    requires Setting(c, Payload(c.w, package, data), nm) && Removable(nm, removed)
    requires plan == Steps(nm, package, data, removed) && k < |plan|
    requires Phase(c, Payload(c.w, package, data), nm, k, s) && RunDone(c.w, s, plan[k..], s')
    ensures Phase(c, Payload(c.w, package, data), nm, k + 1, m) && RunDone(c.w, m, plan[k + 1..], s')
    ensures ImagesAfter(nm, removed, k + 1, Images(m)) == ImagesAfter(nm, removed, k, Images(s))
  {
    m := FirstDone(c.w, s, plan, k, s');
    StepCompletes(c, package, data, nm, removed, plan[k], k, s, m);
    ImagesCompose(nm, removed, k, Images(s));
  }

  /** A run from before step `k` of the plan, to its end. */
  lemma {:induction false} RunCompletes(c: Claim, package: string, data: Extent, nm: Names, removed: seq<string>,
                                        plan: seq<Step>, k: nat, s: Directory, s': Directory)
    requires Setting(c, Payload(c.w, package, data), nm) && Removable(nm, removed)
    requires plan == Steps(nm, package, data, removed) && k <= |plan|
    requires Phase(c, Payload(c.w, package, data), nm, k, s)
    requires RunDone(c.w, s, plan[k..], s')
    ensures Phase(c, Payload(c.w, package, data), nm, |plan|, s')
    ensures Images(s') == ImagesAfter(nm, removed, k, Images(s))
    decreases |plan| - k
  {
    if k == |plan| {
      ImagesCompose(nm, removed, k, Images(s));
    } else {
      var m := FirstStep(c, package, data, nm, removed, plan, k, s, s');
      RunCompletes(c, package, data, nm, removed, plan, k + 1, m, s');
    }
  }

  lemma FirstDone(w: World, s: Directory, plan: seq<Step>, k: nat, s': Directory) returns (m: Directory)
    requires k < |plan| && RunDone(w, s, plan[k..], s')
    ensures Done(w, s, plan[k], m) && RunDone(w, m, plan[k + 1..], s')
  {
    assert plan[k..][0] == plan[k] && plan[k..][1..] == plan[k + 1..];
    m :| Done(w, s, plan[k], m) && RunDone(w, m, plan[k + 1..], s');
  }

  // ----- What retention removes and spares, as names in the directory -----

  function RemovedPaths(s: Directory, listing: seq<string>, v: Version): seq<string> {
    ImageAndRecord(Superseded(FromListing(listing, CurrentTarget(s)), v))
  }

  lemma PlanIsSteps(s: Directory, listing: seq<string>, job: Job)
    ensures PlanFor(s, listing, job)
         == Steps(NamesOf(job.version), job.package, job.data, RemovedPaths(s, listing, job.version))
  {
  }

  lemma {:induction false} ListedOnce(listing: seq<string>, u: Version)
    requires forall i, j :: 0 <= i < j < |listing| ==> listing[i] != listing[j]
    ensures multiset(VersionsIn(listing))[u] == if ImageName(u) in listing && Parsed(u) then 1 else 0
  {
    if listing != [] {
      var first, rest := listing[0], listing[1..];
      assert listing == [first] + rest;
      ListedOnce(rest, u);
      ImageNameOfVersion(first);
      VersionOfImageName(u);
      assert first !in rest;
    }
  }

  lemma SparedOrRemoved(s: Directory, listing: seq<string>, v: Version, spared: seq<Version>, u: Version)
    requires IsListing(listing, s)
    requires multiset(FromListing(listing, CurrentTarget(s)).installed)[v := 0]
          == multiset(spared) + multiset(Superseded(FromListing(listing, CurrentTarget(s)), v))
    ensures var removed := Superseded(FromListing(listing, CurrentTarget(s)), v);
            && (u in spared || u in removed <==> u != v && Parsed(u) && ImageName(u) in Images(s))
            && !(u in spared && u in removed)
  {
    var store := FromListing(listing, CurrentTarget(s));
    var removed := Superseded(store, v);
    SortKeepsElements(AtMost, VersionsIn(listing));
    ListedOnce(listing, u);
    VersionOfImageName(u);
    assert multiset(store.installed) == multiset(VersionsIn(listing));
    assert (multiset(spared) + multiset(removed))[u] == multiset(store.installed)[v := 0][u];
    assert u in spared <==> multiset(spared)[u] > 0;
    assert u in removed <==> multiset(removed)[u] > 0;
  }

  function ImageNames(versions: seq<Version>): set<string> {
    set u | u in versions :: ImageName(u)
  }

  /** The active version is never removed, and besides it exactly the spared images stay. */
  lemma PlannedRemovals(s: Directory, listing: seq<string>, v: Version) returns (spared: seq<Version>)
    requires IsListing(listing, s) && Parsed(v)
    ensures |spared| <= KEEP - 1
    ensures Removable(NamesOf(v), RemovedPaths(s, listing, v))
    ensures Images(s) - ToSet(RemovedPaths(s, listing, v)) - {ImageName(v)} == ImageNames(spared)
    ensures forall n, u :: n in Images(s) && n != ImageName(v) && u in spared ==> AtMost(VersionOf(n).value, u)
  {
    var removed := Superseded(FromListing(listing, CurrentTarget(s)), v);
    var paths := RemovedPaths(s, listing, v);
    spared := SupersededSparesTheNewest(FromListing(listing, CurrentTarget(s)), v);
    RecordsAreNotImages(v);
    forall n | n in paths
      ensures n != ImageName(v) && n != RecordName(v) && n != CURRENT_LINK
    {
      ImageAndRecordNames(removed, n);
      var u :| u in removed && (n == ImageName(u) || n == RecordName(u));
      SparedOrRemoved(s, listing, v, spared, u);
      ImageNamesDiffer(u, v);
      ImageNamesDiffer(v, u);
      RecordsAreNotImages(u);
    }
    forall n
      ensures n in Images(s) && n !in paths && n != ImageName(v) <==> n in ImageNames(spared)
    {
      RemovedOrSparedName(s, listing, v, spared, n);
    }
    forall n, u | n in Images(s) && n != ImageName(v) && u in spared
      ensures AtMost(VersionOf(n).value, u)
    {
      ImageNameOfVersion(n);
      SparedOrRemoved(s, listing, v, spared, VersionOf(n).value);
      AtMostIsATotalPreorder(u, u, u);
      assert spared == [spared[0]];
    }
  }

  lemma RemovedOrSparedName(s: Directory, listing: seq<string>, v: Version, spared: seq<Version>, n: string)
    requires IsListing(listing, s) && Parsed(v)
    requires multiset(FromListing(listing, CurrentTarget(s)).installed)[v := 0]
          == multiset(spared) + multiset(Superseded(FromListing(listing, CurrentTarget(s)), v))
    ensures n in Images(s) && n !in RemovedPaths(s, listing, v) && n != ImageName(v) <==> n in ImageNames(spared)
  {
    var removed := Superseded(FromListing(listing, CurrentTarget(s)), v);
    ImageAndRecordNames(removed, n);
    if n in ImageNames(spared) {
      var u :| u in spared && n == ImageName(u);
      SparedOrRemoved(s, listing, v, spared, u);
      forall w | w in removed
        ensures n != ImageName(w) && n != RecordName(w)
      {
        SparedOrRemoved(s, listing, v, spared, w);
        ImageNamesDiffer(u, w);
      }
      ImageNamesDiffer(u, v);
    } else if n in Images(s) && n != ImageName(v) {
      var u := VersionOf(n).value;
      ImageNameOfVersion(n);
      SparedOrRemoved(s, listing, v, spared, u);
    }
  }

  // ----- The theorems -----

  lemma AttemptIsSafe(c: Claim, job: Job, s: Directory, s': Directory)
    requires ValidWorld(c.w) && ValidJob(c, job) && Safe(c, s)
    requires c.strict ==> NotActive(s, ImageName(job.version))
    requires Attempt(c.w, s, job, s')
    ensures Safe(c, s')
  {
    var listing: seq<string> :| IsListing(listing, s) && RunStopped(c.w, s, PlanFor(s, listing, job), s');
    var nm, removed := NamesOf(job.version), RemovedPaths(s, listing, job.version);
    var _ := PlannedRemovals(s, listing, job.version);
    JobSetting(c, job);
    PlanIsSteps(s, listing, job);
    assert Steps(nm, job.package, job.data, removed)[0..] == PlanFor(s, listing, job);
    RunIsSafe(c, job.package, job.data, nm, removed, Steps(nm, job.package, job.data, removed), 0, s, s');
  }

  /** One attempt of a history. Under a strict claim it does not reinstall the active version. */
  ghost predicate Leads(c: Claim, s: Directory, job: Job, s': Directory) {
    && ValidJob(c, job)
    && (c.strict ==> NotActive(s, ImageName(job.version)))
    && Attempt(c.w, s, job, s')
  }

  /** A history: each attempt starts from whatever the one before it left. */
  ghost predicate History(c: Claim, states: seq<Directory>, jobs: seq<Job>) {
    && |states| == |jobs| + 1
    && forall i :: 0 <= i < |jobs| ==> Leads(c, states[i], jobs[i], states[i + 1])
  }

  /** Over every history of attempts, each stopped anywhere: `current` never dangles, and every
      version-named image is whole; if moreover no attempt reinstalls the version that is active
      when it starts, the active image always passes the check that precedes mounting. */
  lemma {:induction false} EveryHistoryIsSafe(c: Claim, states: seq<Directory>, jobs: seq<Job>, i: nat)
    requires ValidWorld(c.w) && History(c, states, jobs) && i < |states|
    requires Safe(c, states[0])
    ensures Safe(c, states[i])
    decreases i
  {
    if i > 0 {
      var j := i - 1;
      EveryHistoryIsSafe(c, states, jobs, j);
      assert Leads(c, states[j], jobs[j], states[j + 1]);
      LeadsToSafe(c, jobs[j], states[j], states[i]);
    }
  }

  lemma LeadsToSafe(c: Claim, job: Job, s: Directory, s': Directory)
    requires ValidWorld(c.w) && Safe(c, s) && Leads(c, s, job, s')
    ensures Safe(c, s')
  {
    AttemptIsSafe(c, job, s, s');
  }

  lemma EmptyIsSafe(c: Claim)
    ensures Safe(c, map[])
  {
  }

  /** What the directory holds for a job in the end, name by name. */
  ghost predicate Installed(w: World, s: Directory, job: Job) {
    var image := job.version.raw + ".img";
    && "current" in s && s["current"] == Link(image)
    && image in s && s[image].File? && MadeOf(w, Payload(w, job.package, job.data), s[image].data)
    && image + ".sha256" in s && s[image + ".sha256"] == File(w.hash(s[image].data) + "  " + image + "\n")
  }

  /** Running a plan to its end, from any state stopped attempts can leave, makes its version
      current and usable, and leaves that image and at most one other: the newest there was. */
  lemma CompletionRecovers(c: Claim, job: Job, s: Directory, s': Directory) returns (spared: seq<Version>)
    requires ValidWorld(c.w) && ValidJob(c, job) && Safe(c, s) && !c.strict
    requires Completed(c.w, s, job, s')
    ensures Safe(c, s') && CurrentTarget(s') == Some(ImageName(job.version))
    ensures Usable(c.w, s', ImageName(job.version)) && Installed(c.w, s', job)
    ensures Images(s') == {ImageName(job.version)} + ImageNames(spared) && |Images(s')| <= KEEP
    ensures ImageNames(spared) <= Images(s)
    ensures forall n, u :: n in Images(s) && n != ImageName(job.version) && u in spared ==>
              AtMost(VersionOf(n).value, u)
  {
    var v := job.version;
    var listing: seq<string> :| IsListing(listing, s) && RunDone(c.w, s, PlanFor(s, listing, job), s');
    var nm, removed := NamesOf(v), RemovedPaths(s, listing, v);
    spared := PlannedRemovals(s, listing, v);
    JobSetting(c, job);
    PlanIsSteps(s, listing, job);
    assert Steps(nm, job.package, job.data, removed)[0..] == PlanFor(s, listing, job);
    RunCompletes(c, job.package, job.data, nm, removed, Steps(nm, job.package, job.data, removed), 0, s, s');
    PublishedIsUsable(c.w, s', v);
    KeptImages(Images(s), removed, nm.image, spared);
  }

  lemma KeptImages(images: set<string>, removed: seq<string>, image: string, spared: seq<Version>)
    requires |spared| <= 1 && image !in removed
    requires images - ToSet(removed) - {image} == ImageNames(spared)
    ensures images + {image} - ToSet(removed) == {image} + ImageNames(spared)
    ensures |{image} + ImageNames(spared)| <= 2 && ImageNames(spared) <= images
  {
    if spared == [] {
      assert {image} + ImageNames(spared) == {image};
    } else {
      assert ImageNames(spared) == {ImageName(spared[0])};
      assert {image} + ImageNames(spared) == {image, ImageName(spared[0])};
    }
  }

  // ----- Where the strict claim stops -----

  lemma {:induction false} KeysInOrder(keys: set<string>) returns (listing: seq<string>)
    ensures forall i, j :: 0 <= i < j < |listing| ==> listing[i] != listing[j]
    ensures forall n :: n in listing <==> n in keys
  {
    if keys == {} {
      listing := [];
    } else {
      var k :| k in keys;
      var rest := KeysInOrder(keys - {k});
      listing := [k] + rest;
    }
  }

  ghost predicate ActiveUsable(w: World, s: Directory) {
    CurrentTarget(s).Some? ==> Usable(w, s, CurrentTarget(s).value)
  }

  /** The job's payload is there and `mkfs.erofs` can make something of it. */
  ghost predicate Buildable(w: World, job: Job, data: string) {
    && Payload(w, job.package, job.data).Some?
    && w.builds(w.untar(Payload(w, job.package, job.data).value), data)
  }

  lemma DoneThenStopped(w: World, s: Directory, step: Step, m: Directory, rest: seq<Step>, s': Directory)
    requires Done(w, s, step, m) && RunStopped(w, m, rest, s')
    ensures RunStopped(w, s, [step] + rest, s')
  {
    assert ([step] + rest)[1..] == rest;
  }

  /** The first four steps, run to their ends. */
  lemma StagingRun(w: World, nm: Names, package: string, data: Extent, image: string, rest: seq<Step>, s: Directory,
                   m4: Directory, s': Directory)
    requires Separate(nm) && Payload(w, package, data).Some?
    requires w.builds(w.untar(Payload(w, package, data).value), image)
    requires m4 == Staged(w, nm, package, data, image, s) && RunStopped(w, m4, rest, s')
    ensures RunStopped(w, s,
                       [ClearStaging([nm.staged, nm.root])] + ([CreateDir(nm.root)]
                         + ([Unpack(package, data, nm.root)] + ([Mkfs(nm.root, nm.staged)] + rest))), s')
  {
    RemoveAllMeans(s, [nm.staged, nm.root]);
    var m1 := RemoveAll(s, [nm.staged, nm.root]);
    var m2 := m1[nm.root := Dir([])];
    var m3 := m2[nm.root := Dir(w.untar(Payload(w, package, data).value))];
    assert MadeFrom(w, m3, nm.root, nm.staged, image, m4);
    var r3 := [Mkfs(nm.root, nm.staged)] + rest;
    var r2 := [Unpack(package, data, nm.root)] + r3;
    DoneThenStopped(w, m3, Mkfs(nm.root, nm.staged), m4, rest, s');
    DoneThenStopped(w, m2, Unpack(package, data, nm.root), m3, r3, s');
    DoneThenStopped(w, m1, CreateDir(nm.root), m2, r2, s');
    DoneThenStopped(w, s, ClearStaging([nm.staged, nm.root]), m1, [CreateDir(nm.root)] + r2, s');
  }

  function Staged(w: World, nm: Names, package: string, data: Extent, image: string, s: Directory): Directory
    requires Payload(w, package, data).Some?
  {
    RemoveAll(s, [nm.staged, nm.root])
      [nm.root := Dir([])]
      [nm.root := Dir(w.untar(Payload(w, package, data).value))]
      [nm.staged := File(image)]
  }

  lemma StagedIsQuiet(w: World, nm: Names, package: string, data: Extent, image: string, s: Directory)
    requires Separate(nm) && Payload(w, package, data).Some?
    ensures forall n :: !IsScratch(n) ==> SameAt(s, Staged(w, nm, package, data, image, s), n)
  {
    RemoveAllMeans(s, [nm.staged, nm.root]);
  }

  /** A record cut off before its first byte makes the image it belongs to unusable. */
  lemma EmptyRecord(w: World, s: Directory, nm: Names)
    requires Separate(nm) && nm.record in s && s[nm.record] == File("")
    ensures !Usable(w, s, nm.image)
  {
    UsableByDigest(w, s, nm.image);
    assert Lines("") == [];
  }

  lemma RecordStops(w: World, s: Directory, staged: string, record: string, names: string, rest: seq<Step>)
    requires staged in s && s[staged].File? && !IsDir(s, record)
    ensures RunStopped(w, s, [Record(staged, record, names)] + rest, s[record := File("")])
  {
    var body := RecordBody(w.hash(s[staged].data), names);
    assert body[..0] == "";
    assert Stopped(w, s, Record(staged, record, names), s[record := File(body[..0])]);
  }

  lemma PlanHead(nm: Names, package: string, data: Extent, removed: seq<string>)
    ensures Steps(nm, package, data, removed)
         == [ClearStaging([nm.staged, nm.root])] + ([CreateDir(nm.root)]
              + ([Unpack(package, data, nm.root)] + ([Mkfs(nm.root, nm.staged)]
              + ([Record(nm.staged, nm.record, nm.image)] + Steps(nm, package, data, removed)[5..]))))
  {
  }

  /** A run that dies as it starts to write the record leaves an empty one. */
  lemma RecordWindow(w: World, nm: Names, package: string, data: Extent, rest: seq<Step>, image: string, s: Directory)
    returns (s': Directory)
    requires Separate(nm) && Payload(w, package, data).Some? && !IsDir(s, nm.record)
    requires w.builds(w.untar(Payload(w, package, data).value), image)
    ensures RunStopped(w, s,
                       [ClearStaging([nm.staged, nm.root])] + ([CreateDir(nm.root)]
                         + ([Unpack(package, data, nm.root)] + ([Mkfs(nm.root, nm.staged)]
                         + ([Record(nm.staged, nm.record, nm.image)] + rest)))), s')
    ensures !Usable(w, s', nm.image) && SameAt(s, s', nm.image) && CurrentTarget(s') == CurrentTarget(s)
  {
    var m := Staged(w, nm, package, data, image, s);
    StagedIsQuiet(w, nm, package, data, image, s);
    assert SameAt(s, m, nm.record) && SameAt(s, m, nm.image) && SameAt(s, m, CURRENT_LINK);
    s' := m[nm.record := File("")];
    RecordStops(w, m, nm.staged, nm.record, nm.image, rest);
    StagingRun(w, nm, package, data, image, [Record(nm.staged, nm.record, nm.image)] + rest, s, m, s');
    EmptyRecord(w, s', nm);
  }

  /** Where the record can be written, an attempt can stop with it begun and the image as it was. */
  lemma WindowRun(w: World, job: Job, s: Directory, data: string) returns (s': Directory)
    requires Parsed(job.version) && !IsDir(s, RecordName(job.version)) && Buildable(w, job, data)
    ensures Attempt(w, s, job, s') && !Usable(w, s', ImageName(job.version))
    ensures SameAt(s, s', ImageName(job.version)) && CurrentTarget(s') == CurrentTarget(s)
  {
    var nm := NamesOf(job.version);
    NamesAreSeparate(job.version);
    var listing := KeysInOrder(s.Keys);
    var removed := RemovedPaths(s, listing, job.version);
    PlanHead(nm, job.package, job.data, removed);
    s' := RecordWindow(w, nm, job.package, job.data, Steps(nm, job.package, job.data, removed)[5..], data, s);
    PlanIsSteps(s, listing, job);
    assert IsListing(listing, s) && RunStopped(w, s, PlanFor(s, listing, job), s');
  }

  /** A usable image has a record that is a file. */
  lemma RecordIsAFile(w: World, s: Directory, v: Version)
    requires Usable(w, s, ImageName(v))
    ensures !IsDir(s, RecordName(v))
  {
    RecordsAreNotImages(v);
    UsableByDigest(w, s, ImageName(v));
  }

  /** From a state whose active image is usable, a job keeps it usable at every moment exactly
      when the version it installs is not the active one. */
  lemma OnlyReinstallingOpensAWindow(c: Claim, job: Job, s: Directory, data: string)
    requires ValidWorld(c.w) && ValidJob(c, job) && c.strict && Safe(c, s)
    requires Buildable(c.w, job, data)
    ensures (forall s' :: Attempt(c.w, s, job, s') ==> ActiveUsable(c.w, s')) <==> NotActive(s, ImageName(job.version))
  {
    var v := job.version;
    if NotActive(s, ImageName(v)) {
      forall s' | Attempt(c.w, s, job, s')
        ensures ActiveUsable(c.w, s')
      {
        AttemptIsSafe(c, job, s, s');
      }
    } else {
      RecordIsAFile(c.w, s, v);
      var s' := WindowRun(c.w, job, s, data);
      assert Attempt(c.w, s, job, s') && !ActiveUsable(c.w, s');
    }
  }
}
