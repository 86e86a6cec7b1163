/** The two halves of provisioning together: a payload is only unpacked into an image after its
    package was checked, so every image ever in use was made of a vouched payload. */
module Provision {
  import opened Wrappers
  import opened Text
  import opened Octets
  import opened Archive
  import opened Store
  import opened Build
  import opened Mount
  import opened Install
  import opened InstallSafety
  import P = Package

  /** A payload some package in the world vouches for. */
  ghost predicate VouchedPayload(w: World, verify: Bytes -> Option<string>, sha1: Bytes -> string, payload: Bytes) {
    exists name: string, data: Member ::
      && name in w.packages && P.Vouched(w.packages[name], verify, sha1, data)
      && payload == P.PayloadOf(w.packages[name], data)
  }

  lemma {:induction false} LinesHaveNoNewline(s: string)
    ensures forall i :: 0 <= i < |Lines(s)| ==> '\n' !in Lines(s)[i]
    decreases |s|
  {
    if s != "" && IndexOf(s, '\n') < |s| {
      LinesHaveNoNewline(s[IndexOf(s, '\n') + 1..]);
    }
  }

  lemma {:induction false} VersionLineHasNoNewline(lines: seq<string>)
    requires forall i :: 0 <= i < |lines| ==> '\n' !in lines[i]
    ensures P.VersionLine(lines).Some? ==> '\n' !in P.VersionLine(lines).value
  {
    if lines != [] {
      VersionLineHasNoNewline(lines[1..]);
    }
  }

  lemma ControlVersion(text: string)
    requires P.VersionFromControl(text).Some?
    ensures Parsed(P.VersionFromControl(text).value) && '\n' !in P.VersionFromControl(text).value.raw
  {
    LinesHaveNoNewline(Lines(text)[0]);
    LinesHaveNoNewline(text);
    VersionLineHasNoNewline(Lines(text));
    NoNewlineInTrim(P.VersionLine(Lines(text)).value);
  }

  lemma PayloadIsTheMembers(w: World, name: string, data: Member)
    requires name in w.packages && P.Inside(w.packages[name], data)
    ensures Payload(w, name, Extent(data.offset, data.size)) == Some(P.PayloadOf(w.packages[name], data))
  {
  }

  lemma PayloadIsVouched(w: World, name: string, verify: Bytes -> Option<string>, sha1: Bytes -> string, data: Member)
    requires name in w.packages && P.Vouched(w.packages[name], verify, sha1, data)
    ensures VouchedPayload(w, verify, sha1, P.PayloadOf(w.packages[name], data))
    ensures P.Inside(w.packages[name], data)
  {
  }

  /** A package that passes every check is a job the install theorems are about. */
  lemma AcceptedIsValidJob(c: Claim, name: string, verify: Bytes -> Option<string>, sha1: Bytes -> string,
                           control: Bytes -> string, accepted: P.Accepted)
    requires forall p :: VouchedPayload(c.w, verify, sha1, p) ==> c.accepted(p)
    requires name in c.w.packages && P.Verdict(c.w.packages[name], verify, sha1, control) == Ok(accepted)
    ensures ValidJob(c, Job(accepted.version, name, Extent(accepted.data.offset, accepted.data.size)))
  {
    P.AcceptedIsVouched(c.w.packages[name], verify, sha1, control);
    var about :| P.NamesVersion(control(P.PayloadOf(c.w.packages[name], about)), accepted.version);
    AcceptedFrom(c, name, verify, sha1, accepted.version, accepted.data);
  }

  lemma AcceptedFrom(c: Claim, name: string, verify: Bytes -> Option<string>, sha1: Bytes -> string, version: Version,
                     data: Member)
    requires forall p :: VouchedPayload(c.w, verify, sha1, p) ==> c.accepted(p)
    requires name in c.w.packages && P.Vouched(c.w.packages[name], verify, sha1, data)
    requires exists text :: P.NamesVersion(text, version)
    ensures ValidJob(c, Job(version, name, Extent(data.offset, data.size)))
  {
    var text :| P.NamesVersion(text, version);
    P.VersionMeans(text, version);
    ControlVersion(text);
    PayloadIsVouched(c.w, name, verify, sha1, data);
    PayloadIsTheMembers(c.w, name, data);
  }

  // ----- Every image in use -----

  /** The three functions of the world outside that checking a package depends on. */
  datatype Checks = Checks(verify: Bytes -> Option<string>, sha1: Bytes -> string, control: Bytes -> string)

  /** The job was made from a package that passed every check. */
  ghost predicate Provisioned(w: World, k: Checks, job: Job) {
    exists name: string, accepted: P.Accepted ::
      && name in w.packages && P.Verdict(w.packages[name], k.verify, k.sha1, k.control) == Ok(accepted)
      && job == Job(accepted.version, name, Extent(accepted.data.offset, accepted.data.size))
  }

  /** Attempts at provisioned jobs, each from what the one before it left, however that stopped. */
  ghost predicate Provisionings(w: World, k: Checks, states: seq<Directory>, jobs: seq<Job>) {
    && |states| == |jobs| + 1
    && forall i :: 0 <= i < |jobs| ==> Provisioned(w, k, jobs[i]) && Attempt(w, states[i], jobs[i], states[i + 1])
  }

  ghost function VouchedClaim(w: World, k: Checks, strict: bool): Claim {
    Claim(w, p => VouchedPayload(w, k.verify, k.sha1, p), strict)
  }

  lemma ProvisionedIsValid(w: World, k: Checks, job: Job, strict: bool)
    requires Provisioned(w, k, job)
    ensures ValidJob(VouchedClaim(w, k, strict), job)
  {
    var name: string, accepted: P.Accepted :|
      && name in w.packages && P.Verdict(w.packages[name], k.verify, k.sha1, k.control) == Ok(accepted)
      && job == Job(accepted.version, name, Extent(accepted.data.offset, accepted.data.size));
    AcceptedIsValidJob(VouchedClaim(w, k, strict), name, k.verify, k.sha1, k.control, accepted);
  }

  /** The bytes are an image of the complete unpacking of a payload some package vouches for. */
  ghost predicate MadeOfVouched(w: World, k: Checks, data: string) {
    exists p: Bytes :: VouchedPayload(w, k.verify, k.sha1, p) && w.builds(w.untar(p), data)
  }

  /** From the empty directory, whatever packages are tried and wherever each attempt stops: every
      image was made of a vouched payload, and `current`, once there, is a link to one of them. If no
      attempt reinstalls the version that is active when it starts, that one also always passes the
      check made before it is mounted. */
  lemma OnlyVouchedImagesAreUsed(w: World, k: Checks, states: seq<Directory>, jobs: seq<Job>, i: nat)
    requires ValidWorld(w) && Provisionings(w, k, states, jobs) && states[0] == map[] && i < |states|
    ensures forall n :: n in Images(states[i]) ==> states[i][n].File? && MadeOfVouched(w, k, states[i][n].data)
    ensures CURRENT_LINK in states[i] ==>
              states[i][CURRENT_LINK].Link? && states[i][CURRENT_LINK].target in Images(states[i])
    ensures (forall j :: 0 <= j < |jobs| ==> NotActive(states[j], ImageName(jobs[j].version))) ==>
              ActiveUsable(w, states[i])
  {
    SafeAt(w, k, states, jobs, i, false);
    VouchedIsWhole(w, k, states[i]);
    if forall j :: 0 <= j < |jobs| ==> NotActive(states[j], ImageName(jobs[j].version)) {
      SafeAt(w, k, states, jobs, i, true);
    }
  }

  lemma SafeAt(w: World, k: Checks, states: seq<Directory>, jobs: seq<Job>, i: nat, strict: bool)
    requires ValidWorld(w) && Provisionings(w, k, states, jobs) && states[0] == map[] && i < |states|
    requires strict ==> forall j :: 0 <= j < |jobs| ==> NotActive(states[j], ImageName(jobs[j].version))
    ensures Safe(VouchedClaim(w, k, strict), states[i])
  {
    var c := VouchedClaim(w, k, strict);
    forall j | 0 <= j < |jobs|
      ensures Leads(c, states[j], jobs[j], states[j + 1])
    {
      ProvisionedIsValid(w, k, jobs[j], strict);
    }
    EmptyIsSafe(c);
    EveryHistoryIsSafe(c, states, jobs, i);
  }

  lemma VouchedIsWhole(w: World, k: Checks, s: Directory)
    requires Safe(VouchedClaim(w, k, false), s)
    ensures forall n :: n in Images(s) ==> s[n].File? && MadeOfVouched(w, k, s[n].data)
  {
    var c := VouchedClaim(w, k, false);
    forall n | n in Images(s)
      ensures s[n].File? && MadeOfVouched(w, k, s[n].data)
    {
      var p: Bytes :| c.accepted(p) && w.builds(w.untar(p), s[n].data);
    }
  }
}
