/** Tying a package to its signed manifest, and handing its payload on:
    crates/plexos-plex/src/lib.rs, `unpack` of execute.rs, and the order in which
    crates/plexos-plex/examples/provision.rs composes them. */
module Package {
  import opened Wrappers
  import opened Text
  import opened Octets
  import opened Archive
  import opened Store
  import M = Manifests

  const SIGNATURE_MEMBER: string := "_gpgplex"
  const DATA_MEMBER: string := "data.tar.xz"
  const CONTROL_MEMBER: string := "control.tar.xz"
  const PIPE_CHUNK: nat := 0x10_0000

  datatype Measured = Measured(name: string, size: nat, sha1: string)

  datatype Mismatch =
    | Unlisted(name: string)
    | Missing(name: string)
    | Size(name: string, signed: nat, found: nat)
    | Digest(name: string, signedSha1: string, foundSha1: string)
    | Unsigned

  function FirstEntry(entries: seq<M.Entry>, name: string): (e: Option<M.Entry>)
    ensures e.Some? ==> e.value in entries && e.value.name == name
    ensures e.None? <==> forall i :: 0 <= i < |entries| ==> entries[i].name != name
  {
    if entries == [] then None
    else if entries[0].name == name then Some(entries[0])
    else FirstEntry(entries[1..], name)
  }

  /** The first entry of that name. */
  ghost predicate FirstListed(entries: seq<M.Entry>, name: string, e: M.Entry) {
    exists i ::
      && 0 <= i < |entries| && entries[i] == e && e.name == name
      && forall j :: 0 <= j < i ==> entries[j].name != name
  }

  lemma {:induction false} FirstEntryAt(entries: seq<M.Entry>, name: string) returns (i: nat)
    requires FirstEntry(entries, name).Some?
    ensures i < |entries| && entries[i] == FirstEntry(entries, name).value
    ensures forall j :: 0 <= j < i ==> entries[j].name != name
  {
    if entries[0].name == name {
      i := 0;
    } else {
      var rest := FirstEntryAt(entries[1..], name);
      i := rest + 1;
      assert forall j :: 0 < j < i ==> entries[j] == entries[1..][j - 1];
    }
  }

  lemma FirstEntryIs(entries: seq<M.Entry>, name: string, e: M.Entry)
    ensures FirstEntry(entries, name) == Some(e) <==> FirstListed(entries, name, e)
  {
    if FirstEntry(entries, name).Some? {
      var i := FirstEntryAt(entries, name);
    }
  }

  predicate HasMember(measured: seq<Measured>, name: string) {
    exists i :: 0 <= i < |measured| && measured[i].name == name
  }

  function AboutMember(m: Measured, signed: M.Manifest): seq<Mismatch> {
    if m.name == SIGNATURE_MEMBER then []
    else
      match FirstEntry(signed.entries, m.name)
      case None => [Unlisted(m.name)]
      case Some(e) =>
        (if e.size != m.size then [Size(m.name, e.size, m.size)] else [])
        + (if Lower(e.sha1) != Lower(m.sha1) then [Digest(m.name, e.sha1, m.sha1)] else [])
  }

  function AboutMembers(ms: seq<Measured>, signed: M.Manifest): seq<Mismatch> {
    if ms == [] then [] else AboutMembers(ms[..|ms| - 1], signed) + AboutMember(ms[|ms| - 1], signed)
  }

  function AboutEntries(es: seq<M.Entry>, measured: seq<Measured>): seq<Mismatch> {
    if es == [] then []
    else
      AboutEntries(es[..|es| - 1], measured)
      + (if HasMember(measured, es[|es| - 1].name) then [] else [Missing(es[|es| - 1].name)])
  }

  function Problems(measured: seq<Measured>, signed: M.Manifest): seq<Mismatch> {
    (if HasMember(measured, SIGNATURE_MEMBER) then [] else [Unsigned])
    + AboutMembers(measured, signed) + AboutEntries(signed.entries, measured)
  }

  method CompareOne(found: Measured, signed: M.Manifest) returns (problems: seq<Mismatch>)
    requires found.name != SIGNATURE_MEMBER
    ensures problems == AboutMember(found, signed)
  {
    problems := [];
    var entry := FirstEntry(signed.entries, found.name);
    if entry.None? {
      return [Unlisted(found.name)];
    }
    if entry.value.size != found.size {
      problems := problems + [Size(found.name, entry.value.size, found.size)];
    }
    if Lower(entry.value.sha1) != Lower(found.sha1) {
      problems := problems + [Digest(found.name, entry.value.sha1, found.sha1)];
    }
  }

  method CompareMembers(measured: seq<Measured>, signed: M.Manifest) returns (problems: seq<Mismatch>)
    ensures problems == AboutMembers(measured, signed)
  {
    problems := [];
    for i := 0 to |measured|
      invariant problems == AboutMembers(measured[..i], signed)
    {
      var found := measured[i];
      assert measured[..i + 1][..i] == measured[..i];
      if found.name == SIGNATURE_MEMBER {
        continue;
      }
      var more := CompareOne(found, signed);
      problems := problems + more;
    }
    assert measured[..|measured|] == measured;
  }

  method FindMissing(entries: seq<M.Entry>, measured: seq<Measured>) returns (problems: seq<Mismatch>)
    ensures problems == AboutEntries(entries, measured)
  {
    problems := [];
    for i := 0 to |entries|
      invariant problems == AboutEntries(entries[..i], measured)
    {
      assert entries[..i + 1][..i] == entries[..i];
      if !HasMember(measured, entries[i].name) {
        problems := problems + [Missing(entries[i].name)];
      }
    }
    assert entries[..|entries|] == entries;
  }

  method AgreesWith(measured: seq<Measured>, signed: M.Manifest) returns (problems: seq<Mismatch>)
    ensures problems == Problems(measured, signed)
  {
    problems := [];
    if !HasMember(measured, SIGNATURE_MEMBER) {
      problems := problems + [Unsigned];
    }
    var members := CompareMembers(measured, signed);
    var missing := FindMissing(signed.entries, measured);
    problems := problems + members + missing;
  }

  // ----- What the report means -----

  /** A discrepancy, said without reference to how it is looked for. */
  ghost predicate IsDiscrepancy(measured: seq<Measured>, signed: M.Manifest, p: Mismatch) {
    match p
    case Unsigned => forall m :: m in measured ==> m.name != SIGNATURE_MEMBER
    case Missing(name) =>
      (exists e :: e in signed.entries && e.name == name) && (forall m :: m in measured ==> m.name != name)
    case Unlisted(name) =>
      && name != SIGNATURE_MEMBER
      && (exists m :: m in measured && m.name == name) && (forall e :: e in signed.entries ==> e.name != name)
    case Size(name, was, found) =>
      && name != SIGNATURE_MEMBER && was != found
      && (exists m :: m in measured && m.name == name && m.size == found)
      && (exists e :: FirstListed(signed.entries, name, e) && e.size == was)
    case Digest(name, was, found) =>
      && name != SIGNATURE_MEMBER && Lower(was) != Lower(found)
      && (exists m :: m in measured && m.name == name && m.sha1 == found)
      && (exists e :: FirstListed(signed.entries, name, e) && e.sha1 == was)
  }

  lemma {:induction false} InAboutMembers(ms: seq<Measured>, signed: M.Manifest, p: Mismatch)
    ensures p in AboutMembers(ms, signed) <==> exists m :: m in ms && p in AboutMember(m, signed)
  {
    if ms != [] {
      InAboutMembers(ms[..|ms| - 1], signed, p);
      assert ms == ms[..|ms| - 1] + [ms[|ms| - 1]];
    }
  }

  lemma {:induction false} InAboutEntries(es: seq<M.Entry>, measured: seq<Measured>, p: Mismatch)
    ensures p in AboutEntries(es, measured) <==>
            p.Missing? && (exists e :: e in es && e.name == p.name) && !HasMember(measured, p.name)
  {
    if es != [] {
      InAboutEntries(es[..|es| - 1], measured, p);
      assert es == es[..|es| - 1] + [es[|es| - 1]];
    }
  }

  lemma HasMemberMeans(measured: seq<Measured>, name: string)
    ensures HasMember(measured, name) <==> exists m :: m in measured && m.name == name
  {
  }

  lemma InAboutMember(m: Measured, signed: M.Manifest, p: Mismatch)
    ensures p in AboutMember(m, signed) <==>
            && m.name != SIGNATURE_MEMBER
            && var e := FirstEntry(signed.entries, m.name);
               match p
               case Unlisted(name) => name == m.name && e.None?
               case Size(name, was, found) =>
                 name == m.name && e.Some? && was == e.value.size && found == m.size && was != found
               case Digest(name, was, found) =>
                 name == m.name && e.Some? && was == e.value.sha1 && found == m.sha1 && Lower(was) != Lower(found)
               case _ => false
  {
  }

  /** The report is every discrepancy and nothing else. */
  lemma ReportIsExact(measured: seq<Measured>, signed: M.Manifest, p: Mismatch)
    ensures p in Problems(measured, signed) <==> IsDiscrepancy(measured, signed, p)
  {
    InAboutMembers(measured, signed, p);
    InAboutEntries(signed.entries, measured, p);
    HasMemberMeans(measured, SIGNATURE_MEMBER);
    forall m | m in measured
      ensures p in AboutMember(m, signed) ==> p.Unlisted? || p.Size? || p.Digest?
    {
      InAboutMember(m, signed, p);
    }
    match p
    case Unsigned =>
    case Missing(name) =>
      HasMemberMeans(measured, name);
    case Unlisted(name) =>
      ListedMeans(signed.entries, name);
      forall m | m in measured { InAboutMember(m, signed, p); }
    case Size(name, _, _) =>
      FirstListedIs(signed.entries, name);
      forall m | m in measured { InAboutMember(m, signed, p); }
    case Digest(name, _, _) =>
      FirstListedIs(signed.entries, name);
      forall m | m in measured { InAboutMember(m, signed, p); }
  }

  lemma FirstListedIs(entries: seq<M.Entry>, name: string)
    ensures forall e :: FirstListed(entries, name, e) <==> FirstEntry(entries, name) == Some(e)
  {
    forall e
      ensures FirstListed(entries, name, e) <==> FirstEntry(entries, name) == Some(e)
    {
      FirstEntryIs(entries, name, e);
    }
  }

  lemma ListedMeans(entries: seq<M.Entry>, name: string)
    ensures FirstEntry(entries, name).None? <==> forall e :: e in entries ==> e.name != name
  {
  }

  /** A measured member is the one its first manifest entry describes. */
  ghost predicate Matches(m: Measured, signed: M.Manifest) {
    exists e :: FirstListed(signed.entries, m.name, e) && e.size == m.size && Lower(e.sha1) == Lower(m.sha1)
  }

  /** Nothing is reported exactly when there is a signature member, every other member matches,
      and every entry is there. Only which members there are matters, not their order. */
  lemma EmptyReport(measured: seq<Measured>, signed: M.Manifest)
    ensures Problems(measured, signed) == [] <==>
            && (exists m :: m in measured && m.name == SIGNATURE_MEMBER)
            && (forall m :: m in measured && m.name != SIGNATURE_MEMBER ==> Matches(m, signed))
            && (forall e :: e in signed.entries ==> exists m :: m in measured && m.name == e.name)
  {
    if Problems(measured, signed) == [] {
      ReportIsExact(measured, signed, Unsigned);
      forall e | e in signed.entries
        ensures exists m :: m in measured && m.name == e.name
      {
        ReportIsExact(measured, signed, Missing(e.name));
      }
      forall m | m in measured && m.name != SIGNATURE_MEMBER
        ensures Matches(m, signed)
      {
        InAboutMemberReported(measured, signed, m);
      }
    } else {
      var p := Problems(measured, signed)[0];
      ReportIsExact(measured, signed, p);
      if p.Size? || p.Digest? || p.Unlisted? { FirstListedIs(signed.entries, p.name); }
    }
  }

  lemma InAboutMemberReported(measured: seq<Measured>, signed: M.Manifest, m: Measured)
    requires m in measured && m.name != SIGNATURE_MEMBER && Problems(measured, signed) == []
    ensures Matches(m, signed)
  {
    if AboutMember(m, signed) != [] {
      InAboutMembers(measured, signed, AboutMember(m, signed)[0]);
    }
    FirstListedIs(signed.entries, m.name);
  }

  // ----- Handing the payload to tar -----

  /** tar's standard input: what has been written to it so far. */
  class Sink {
    /** Whether a write may fail. */
    const faulty: bool
    var written: Bytes

    constructor (faulty: bool)
      ensures this.faulty == faulty && written == []
    {
      this.faulty := faulty;
      written := [];
    }

    /** All of the chunk, or as much of it as went through before the write failed. */
    method WriteAll(chunk: Bytes) returns (ok: bool)
      modifies this
      ensures ok ==> written == old(written) + chunk
      ensures !ok ==> faulty && old(written) <= written <= old(written) + chunk
    {
      var fails: bool :| true;
      if faulty && fails {
        var n: nat :| n <= |chunk|;
        written := written + chunk[..n];
        return false;
      }
      written := written + chunk;
      return true;
    }
  }

  datatype UnpackError = ReadFailed | PackageEnded(missing: nat) | WriteFailed | TarFailed

  /** What a file holds of the `size` bytes from `offset`. */
  function Stretch(file: Bytes, offset: nat, size: nat): Bytes {
    if offset + size <= |file| then file[offset..offset + size]
    else if offset <= |file| then file[offset..]
    else []
  }

  /** Streams `size` bytes from `offset` into tar, in chunks of whatever size reads give. Nothing
      but those bytes is ever fed, success means all of them were, and without a fault elsewhere
      it fails only for a file that ends too early. */
  method Unpack(source: Source, offset: nat, size: nat, tarSucceeds: bool, sink: Sink)
    returns (r: Result<(), UnpackError>)
    requires sink.written == []
    modifies source, sink
    ensures sink.written <= Stretch(source.file, offset, size)
    ensures r.Ok? && offset <= |source.file| ==>
              offset + size <= |source.file| && sink.written == source.file[offset..offset + size]
    ensures r.Err? && r.error.PackageEnded? ==>
              0 < r.error.missing == if offset <= |source.file| then offset + size - |source.file| else size
    ensures r == Err(TarFailed) ==> !tarSucceeds
    ensures !source.faulty && !sink.faulty && tarSucceeds && offset + size <= |source.file| ==> r.Ok?
  {
    source.Seek(offset);
    var remaining := size;
    while remaining > 0
      invariant 0 <= remaining <= size && source.position == offset + (size - remaining)
      invariant remaining < size ==> source.position <= |source.file|
      invariant |sink.written| == size - remaining
      invariant sink.written <= Stretch(source.file, offset, size)
      invariant source.position <= |source.file| ==> sink.written == source.file[offset..source.position]
    {
      var want := if remaining < PIPE_CHUNK then remaining else PIPE_CHUNK;
      var chunk := source.Read(want);
      if chunk.None? {
        return Err(ReadFailed);
      }
      if chunk.value == [] {
        return Err(PackageEnded(remaining));
      }
      ghost var before := sink.written;
      PrefixGrows(source.file, offset, size, before, chunk.value);
      var ok := sink.WriteAll(chunk.value);
      if !ok {
        PrefixOfPrefix(sink.written, before + chunk.value, Stretch(source.file, offset, size));
        return Err(WriteFailed);
      }
      remaining := remaining - |chunk.value|;
    }
    if !tarSucceeds {
      return Err(TarFailed);
    }
    return Ok(());
  }

  lemma PrefixGrows(file: Bytes, offset: nat, size: nat, before: Bytes, chunk: Bytes)
    requires |before| + |chunk| <= size && offset + |before| + |chunk| <= |file|
    requires before == file[offset..offset + |before|]
    requires chunk == file[offset + |before|..offset + |before| + |chunk|]
    ensures before + chunk <= Stretch(file, offset, size)
  {
    assert before + chunk == file[offset..offset + |before| + |chunk|];
    assert Stretch(file, offset, size)[..|before| + |chunk|] == before + chunk;
  }

  lemma PrefixOfPrefix(a: Bytes, b: Bytes, c: Bytes)
    requires a <= b <= c
    ensures a <= c
  {
    assert c[..|a|] == b[..|a|];
  }

  // ----- Provisioning, up to the install plan -----

  function FirstMember(members: seq<Member>, name: string): (m: Option<Member>)
    ensures m.Some? ==> m.value in members && m.value.name == name
    ensures m.None? <==> forall i :: 0 <= i < |members| ==> members[i].name != name
  {
    if members == [] then None
    else if members[0].name == name then Some(members[0])
    else FirstMember(members[1..], name)
  }

  /** The first member of that name. */
  ghost predicate FirstNamed(members: seq<Member>, name: string, m: Member) {
    exists i ::
      && 0 <= i < |members| && members[i] == m && m.name == name
      && forall j :: 0 <= j < i ==> members[j].name != name
  }

  lemma {:induction false} FirstMemberAt(members: seq<Member>, name: string) returns (i: nat)
    requires FirstMember(members, name).Some?
    ensures i < |members| && members[i] == FirstMember(members, name).value
    ensures forall j :: 0 <= j < i ==> members[j].name != name
  {
    if members[0].name == name {
      i := 0;
    } else {
      var rest := FirstMemberAt(members[1..], name);
      i := rest + 1;
      assert forall j :: 0 < j < i ==> members[j] == members[1..][j - 1];
    }
  }

  lemma FirstMemberIs(members: seq<Member>, name: string, m: Member)
    ensures FirstMember(members, name) == Some(m) <==> FirstNamed(members, name, m)
  {
    if FirstMember(members, name).Some? {
      var i := FirstMemberAt(members, name);
    }
  }

  /** The payload a member names, cut off where the file ends. */
  function PayloadOf(file: Bytes, m: Member): Bytes {
    Stretch(file, m.offset, m.size)
  }

  predicate Inside(file: Bytes, m: Member) {
    m.offset + m.size <= |file|
  }

  function MeasuredAs(file: Bytes, sha1: Bytes -> string, m: Member): Measured {
    Measured(m.name, m.size, sha1(PayloadOf(file, m)))
  }

  function MeasuredAll(file: Bytes, sha1: Bytes -> string, members: seq<Member>): (r: seq<Measured>)
    ensures |r| == |members|
  {
    seq(|members|, i requires 0 <= i < |members| => MeasuredAs(file, sha1, members[i]))
  }

  /** The signature checker accepted this manifest's text for the package's signature member. */
  ghost predicate SignedBy(file: Bytes, members: seq<Member>, verify: Bytes -> Option<string>, manifest: M.Manifest) {
    && FirstMember(members, SIGNATURE_MEMBER).Some?
    && verify(PayloadOf(file, FirstMember(members, SIGNATURE_MEMBER).value)).Some?
    && M.ParseOf(verify(PayloadOf(file, FirstMember(members, SIGNATURE_MEMBER).value)).value) == Ok(manifest)
  }

  /** The data member a package is installed from is the one its signed manifest describes:
      whole, and of the size and digest of the manifest's first entry of that name. */
  ghost predicate Vouched(file: Bytes, verify: Bytes -> Option<string>, sha1: Bytes -> string, data: Member) {
    && DirectoryOf(file).Ok? && FirstMember(DirectoryOf(file).value, DATA_MEMBER) == Some(data)
    && Inside(file, data)
    && exists manifest: M.Manifest ::
         && SignedBy(file, DirectoryOf(file).value, verify, manifest)
         && Matches(MeasuredAs(file, sha1, data), manifest)
  }

  datatype ProvisionError =
    | BadArchive(archive: Error)
    | NoSignature
    | CannotRead(member: string)
    | NotVerified
    | BadManifest(manifest: M.Error)
    | Disagrees(problems: seq<Mismatch>)
    | NoControl
    | NoVersion
    | NoData

  /** `member_bytes`: exactly one payload, or an error when the file ends before it does. */
  method MemberBytes(source: Source, m: Member) returns (raw: Option<Bytes>)
    requires m.offset <= |source.file|
    modifies source
    ensures raw.Some? ==> Inside(source.file, m) && raw.value == PayloadOf(source.file, m)
    ensures raw.None? ==> source.faulty || !Inside(source.file, m)
  {
    source.Seek(m.offset);
    raw := source.Fill(m.size);
    if raw.Some? && |raw.value| < m.size {
      return None;
    }
  }

  /** The first member whose payload the file does not hold. */
  function FirstOutside(file: Bytes, members: seq<Member>): Option<string> {
    if members == [] then None
    else if !Inside(file, members[0]) then Some(members[0].name)
    else FirstOutside(file, members[1..])
  }

  lemma {:induction false} FirstOutsideIs(file: Bytes, members: seq<Member>, i: nat)
    requires i < |members| && forall j :: 0 <= j < i ==> Inside(file, members[j])
    ensures !Inside(file, members[i]) ==> FirstOutside(file, members) == Some(members[i].name)
  {
    if i > 0 { FirstOutsideIs(file, members[1..], i - 1); }
  }

  lemma {:induction false} NoneOutside(file: Bytes, members: seq<Member>)
    requires forall i :: 0 <= i < |members| ==> Inside(file, members[i])
    ensures FirstOutside(file, members) == None
  {
    if members != [] { NoneOutside(file, members[1..]); }
  }

  method MeasureAll(source: Source, members: seq<Member>, sha1: Bytes -> string)
    returns (r: Result<seq<Measured>, string>)
    requires forall i :: 0 <= i < |members| ==> members[i].offset <= |source.file|
    modifies source
    ensures r.Ok? ==> r.value == MeasuredAll(source.file, sha1, members)
    ensures r.Ok? ==> forall i :: 0 <= i < |members| ==> Inside(source.file, members[i])
    ensures r.Err? && !source.faulty ==> FirstOutside(source.file, members) == Some(r.error)
  {
    var measured: seq<Measured> := [];
    for i := 0 to |members|
      invariant measured == MeasuredAll(source.file, sha1, members)[..i]
      invariant forall j :: 0 <= j < i ==> Inside(source.file, members[j])
    {
      var raw := MemberBytes(source, members[i]);
      if raw.None? {
        FirstOutsideIs(source.file, members, i);
        return Err(members[i].name);
      }
      measured := measured + [Measured(members[i].name, members[i].size, sha1(raw.value))];
    }
    return Ok(measured);
  }

  function VersionLine(lines: seq<string>): Option<string> {
    if lines == [] then None
    else if StartsWith(lines[0], "Version:") then Some(lines[0][8..])
    else VersionLine(lines[1..])
  }

  /** The version a control file names. */
  function VersionFromControl(text: string): Option<Version> {
    var rest :- VersionLine(Lines(text));
    Parse(Trim(rest))
  }

  /** Line `i` is the first that starts with `Version:`. */
  ghost predicate FirstVersionLine(lines: seq<string>, i: nat) {
    && i < |lines| && StartsWith(lines[i], "Version:")
    && forall j :: 0 <= j < i ==> !StartsWith(lines[j], "Version:")
  }

  /** The control file names this version: what follows `Version:` on the first line that starts so,
      without the white space around it, is its text, and the numbers in it are its components. */
  ghost predicate NamesVersion(text: string, version: Version) {
    exists i: nat :: FirstVersionLine(Lines(text), i) && IsTrimOf(version.raw, Lines(text)[i][8..])
                     && Numbered(version.raw, version.parts)
  }

  lemma {:induction false} VersionLineAt(lines: seq<string>) returns (i: nat)
    ensures if VersionLine(lines).Some? then FirstVersionLine(lines, i) && VersionLine(lines).value == lines[i][8..]
            else forall j :: 0 <= j < |lines| ==> !StartsWith(lines[j], "Version:")
  {
    i := 0;
    if lines != [] && !StartsWith(lines[0], "Version:") {
      var rest := VersionLineAt(lines[1..]);
      i := rest + 1;
      assert forall j :: 0 < j < |lines| ==> lines[j] == lines[1..][j - 1];
    }
  }

  lemma VersionMeans(text: string, version: Version)
    ensures VersionFromControl(text) == Some(version) <==> NamesVersion(text, version)
  {
    var lines := Lines(text);
    var i := VersionLineAt(lines);
    if VersionLine(lines).Some? {
      var rest := VersionLine(lines).value;
      TrimMeans(rest, Trim(rest));
      ParseMeans(Trim(rest), version);
      if NamesVersion(text, version) {
        var k: nat :| FirstVersionLine(lines, k) && IsTrimOf(version.raw, lines[k][8..])
                      && Numbered(version.raw, version.parts);
        assert k == i;
        TrimMeans(rest, version.raw);
      }
    }
  }

  datatype Accepted = Accepted(version: Version, data: Member)

  /** The manifest of a package, if its signature member is there, whole, accepted and readable. */
  function SignedManifest(file: Bytes, members: seq<Member>, verify: Bytes -> Option<string>)
    : Result<M.Manifest, ProvisionError>
  {
    match FirstMember(members, SIGNATURE_MEMBER)
    case None => Err(NoSignature)
    case Some(signature) =>
      if !Inside(file, signature) then Err(CannotRead(SIGNATURE_MEMBER))
      else
        match verify(PayloadOf(file, signature))
        case None => Err(NotVerified)
        case Some(body) =>
          match M.ParseOf(body)
          case Err(e) => Err(BadManifest(e))
          case Ok(manifest) => Ok(manifest)
  }

  /** What is to be installed from a package that agrees with its manifest. */
  function Chosen(file: Bytes, members: seq<Member>, control: Bytes -> string): Result<Accepted, ProvisionError> {
    match FirstMember(members, CONTROL_MEMBER)
    case None => Err(NoControl)
    case Some(m) =>
      if !Inside(file, m) then Err(CannotRead(CONTROL_MEMBER))
      else
        match VersionFromControl(control(PayloadOf(file, m)))
        case None => Err(NoVersion)
        case Some(version) =>
          match FirstMember(members, DATA_MEMBER)
          case None => Err(NoData)
          case Some(data) => Ok(Accepted(version, data))
  }

  /** The verdict on a package, with every reason for refusing it in the order they are looked for. */
  function Verdict(file: Bytes, verify: Bytes -> Option<string>, sha1: Bytes -> string, control: Bytes -> string)
    : Result<Accepted, ProvisionError>
  {
    match DirectoryOf(file)
    case Err(e) => Err(BadArchive(e))
    case Ok(members) =>
      match SignedManifest(file, members, verify)
      case Err(e) => Err(e)
      case Ok(manifest) =>
        if FirstOutside(file, members).Some? then Err(CannotRead(FirstOutside(file, members).value))
        else
          var problems := Problems(MeasuredAll(file, sha1, members), manifest);
          if problems != [] then Err(Disagrees(problems)) else Chosen(file, members, control)
  }

  method ReadManifest(source: Source, members: seq<Member>, verify: Bytes -> Option<string>)
    returns (r: Result<M.Manifest, ProvisionError>)
    requires forall i :: 0 <= i < |members| ==> members[i].offset <= |source.file|
    modifies source
    ensures r.Ok? || !source.faulty ==> r == SignedManifest(source.file, members, verify)
  {
    var signature := FirstMember(members, SIGNATURE_MEMBER);
    if signature.None? {
      return Err(NoSignature);
    }
    var clearsigned := MemberBytes(source, signature.value);
    if clearsigned.None? {
      return Err(CannotRead(SIGNATURE_MEMBER));
    }
    var body := verify(clearsigned.value);
    if body.None? {
      return Err(NotVerified);
    }
    var signed := M.Parse(body.value);
    if signed.Err? {
      return Err(BadManifest(signed.error));
    }
    return Ok(signed.value);
  }

  method Choose(source: Source, members: seq<Member>, control: Bytes -> string)
    returns (r: Result<Accepted, ProvisionError>)
    requires forall i :: 0 <= i < |members| ==> members[i].offset <= |source.file|
    modifies source
    ensures r.Ok? || !source.faulty ==> r == Chosen(source.file, members, control)
  {
    var controlMember := FirstMember(members, CONTROL_MEMBER);
    if controlMember.None? {
      return Err(NoControl);
    }
    var controlBytes := MemberBytes(source, controlMember.value);
    if controlBytes.None? {
      return Err(CannotRead(CONTROL_MEMBER));
    }
    var version := VersionFromControl(control(controlBytes.value));
    if version.None? {
      return Err(NoVersion);
    }
    var data := FirstMember(members, DATA_MEMBER);
    if data.None? {
      return Err(NoData);
    }
    return Ok(Accepted(version.value, data.value));
  }

  /** The checks that come before an install plan is made, in their order. `verify` stands for
      the signature check, `sha1` for the hash and `control` for tar reading the control file.
      A read fault can only turn the verdict into a refusal. */
  method CheckPackage(source: Source, verify: Bytes -> Option<string>, sha1: Bytes -> string, control: Bytes -> string)
    returns (r: Result<Accepted, ProvisionError>)
    requires source.position == 0
    modifies source
    ensures r.Ok? || !source.faulty ==> r == Verdict(source.file, verify, sha1, control)
  {
    var directory := Directory(source);
    if directory.Err? {
      return Err(BadArchive(directory.error));
    }
    var members := directory.value;
    MembersStartInside(source.file);
    var signed := ReadManifest(source, members, verify);
    if signed.Err? {
      return Err(signed.error);
    }
    var measured := MeasureAll(source, members, sha1);
    if measured.Err? {
      return Err(CannotRead(measured.error));
    }
    NoneOutside(source.file, members);
    var problems := AgreesWith(measured.value, signed.value);
    if problems != [] {
      return Err(Disagrees(problems));
    }
    r := Choose(source, members, control);
  }

  /** The manifest the signature of a package covers agrees with its members: each one but the signature
      has the size and digest of the first entry of its name, and each entry has a member. */
  ghost predicate Agrees(file: Bytes, members: seq<Member>, sha1: Bytes -> string, manifest: M.Manifest) {
    && (forall m :: m in members && m.name != "_gpgplex" ==>
          exists e :: FirstListed(manifest.entries, m.name, e) && e.size == m.size
                      && Lower(e.sha1) == Lower(sha1(PayloadOf(file, m))))
    && (forall e :: e in manifest.entries ==> exists m :: m in members && m.name == e.name)
  }

  ghost predicate AcceptableFrom(file: Bytes, verify: Bytes -> Option<string>, sha1: Bytes -> string,
                                 control: Bytes -> string, accepted: Accepted, members: seq<Member>,
                                 signature: Member, manifest: M.Manifest, about: Member) {
    && DirectoryOf(file) == Ok(members) && AllThere(file, members)
    && FirstNamed(members, "_gpgplex", signature) && SignedText(file, verify, signature, manifest)
    && Agrees(file, members, sha1, manifest)
    && FirstNamed(members, "control.tar.xz", about)
    && NamesVersion(control(PayloadOf(file, about)), accepted.version)
    && FirstNamed(members, "data.tar.xz", accepted.data)
  }

  /** When a package is accepted, and as what. */
  ghost predicate Acceptable(file: Bytes, verify: Bytes -> Option<string>, sha1: Bytes -> string,
                             control: Bytes -> string, accepted: Accepted) {
    exists members, signature, manifest, about ::
      AcceptableFrom(file, verify, sha1, control, accepted, members, signature, manifest, about)
  }

  /** The file holds every payload whole. */
  ghost predicate AllThere(file: Bytes, members: seq<Member>) {
    forall m :: m in members ==> m.offset + m.size <= |file|
  }

  ghost predicate SignedText(file: Bytes, verify: Bytes -> Option<string>, signature: Member, manifest: M.Manifest) {
    verify(PayloadOf(file, signature)).Some? && M.ParseOf(verify(PayloadOf(file, signature)).value) == Ok(manifest)
  }

  lemma AgreesIsNoProblem(file: Bytes, members: seq<Member>, sha1: Bytes -> string, manifest: M.Manifest)
    requires exists m :: m in members && m.name == "_gpgplex"
    ensures Problems(MeasuredAll(file, sha1, members), manifest) == [] <==> Agrees(file, members, sha1, manifest)
  {
    var measured := MeasuredAll(file, sha1, members);
    EmptyReport(measured, manifest);
    forall m | m in members
      ensures MeasuredAs(file, sha1, m) in measured
    {
      var i :| 0 <= i < |members| && members[i] == m;
      assert measured[i] == MeasuredAs(file, sha1, m);
    }
    forall x | x in measured
      ensures exists m :: m in members && x == MeasuredAs(file, sha1, m)
    {
      var i :| 0 <= i < |measured| && measured[i] == x;
      assert x == MeasuredAs(file, sha1, members[i]);
    }
  }

  /** An accepted package is exactly one whose payloads are all there, that has a signature member whose
      checked text is a manifest its members agree with, a control member that names a version and a
      data member; it is accepted as that version and that data. */
  lemma AcceptedExactly(file: Bytes, verify: Bytes -> Option<string>, sha1: Bytes -> string, control: Bytes -> string,
                        accepted: Accepted)
    ensures Verdict(file, verify, sha1, control) == Ok(accepted) <==> Acceptable(file, verify, sha1, control, accepted)
  {
    if Verdict(file, verify, sha1, control) == Ok(accepted) {
      AcceptedIsAcceptable(file, verify, sha1, control, accepted);
    }
    if Acceptable(file, verify, sha1, control, accepted) {
      AcceptableIsAccepted(file, verify, sha1, control, accepted);
    }
  }

  lemma SignedMeans(file: Bytes, members: seq<Member>, verify: Bytes -> Option<string>, signature: Member,
                    manifest: M.Manifest)
    requires FirstNamed(members, "_gpgplex", signature) && Inside(file, signature)
    ensures SignedManifest(file, members, verify) == Ok(manifest) <==> SignedText(file, verify, signature, manifest)
  {
    FirstMemberIs(members, "_gpgplex", signature);
  }

  lemma ChosenMeans(file: Bytes, members: seq<Member>, control: Bytes -> string, about: Member, accepted: Accepted)
    requires FirstNamed(members, "control.tar.xz", about) && Inside(file, about)
    ensures Chosen(file, members, control) == Ok(accepted) <==>
            && NamesVersion(control(PayloadOf(file, about)), accepted.version)
            && FirstNamed(members, "data.tar.xz", accepted.data)
  {
    FirstMemberIs(members, "control.tar.xz", about);
    FirstMemberIs(members, "data.tar.xz", accepted.data);
    VersionMeans(control(PayloadOf(file, about)), accepted.version);
  }

  lemma AcceptedIsAcceptable(file: Bytes, verify: Bytes -> Option<string>, sha1: Bytes -> string,
                             control: Bytes -> string, accepted: Accepted)
    requires Verdict(file, verify, sha1, control) == Ok(accepted)
    ensures Acceptable(file, verify, sha1, control, accepted)
  {
    var members, manifest := AcceptedParts(file, verify, sha1, control, accepted);
    var signature := SignedFrom(file, members, verify, manifest);
    var about := ChosenFrom(file, members, control, accepted);
    AgreesIsNoProblem(file, members, sha1, manifest);
    assert AcceptableFrom(file, verify, sha1, control, accepted, members, signature, manifest, about);
  }

  lemma AcceptedParts(file: Bytes, verify: Bytes -> Option<string>, sha1: Bytes -> string, control: Bytes -> string,
                      accepted: Accepted)
    returns (members: seq<Member>, manifest: M.Manifest)
    requires Verdict(file, verify, sha1, control) == Ok(accepted)
    ensures DirectoryOf(file) == Ok(members) && AllThere(file, members)
    ensures SignedManifest(file, members, verify) == Ok(manifest)
    ensures Problems(MeasuredAll(file, sha1, members), manifest) == [] && Chosen(file, members, control) == Ok(accepted)
  {
    members := DirectoryOf(file).value;
    manifest := SignedManifest(file, members, verify).value;
    AllInside(file, members);
  }

  lemma SignedFrom(file: Bytes, members: seq<Member>, verify: Bytes -> Option<string>, manifest: M.Manifest)
    returns (signature: Member)
    requires SignedManifest(file, members, verify) == Ok(manifest)
    ensures FirstNamed(members, "_gpgplex", signature) && SignedText(file, verify, signature, manifest)
    ensures signature in members && signature.name == "_gpgplex"
  {
    signature := FirstMember(members, SIGNATURE_MEMBER).value;
    FirstMemberIs(members, "_gpgplex", signature);
    SignedMeans(file, members, verify, signature, manifest);
  }

  lemma ChosenFrom(file: Bytes, members: seq<Member>, control: Bytes -> string, accepted: Accepted)
    returns (about: Member)
    requires Chosen(file, members, control) == Ok(accepted)
    ensures FirstNamed(members, "control.tar.xz", about) && FirstNamed(members, "data.tar.xz", accepted.data)
    ensures NamesVersion(control(PayloadOf(file, about)), accepted.version)
  {
    about := FirstMember(members, CONTROL_MEMBER).value;
    FirstMemberIs(members, "control.tar.xz", about);
    ChosenMeans(file, members, control, about, accepted);
  }

  lemma AcceptableIsAccepted(file: Bytes, verify: Bytes -> Option<string>, sha1: Bytes -> string,
                             control: Bytes -> string, accepted: Accepted)
    requires Acceptable(file, verify, sha1, control, accepted)
    ensures Verdict(file, verify, sha1, control) == Ok(accepted)
  {
    var members, signature, manifest, about :|
      AcceptableFrom(file, verify, sha1, control, accepted, members, signature, manifest, about);
    AcceptedFrom(file, verify, sha1, control, accepted, members, signature, manifest, about);
  }

  lemma AcceptedFrom(file: Bytes, verify: Bytes -> Option<string>, sha1: Bytes -> string, control: Bytes -> string,
                     accepted: Accepted, members: seq<Member>, signature: Member, manifest: M.Manifest, about: Member)
    requires AcceptableFrom(file, verify, sha1, control, accepted, members, signature, manifest, about)
    ensures Verdict(file, verify, sha1, control) == Ok(accepted)
  {
    NoneOutside(file, members);
    SignedMeans(file, members, verify, signature, manifest);
    AgreesIsNoProblem(file, members, sha1, manifest);
    ChosenMeans(file, members, control, about, accepted);
    VerdictFrom(file, verify, sha1, control, members, manifest);
  }

  lemma VerdictFrom(file: Bytes, verify: Bytes -> Option<string>, sha1: Bytes -> string, control: Bytes -> string,
                    members: seq<Member>, manifest: M.Manifest)
    requires DirectoryOf(file) == Ok(members) && SignedManifest(file, members, verify) == Ok(manifest)
    requires FirstOutside(file, members).None? && Problems(MeasuredAll(file, sha1, members), manifest) == []
    ensures Verdict(file, verify, sha1, control) == Chosen(file, members, control)
  {
  }

  /** An accepted package is vouched for, and its version is the one its control file names. */
  lemma AcceptedIsVouched(file: Bytes, verify: Bytes -> Option<string>, sha1: Bytes -> string, control: Bytes -> string)
    requires Verdict(file, verify, sha1, control).Ok?
    ensures Vouched(file, verify, sha1, Verdict(file, verify, sha1, control).value.data)
    ensures exists about :: FirstNamed(DirectoryOf(file).value, "control.tar.xz", about)
                            && NamesVersion(control(PayloadOf(file, about)),
                                            Verdict(file, verify, sha1, control).value.version)
  {
    var members := DirectoryOf(file).value;
    var manifest := SignedManifest(file, members, verify).value;
    var accepted := Verdict(file, verify, sha1, control).value;
    AllInside(file, members);
    AgreedDataIsVouched(file, members, verify, sha1, manifest, accepted.data);
    var about := FirstMember(members, CONTROL_MEMBER).value;
    FirstMemberIs(members, "control.tar.xz", about);
    VersionMeans(control(PayloadOf(file, about)), accepted.version);
  }

  ghost predicate NoneNamed(members: seq<Member>, name: string) {
    forall m :: m in members ==> m.name != name
  }

  /** Why a package is refused, for each reason that is given. */
  ghost predicate Refused(file: Bytes, verify: Bytes -> Option<string>, sha1: Bytes -> string,
                          control: Bytes -> string, error: ProvisionError) {
    if error.BadArchive? then DirectoryOf(file) == Err(error.archive)
    else
      && DirectoryOf(file).Ok?
      && var members := DirectoryOf(file).value;
         match error
         case BadArchive(_) => false
         case NoSignature => NoneNamed(members, "_gpgplex")
         case CannotRead(name) => exists m :: m in members && m.name == name && m.offset + m.size > |file|
         case NotVerified => exists m :: FirstNamed(members, "_gpgplex", m) && verify(PayloadOf(file, m)).None?
         case BadManifest(e) =>
           exists m :: FirstNamed(members, "_gpgplex", m) && verify(PayloadOf(file, m)).Some?
                       && M.ParseOf(verify(PayloadOf(file, m)).value) == Err(e)
         case Disagrees(problems) =>
           && problems != []
           && exists m, manifest :: FirstNamed(members, "_gpgplex", m) && SignedText(file, verify, m, manifest)
                                    && forall p :: p in problems <==>
                                                   IsDiscrepancy(MeasuredAll(file, sha1, members), manifest, p)
         case NoControl => NoneNamed(members, "control.tar.xz")
         case NoVersion =>
           exists m :: FirstNamed(members, "control.tar.xz", m)
                       && forall version :: !NamesVersion(control(PayloadOf(file, m)), version)
         case NoData => NoneNamed(members, "data.tar.xz")
  }

  lemma NoneIsNamed(members: seq<Member>, name: string)
    ensures FirstMember(members, name).None? <==> NoneNamed(members, name)
  {
  }

  lemma {:induction false} OutsideIs(file: Bytes, members: seq<Member>)
    requires FirstOutside(file, members).Some?
    ensures exists m :: m in members && m.name == FirstOutside(file, members).value && m.offset + m.size > |file|
  {
    if Inside(file, members[0]) { OutsideIs(file, members[1..]); }
  }

  lemma SignatureRefused(file: Bytes, verify: Bytes -> Option<string>, sha1: Bytes -> string, control: Bytes -> string,
                         members: seq<Member>)
    requires DirectoryOf(file) == Ok(members) && SignedManifest(file, members, verify).Err?
    ensures Refused(file, verify, sha1, control, SignedManifest(file, members, verify).error)
  {
    NoneIsNamed(members, "_gpgplex");
    if FirstMember(members, "_gpgplex").Some? {
      FirstMemberIs(members, "_gpgplex", FirstMember(members, "_gpgplex").value);
    }
  }

  lemma ChoiceRefused(file: Bytes, verify: Bytes -> Option<string>, sha1: Bytes -> string, control: Bytes -> string,
                      members: seq<Member>)
    requires DirectoryOf(file) == Ok(members) && Chosen(file, members, control).Err?
    ensures Refused(file, verify, sha1, control, Chosen(file, members, control).error)
  {
    NoneIsNamed(members, "control.tar.xz");
    NoneIsNamed(members, "data.tar.xz");
    if FirstMember(members, "control.tar.xz").Some? {
      var about := FirstMember(members, "control.tar.xz").value;
      FirstMemberIs(members, "control.tar.xz", about);
      forall version
        ensures NamesVersion(control(PayloadOf(file, about)), version) <==>
                VersionFromControl(control(PayloadOf(file, about))) == Some(version)
      {
        VersionMeans(control(PayloadOf(file, about)), version);
      }
    }
  }

  lemma ReportRefused(file: Bytes, verify: Bytes -> Option<string>, sha1: Bytes -> string, control: Bytes -> string,
                      members: seq<Member>, manifest: M.Manifest)
    requires DirectoryOf(file) == Ok(members) && SignedManifest(file, members, verify) == Ok(manifest)
    requires Problems(MeasuredAll(file, sha1, members), manifest) != []
    ensures Refused(file, verify, sha1, control, Disagrees(Problems(MeasuredAll(file, sha1, members), manifest)))
  {
    var signature := FirstMember(members, "_gpgplex").value;
    FirstMemberIs(members, "_gpgplex", signature);
    assert SignedText(file, verify, signature, manifest);
    forall p
      ensures p in Problems(MeasuredAll(file, sha1, members), manifest) <==>
              IsDiscrepancy(MeasuredAll(file, sha1, members), manifest, p)
    {
      ReportIsExact(MeasuredAll(file, sha1, members), manifest, p);
    }
  }

  /** A refusal gives a reason that is there. */
  lemma RefusalMeans(file: Bytes, verify: Bytes -> Option<string>, sha1: Bytes -> string, control: Bytes -> string)
    requires Verdict(file, verify, sha1, control).Err?
    ensures Refused(file, verify, sha1, control, Verdict(file, verify, sha1, control).error)
  {
    if DirectoryOf(file).Ok? {
      var members := DirectoryOf(file).value;
      if SignedManifest(file, members, verify).Err? {
        SignatureRefused(file, verify, sha1, control, members);
      } else if FirstOutside(file, members).Some? {
        OutsideIs(file, members);
      } else if Problems(MeasuredAll(file, sha1, members), SignedManifest(file, members, verify).value) != [] {
        ReportRefused(file, verify, sha1, control, members, SignedManifest(file, members, verify).value);
      } else {
        ChoiceRefused(file, verify, sha1, control, members);
      }
    }
  }

  lemma {:induction false} AllInside(file: Bytes, members: seq<Member>)
    requires FirstOutside(file, members) == None
    ensures forall i :: 0 <= i < |members| ==> Inside(file, members[i])
  {
    if members != [] { AllInside(file, members[1..]); }
  }

  lemma AgreedDataIsVouched(file: Bytes, members: seq<Member>, verify: Bytes -> Option<string>, sha1: Bytes -> string,
                            manifest: M.Manifest, data: Member)
    requires DirectoryOf(file) == Ok(members) && FirstMember(members, DATA_MEMBER) == Some(data)
    requires forall i :: 0 <= i < |members| ==> Inside(file, members[i])
    requires SignedBy(file, members, verify, manifest)
    requires Problems(MeasuredAll(file, sha1, members), manifest) == []
    ensures Vouched(file, verify, sha1, data)
  {
    var i :| 0 <= i < |members| && members[i] == data;
    assert MeasuredAll(file, sha1, members)[i] == MeasuredAs(file, sha1, data);
    EmptyReport(MeasuredAll(file, sha1, members), manifest);
    assert Matches(MeasuredAs(file, sha1, data), manifest);
  }

  /** A member is only listed once its whole header has been read. */
  lemma {:induction false} WalkStaysInside(read: HeaderReader, file: Bytes, offset: nat, members: seq<Member>)
    requires WalkFrom(read, file, offset, members).Ok?
    requires forall i :: 0 <= i < |members| ==> members[i].offset <= |file|
    ensures forall i :: 0 <= i < |WalkFrom(read, file, offset, members).value| ==>
              WalkFrom(read, file, offset, members).value[i].offset <= |file|
    decreases MAX_MEMBERS - |members|
  {
    if offset < |file| {
      var (name, size) := read(file[offset..offset + HEADER_LEN]).value;
      WalkStaysInside(read, file, offset + HEADER_LEN + Padded(size),
                      members + [Member(name, size, offset + HEADER_LEN)]);
    }
  }

  lemma MembersStartInside(file: Bytes)
    ensures DirectoryOf(file).Ok? ==>
              forall i :: 0 <= i < |DirectoryOf(file).value| ==> DirectoryOf(file).value[i].offset <= |file|
  {
    if DirectoryOf(file).Ok? {
      WalkStaysInside(ReadHeader, file, |MAGIC|, []);
    }
  }

  /** Checking a package and streaming it: for every pattern of short reads, either something
      fails, or tar was fed exactly the payload the signed manifest vouches for; and a package that
      passes is unpacked when nothing else goes wrong. */
  method CheckAndUnpack(source: Source, verify: Bytes -> Option<string>, sha1: Bytes -> string,
                        control: Bytes -> string, tarSucceeds: bool, sink: Sink)
    returns (r: Option<Accepted>)
    requires source.position == 0 && sink.written == []
    modifies source, sink
    ensures r.Some? ==> Vouched(source.file, verify, sha1, r.value.data)
    ensures r.Some? ==> sink.written == PayloadOf(source.file, r.value.data)
    ensures !source.faulty && !sink.faulty && tarSucceeds && Verdict(source.file, verify, sha1, control).Ok? ==>
              r == Some(Verdict(source.file, verify, sha1, control).value)
  {
    var checked := CheckPackage(source, verify, sha1, control);
    if checked.Err? {
      return None;
    }
    AcceptedIsVouched(source.file, verify, sha1, control);
    var data := checked.value.data;
    var fed := Unpack(source, data.offset, data.size, tarSucceeds, sink);
    if fed.Err? {
      return None;
    }
    return Some(checked.value);
  }
}
