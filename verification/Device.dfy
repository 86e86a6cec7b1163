/** Finding a partition by its GPT label: what the kernel publishes about each one, which disk it
    belongs to, and the wait for a disk that has not been enumerated yet. */
module Device {
  import opened Wrappers
  import opened Text

  datatype Partition = Partition(devname: string, partname: string, partuuid: string)

  // ----- uevent files -----

  const DEVNAME := "DEVNAME="
  const PARTNAME := "PARTNAME="
  const PARTUUID := "PARTUUID="

  function Described(lines: seq<string>): Option<Partition> {
    var devname :- LastWith(lines, DEVNAME);
    var partname :- LastWith(lines, PARTNAME);
    if Trim(partname) == "" then None
    else
      Some(Partition(Trim(devname), Trim(partname),
                     match LastWith(lines, PARTUUID)
                     case Some(id) => Lower(Trim(id))
                     case None => ""))
  }

  lemma KeysExclude(line: string)
    ensures StartsWith(line, DEVNAME) ==> !StartsWith(line, PARTNAME) && !StartsWith(line, PARTUUID)
    ensures StartsWith(line, PARTNAME) ==> !StartsWith(line, PARTUUID)
  {
    if StartsWith(line, DEVNAME) { assert line[0] == 'D'; }
    if StartsWith(line, PARTNAME) { assert line[4] == 'N'; }
    if StartsWith(line, PARTUUID) { assert line[0] == 'P' && line[4] == 'U'; }
  }

  /** `parse_uevent`. */
  method ParseUevent(contents: string) returns (r: Option<Partition>)
    ensures r == Described(Lines(contents))
  {
    var lines := Lines(contents);
    var devname: Option<string>, partname: Option<string>, partuuid := None, None, "";
    for i := 0 to |lines|
      invariant devname == match LastWith(lines[..i], DEVNAME) case Some(v) => Some(Trim(v)) case None => None
      invariant partname == match LastWith(lines[..i], PARTNAME) case Some(v) => Some(Trim(v)) case None => None
      invariant partuuid == match LastWith(lines[..i], PARTUUID) case Some(v) => Lower(Trim(v)) case None => ""
    {
      var line := lines[i];
      KeysExclude(line);
      LastWithStep(lines, i, DEVNAME);
      LastWithStep(lines, i, PARTNAME);
      LastWithStep(lines, i, PARTUUID);
      if StartsWith(line, DEVNAME) {
        devname := Some(Trim(line[|DEVNAME|..]));
      } else if StartsWith(line, PARTNAME) {
        partname := Some(Trim(line[|PARTNAME|..]));
      } else if StartsWith(line, PARTUUID) {
        partuuid := Lower(Trim(line[|PARTUUID|..]));
      }
    }
    assert lines[..|lines|] == lines;
    if devname.Some? && partname.Some? && partname.value != "" {
      r := Some(Partition(devname.value, partname.value, partuuid));
    } else {
      r := None;
    }
  }

  /** What the last line with this key says, without the white space around it. */
  ghost predicate Says(lines: seq<string>, key: string, value: string) {
    exists text :: LastValue(lines, key, text) && IsTrimOf(value, text)
  }

  lemma SaysMeans(lines: seq<string>, key: string, value: string)
    ensures Says(lines, key, value) <==> LastWith(lines, key).Some? && value == Trim(LastWith(lines, key).value)
  {
    LastWithMeans(lines, key);
    if LastWith(lines, key).Some? { TrimMeans(LastWith(lines, key).value, value); }
  }

  ghost predicate Names(lines: seq<string>, p: Partition) {
    && Says(lines, "DEVNAME=", p.devname) && Says(lines, "PARTNAME=", p.partname) && p.partname != ""
    && (if NoValue(lines, "PARTUUID=") then p.partuuid == ""
        else exists id :: Says(lines, "PARTUUID=", id) && p.partuuid == Lower(id))
  }

  lemma UuidMeans(lines: seq<string>, uuid: string)
    ensures (exists id :: Says(lines, "PARTUUID=", id) && uuid == Lower(id)) <==>
            LastWith(lines, "PARTUUID=").Some? && uuid == Lower(Trim(LastWith(lines, "PARTUUID=").value))
  {
    if LastWith(lines, "PARTUUID=").Some? {
      SaysMeans(lines, "PARTUUID=", Trim(LastWith(lines, "PARTUUID=").value));
    }
    forall id | Says(lines, "PARTUUID=", id)
      ensures LastWith(lines, "PARTUUID=").Some? && id == Trim(LastWith(lines, "PARTUUID=").value)
    {
      SaysMeans(lines, "PARTUUID=", id);
    }
  }

  /** What a description describes, key by key; nothing else is one of a labelled partition. */
  lemma DescribedMeans(lines: seq<string>, p: Partition)
    ensures Described(lines) == Some(p) <==> Names(lines, p)
  {
    SaysMeans(lines, "DEVNAME=", p.devname);
    SaysMeans(lines, "PARTNAME=", p.partname);
    LastWithMeans(lines, "PARTUUID=");
    UuidMeans(lines, p.partuuid);
  }

  // ----- Disks and partitions -----

  function TrimDigits(s: string): (r: string)
    ensures |r| <= |s| && r == s[..|r|]
    ensures r == "" || !IsDigit(r[|r| - 1])
  {
    if s != "" && IsDigit(s[|s| - 1]) then TrimDigits(s[..|s| - 1]) else s
  }

  predicate EndsInDigit(s: string) {
    s != "" && IsDigit(s[|s| - 1])
  }

  /** A digit and then the letter that separates a disk from a partition number. */
  predicate EndsInSeparator(s: string) {
    |s| >= 2 && s[|s| - 1] == 'p' && IsDigit(s[|s| - 2])
  }

  /** `disk_of`. */
  function DiskOf(partition: string): string {
    var stem := TrimDigits(partition);
    if EndsInSeparator(stem) then stem[..|stem| - 1] else stem
  }

  /** How the kernel names partition `n` of a disk. */
  function PartitionName(disk: string, n: nat): string {
    if EndsInDigit(disk) then disk + "p" + Decimal(n) else disk + Decimal(n)
  }

  lemma {:induction false} TrimDigitsOf(s: string, digits: string)
    requires AllDigits(digits)
    ensures TrimDigits(s + digits) == TrimDigits(s)
  {
    if digits == "" {
      assert s + digits == s;
    } else {
      var n := |digits| - 1;
      assert (s + digits)[..|s| + n] == s + digits[..n];
      assert IsDigit(digits[n]);
      TrimDigitsOf(s, digits[..n]);
    }
  }

  /** The disk of a partition is the one it was named after, except for a disk whose own name
      ends in a digit and then a `p`. */
  lemma DiskOfInvertsNaming(disk: string, n: nat)
    ensures DiskOf(PartitionName(disk, n)) == disk <==> !EndsInSeparator(disk)
  {
    if EndsInDigit(disk) {
      TrimDigitsOf(disk + "p", Decimal(n));
      assert TrimDigits(disk + "p") == disk + "p";
      assert (disk + "p")[..|disk|] == disk;
    } else {
      TrimDigitsOf(disk, Decimal(n));
      assert TrimDigits(disk) == disk;
    }
  }

  /** Partitions of different disks are told apart. */
  lemma DisksAreToldApart(d: string, e: string, m: nat, n: nat)
    requires d != e && !EndsInSeparator(d) && !EndsInSeparator(e)
    ensures DiskOf(PartitionName(d, m)) != DiskOf(PartitionName(e, n))
  {
    DiskOfInvertsNaming(d, m);
    DiskOfInvertsNaming(e, n);
  }

  // ----- Resolving a label -----

  /** What one scan of the kernel's list gives, in device-name order; nothing when it cannot be
      read. */
  type Scan = Option<seq<Partition>>

  predicate Matches(p: Partition, disk: Option<string>, name: string) {
    p.partname == name && (disk.Some? ==> DiskOf(p.devname) == disk.value)
  }

  function IndexOfMatch(partitions: seq<Partition>, disk: Option<string>, name: string): (i: nat)
    ensures i <= |partitions|
    ensures i < |partitions| ==> Matches(partitions[i], disk, name)
    ensures forall j :: 0 <= j < i ==> !Matches(partitions[j], disk, name)
  {
    if partitions == [] || Matches(partitions[0], disk, name) then 0
    else 1 + IndexOfMatch(partitions[1..], disk, name)
  }

  /** `by_partlabel_on`, and `by_partlabel` when no disk is given. */
  function Find(scan: Scan, disk: Option<string>, name: string): Option<string> {
    if scan.None? then None
    else
      var i := IndexOfMatch(scan.value, disk, name);
      if i < |scan.value| then Some("/dev/" + scan.value[i].devname) else None
  }

  predicate Shows(scan: Scan, disk: Option<string>, name: string) {
    scan.Some? && exists p :: p in scan.value && Matches(p, disk, name)
  }

  lemma FindFinds(scan: Scan, disk: Option<string>, name: string)
    ensures Find(scan, disk, name).Some? <==> Shows(scan, disk, name)
    ensures Find(scan, disk, name).Some? ==>
              exists p :: p in scan.value && Matches(p, disk, name)
                          && Find(scan, disk, name).value == "/dev/" + p.devname
  {
    if scan.Some? {
      var i := IndexOfMatch(scan.value, disk, name);
      if i < |scan.value| {
        var p := scan.value[i];
        assert p in scan.value && Matches(p, disk, name);
        assert Find(scan, disk, name).value == "/dev/" + p.devname;
      }
    }
  }

  const POLL_MS: nat := 100
  const DEVICE_TIMEOUT_MS: nat := 30_000

  /** A machine while it waits: what scan `k` shows and what the clock reads after it. */
  datatype Enumeration = Enumeration(scan: nat -> Scan, now: nat -> nat) {
    /** Each turn sleeps, so the clock moves on by at least the poll interval. */
    ghost predicate Advances() {
      forall k: nat :: now(k) + POLL_MS <= now(k + 1)
    }
  }

  /** No scan before the `k`th shows the partition. */
  ghost predicate HiddenBefore(e: Enumeration, disk: Option<string>, name: string, k: nat) {
    forall j: nat :: j < k ==> Find(e.scan(j), disk, name) == None
  }

  /** `wait_for_partlabel_on`, and `wait_for_partlabel` when no disk is given: the answer and the
      scan that gave it. */
  method Wait(e: Enumeration, disk: Option<string>, name: string, start: nat, timeout: nat)
    returns (r: Option<string>, k: nat)
    requires e.Advances()
    ensures HiddenBefore(e, disk, name, k)
    ensures forall j: nat :: j < k ==> e.now(j) < start + timeout
    ensures r == Find(e.scan(k), disk, name)
    ensures r.None? ==> e.now(k) >= start + timeout
  {
    var deadline := start + timeout;
    k := 0;
    while true
      invariant HiddenBefore(e, disk, name, k)
      invariant forall j: nat :: j < k ==> e.now(j) < deadline
      decreases deadline - e.now(k)
    {
      r := Find(e.scan(k), disk, name);
      if r.Some? { return r, k; }
      if e.now(k) >= deadline { return None, k; }
      k := k + 1;
    }
  }

  const BY_PARTLABEL := "/dev/disk/by-partlabel/"

  /** `resolve_on`. */
  method Resolve(e: Enumeration, disk: Option<string>, path: string, start: nat)
    returns (r: Option<string>, k: nat)
    requires e.Advances()
    ensures StripPrefix(path, BY_PARTLABEL).None? ==> r == Some(path)
    ensures StripPrefix(path, BY_PARTLABEL).Some? ==>
              var name := StripPrefix(path, BY_PARTLABEL).value;
              && HiddenBefore(e, disk, name, k)
              && r == Find(e.scan(k), disk, name)
              && (r.None? ==> e.now(k) >= start + DEVICE_TIMEOUT_MS)
  {
    var name := StripPrefix(path, BY_PARTLABEL);
    if name.None? { return Some(path), 0; }
    r, k := Wait(e, disk, name.value, start, DEVICE_TIMEOUT_MS);
  }

  /** Whatever disks come and go: with a known boot disk, an answer is a partition of that disk with
      that label, from the first scan that shows one. */
  lemma NeverAnotherDisk(e: Enumeration, disk: string, name: string, k: nat, device: string)
    requires HiddenBefore(e, Some(disk), name, k) && Find(e.scan(k), Some(disk), name) == Some(device)
    ensures e.scan(k).Some?
    ensures exists p :: p in e.scan(k).value && p.partname == name && DiskOf(p.devname) == disk
                        && device == "/dev/" + p.devname
    ensures forall j: nat :: j < k ==> !Shows(e.scan(j), Some(disk), name)
  {
    FindFinds(e.scan(k), Some(disk), name);
    forall j: nat | j < k
      ensures !Shows(e.scan(j), Some(disk), name)
    {
      FindFinds(e.scan(j), Some(disk), name);
    }
  }

  /** What scans show of other disks makes no difference to the answer. */
  lemma OtherDisksDoNotMatter(partitions: seq<Partition>, disk: string, name: string)
    ensures Find(Some(partitions), Some(disk), name) == Find(Some(OnDisk(partitions, disk)), Some(disk), name)
  {
    SameMatch(partitions, disk, name);
  }

  /** The partitions of one disk, in order. */
  function OnDisk(partitions: seq<Partition>, disk: string): seq<Partition> {
    if partitions == [] then []
    else if DiskOf(partitions[0].devname) == disk then [partitions[0]] + OnDisk(partitions[1..], disk)
    else OnDisk(partitions[1..], disk)
  }

  /** The first match of both, if any, is the same partition. */
  predicate SameFound(a: seq<Partition>, b: seq<Partition>, disk: Option<string>, name: string) {
    var i, j := IndexOfMatch(a, disk, name), IndexOfMatch(b, disk, name);
    (i < |a| <==> j < |b|) && (i < |a| ==> a[i] == b[j])
  }

  lemma {:induction false} SameMatch(partitions: seq<Partition>, disk: string, name: string)
    ensures SameFound(partitions, OnDisk(partitions, disk), Some(disk), name)
  {
    if partitions != [] {
      var first, rest := partitions[0], partitions[1..];
      SameMatch(rest, disk, name);
      assert partitions == [first] + rest;
      if DiskOf(first.devname) == disk {
        SameAfterBoth(first, rest, OnDisk(rest, disk), Some(disk), name);
      } else {
        SameAfterOne(first, rest, OnDisk(rest, disk), Some(disk), name);
      }
    }
  }

  lemma SameAfterBoth(first: Partition, a: seq<Partition>, b: seq<Partition>, disk: Option<string>, name: string)
    requires SameFound(a, b, disk, name)
    ensures SameFound([first] + a, [first] + b, disk, name)
  {
    MatchCons(first, a, disk, name);
    MatchCons(first, b, disk, name);
  }

  lemma SameAfterOne(first: Partition, a: seq<Partition>, b: seq<Partition>, disk: Option<string>, name: string)
    requires SameFound(a, b, disk, name) && !Matches(first, disk, name)
    ensures SameFound([first] + a, b, disk, name)
  {
    MatchCons(first, a, disk, name);
  }

  lemma MatchCons(first: Partition, rest: seq<Partition>, disk: Option<string>, name: string)
    ensures IndexOfMatch([first] + rest, disk, name)
         == if Matches(first, disk, name) then 0 else 1 + IndexOfMatch(rest, disk, name)
  {
    assert ([first] + rest)[1..] == rest;
  }

  /** The race the wait exists for: another installation's partition is enumerated first. Without a
      known boot disk it is taken; with one it is passed over until the right one appears. */
  lemma TheRace(theirs: Partition, ours: Partition, name: string)
    requires theirs.partname == ours.partname == name && DiskOf(theirs.devname) != DiskOf(ours.devname)
    ensures Find(Some([theirs]), None, name) == Some("/dev/" + theirs.devname)
    ensures Find(Some([theirs]), Some(DiskOf(ours.devname)), name) == None
    ensures Find(Some([theirs, ours]), Some(DiskOf(ours.devname)), name) == Some("/dev/" + ours.devname)
  {
    var disk := Some(DiskOf(ours.devname));
    FindFinds(Some([theirs]), disk, name);
    assert Matches([theirs][0], None, name);
    assert !Matches([theirs, ours][0], disk, name) && Matches([theirs, ours][1], disk, name);
    assert [theirs, ours][1..] == [ours];
  }
}
