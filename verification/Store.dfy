/** The app image store: version names and their order, what a directory listing holds, what
    is superseded, and the integrity record beside each image. */
module Store {
  import opened Wrappers
  import opened Text

  const IMAGE_EXT: string := ".img"
  const RECORD_EXT: string := ".sha256"
  const CURRENT_LINK: string := "current"
  const KEEP: nat := 2

  // ----- Versions -----

  datatype Version = Version(parts: seq<nat>, raw: string)

  function ParseParts(pieces: seq<string>): Option<seq<nat>> {
    if pieces == [] then Some([])
    else
      var first :- ParseUnsigned(pieces[0], U64_MAX);
      var rest :- ParseParts(pieces[1..]);
      Some([first] + rest)
  }

  function Parse(raw: string): Option<Version> {
    var parts :- ParseParts(Split(Split(raw, '-')[0], '.'));
    if parts == [] then None else Some(Version(parts, raw))
  }

  lemma {:induction false} PartsMean(pieces: seq<string>, parts: seq<nat>)
    ensures ParseParts(pieces) == Some(parts) <==>
            && |pieces| == |parts|
            && forall i :: 0 <= i < |pieces| ==> IsNumber(pieces[i], parts[i]) && parts[i] <= U64_MAX
  {
    if pieces != [] && parts != [] {
      ParseUnsignedMeans(pieces[0], U64_MAX, parts[0]);
      PartsMean(pieces[1..], parts[1..]);
      assert [parts[0]] + parts[1..] == parts;
    }
  }

  ghost predicate NumberedIn(raw: string, parts: seq<nat>, pieces: seq<string>, suffix: string) {
    && |pieces| == |parts| >= 1 && raw == Join(pieces, '.') + suffix && (suffix == "" || suffix[0] == '-')
    && forall i :: 0 <= i < |pieces| ==> IsNumber(pieces[i], parts[i]) && parts[i] <= 0xFFFF_FFFF_FFFF_FFFF
  }

  /** The text is these numbers with dots between them, alone or before a dash and anything. */
  ghost predicate Numbered(raw: string, parts: seq<nat>) {
    exists pieces, suffix :: NumberedIn(raw, parts, pieces, suffix)
  }

  /** A text is a version exactly when it is numbers with dots between them, and they and the whole text
      are what the version holds. */
  lemma ParseMeans(raw: string, v: Version)
    ensures Parse(raw) == Some(v) <==> v.raw == raw && Numbered(raw, v.parts)
  {
    if Parse(raw) == Some(v) {
      ParsedIsNumbered(raw, v);
    }
    if v.raw == raw && Numbered(raw, v.parts) {
      NumberedIsParsed(raw, v);
    }
  }

  lemma ParsedIsNumbered(raw: string, v: Version)
    requires Parse(raw) == Some(v)
    ensures v.raw == raw && Numbered(raw, v.parts)
  {
    var suffix := RestOfFirstPart(raw, '-');
    NumberedBy(raw, Split(raw, '-')[0], suffix, v.parts);
  }

  lemma NumberedBy(raw: string, head: string, suffix: string, parts: seq<nat>)
    requires raw == head + suffix && (suffix == "" || suffix[0] == '-') && parts != []
    requires ParseParts(Split(head, '.')) == Some(parts)
    ensures Numbered(raw, parts)
  {
    var pieces := Split(head, '.');
    JoinSplit(head, '.');
    PartsMean(pieces, parts);
    assert NumberedIn(raw, parts, pieces, suffix);
  }

  lemma NumberedIsParsed(raw: string, v: Version)
    requires v.raw == raw && Numbered(raw, v.parts)
    ensures Parse(raw) == Some(v)
  {
    var pieces, suffix :| NumberedIn(raw, v.parts, pieces, suffix);
    forall i | 0 <= i < |pieces|
      ensures '-' !in pieces[i] && '.' !in pieces[i]
    {
      NumbersAreDigits(pieces[i], v.parts[i]);
    }
    JoinIsWithout(pieces, '.', '-');
    FirstPart(raw, '-', Join(pieces, '.'), suffix);
    SplitJoin(pieces, '.');
    PartsMean(pieces, v.parts);
  }

  /** A version as `Parse` makes them. */
  predicate Parsed(v: Version) {
    Parse(v.raw) == Some(v)
  }

  function ImageName(v: Version): string {
    v.raw + IMAGE_EXT
  }

  function RecordName(v: Version): string {
    v.raw + IMAGE_EXT + RECORD_EXT
  }

  function VersionOf(fileName: string): Option<Version> {
    var stem :- StripSuffix(fileName, IMAGE_EXT);
    Parse(stem)
  }

  lemma VersionOfImageName(v: Version)
    ensures VersionOf(ImageName(v)) == Parse(v.raw)
    ensures Parsed(v) ==> VersionOf(ImageName(v)) == Some(v)
  {
    assert ImageName(v)[..|v.raw|] == v.raw;
    assert ImageName(v)[|v.raw|..] == IMAGE_EXT;
  }

  lemma ImageNameOfVersion(fileName: string)
    ensures VersionOf(fileName).Some? ==>
              Parsed(VersionOf(fileName).value) && ImageName(VersionOf(fileName).value) == fileName
  {
    if VersionOf(fileName).Some? {
      var stem := StripSuffix(fileName, IMAGE_EXT).value;
      assert stem + IMAGE_EXT == fileName;
    }
  }

  lemma ImageNamesDiffer(v: Version, w: Version)
    requires Parsed(v) && Parsed(w)
    ensures ImageName(v) == ImageName(w) ==> v == w
    ensures RecordName(v) == RecordName(w) ==> v == w
    ensures ImageName(v) != RecordName(w)
  {
    assert ImageName(v)[..|v.raw|] == v.raw && RecordName(v)[..|v.raw|] == v.raw;
    assert ImageName(w)[..|w.raw|] == w.raw && RecordName(w)[..|w.raw|] == w.raw;
    assert ImageName(v)[|ImageName(v)| - 1] == 'g';
    assert RecordName(w)[|RecordName(w)| - 1] == '6';
  }

  // ----- Order -----

  datatype Ordering = Less | Equal | Greater

  /** Component `i`, with zeros after the last one written. */
  function Component(v: Version, i: nat): nat {
    if i < |v.parts| then v.parts[i] else 0
  }

  function CompareFrom(a: Version, b: Version, i: nat): Ordering
    decreases |a.parts| + |b.parts| - i
  {
    if i >= |a.parts| && i >= |b.parts| then Equal
    else if Component(a, i) < Component(b, i) then Less
    else if Component(a, i) > Component(b, i) then Greater
    else CompareFrom(a, b, i + 1)
  }

  function Compare(a: Version, b: Version): Ordering {
    CompareFrom(a, b, 0)
  }

  method Cmp(a: Version, b: Version) returns (o: Ordering)
    ensures o == Compare(a, b)
  {
    var width := if |a.parts| > |b.parts| then |a.parts| else |b.parts|;
    for i := 0 to width
      invariant CompareFrom(a, b, i) == Compare(a, b)
    {
      var x := if i < |a.parts| then a.parts[i] else 0;
      var y := if i < |b.parts| then b.parts[i] else 0;
      if x < y { return Less; }
      if x > y { return Greater; }
    }
    return Equal;
  }

  /** Lexicographic order on the zero-padded components: `i` is the first difference. */
  ghost predicate FirstDifference(a: Version, b: Version, i: nat) {
    Component(a, i) < Component(b, i) && forall j :: 0 <= j < i ==> Component(a, j) == Component(b, j)
  }

  ghost predicate Below(a: Version, b: Version) {
    exists i: nat :: FirstDifference(a, b, i)
  }

  ghost predicate SamePadded(a: Version, b: Version) {
    forall i: nat :: Component(a, i) == Component(b, i)
  }

  lemma {:induction false} CompareFromIsLexicographic(a: Version, b: Version, i: nat)
    requires forall j :: 0 <= j < i ==> Component(a, j) == Component(b, j)
    ensures CompareFrom(a, b, i).Less? ==> Below(a, b)
    ensures CompareFrom(a, b, i).Greater? ==> Below(b, a)
    ensures CompareFrom(a, b, i).Equal? ==> SamePadded(a, b)
    decreases |a.parts| + |b.parts| - i
  {
    if i >= |a.parts| && i >= |b.parts| {
      assert forall j: nat :: j >= i ==> Component(a, j) == 0 && Component(b, j) == 0;
    } else if Component(a, i) < Component(b, i) {
      assert FirstDifference(a, b, i);
    } else if Component(a, i) > Component(b, i) {
      assert FirstDifference(b, a, i);
    } else {
      CompareFromIsLexicographic(a, b, i + 1);
    }
  }

  lemma BelowIsStrict(a: Version, b: Version)
    ensures Below(a, b) ==> !Below(b, a) && !SamePadded(a, b)
  {
    forall i: nat, j: nat
      ensures !(FirstDifference(a, b, i) && FirstDifference(b, a, j))
    {
    }
  }

  lemma CompareIsLexicographic(a: Version, b: Version)
    ensures Compare(a, b).Less? <==> Below(a, b)
    ensures Compare(a, b).Greater? <==> Below(b, a)
    ensures Compare(a, b).Equal? <==> SamePadded(a, b)
  {
    CompareFromIsLexicographic(a, b, 0);
    BelowIsStrict(a, b);
    BelowIsStrict(b, a);
  }

  predicate AtMost(a: Version, b: Version) {
    !Compare(a, b).Greater?
  }

  lemma BelowIsTransitive(a: Version, b: Version, c: Version)
    requires Below(a, b) || SamePadded(a, b)
    requires Below(b, c) || SamePadded(b, c)
    ensures Below(a, c) || SamePadded(a, c)
  {
    if Below(a, b) {
      var i: nat :| FirstDifference(a, b, i);
      if Below(b, c) {
        var j: nat :| FirstDifference(b, c, j);
        assert FirstDifference(a, c, if i <= j then i else j);
      } else {
        assert FirstDifference(a, c, i);
      }
    } else if Below(b, c) {
      var j: nat :| FirstDifference(b, c, j);
      assert FirstDifference(a, c, j);
    }
  }

  lemma AtMostMeans(a: Version, b: Version)
    ensures AtMost(a, b) <==> Below(a, b) || SamePadded(a, b)
    ensures AtMost(a, b) || AtMost(b, a)
  {
    CompareIsLexicographic(a, b);
    CompareIsLexicographic(b, a);
    BelowIsStrict(a, b);
    BelowIsStrict(b, a);
  }

  /** A total preorder. It is not antisymmetric: the build suffix is not compared. */
  lemma AtMostIsATotalPreorder(a: Version, b: Version, c: Version)
    ensures AtMost(a, a)
    ensures AtMost(a, b) || AtMost(b, a)
    ensures AtMost(a, b) && AtMost(b, c) ==> AtMost(a, c)
  {
    AtMostMeans(a, a);
    AtMostMeans(a, b);
    AtMostMeans(b, c);
    AtMostMeans(a, c);
    if AtMost(a, b) && AtMost(b, c) {
      BelowIsTransitive(a, b, c);
    }
  }

  // ----- Sorting, as the standard library's stable sort -----

  function InsertBefore(leq: (Version, Version) -> bool, v: Version, s: seq<Version>): seq<Version> {
    if s == [] || leq(v, s[0]) then [v] + s else [s[0]] + InsertBefore(leq, v, s[1..])
  }

  function SortBy(leq: (Version, Version) -> bool, s: seq<Version>): seq<Version> {
    if s == [] then [] else InsertBefore(leq, s[0], SortBy(leq, s[1..]))
  }

  function NewestFirst(s: seq<Version>): seq<Version> {
    SortBy((a, b) => AtMost(b, a), s)
  }

  function OldestFirst(s: seq<Version>): seq<Version> {
    SortBy(AtMost, s)
  }

  lemma {:induction false} InsertKeepsElements(leq: (Version, Version) -> bool, v: Version, s: seq<Version>)
    ensures multiset(InsertBefore(leq, v, s)) == multiset{v} + multiset(s)
  {
    if !(s == [] || leq(v, s[0])) {
      InsertKeepsElements(leq, v, s[1..]);
      assert s == [s[0]] + s[1..];
    }
  }

  lemma {:induction false} SortKeepsElements(leq: (Version, Version) -> bool, s: seq<Version>)
    ensures multiset(SortBy(leq, s)) == multiset(s)
  {
    if s != [] {
      SortKeepsElements(leq, s[1..]);
      InsertKeepsElements(leq, s[0], SortBy(leq, s[1..]));
      assert s == [s[0]] + s[1..];
    }
  }

  ghost predicate TotalPreorder(leq: (Version, Version) -> bool) {
    && (forall a, b :: leq(a, b) || leq(b, a))
    && (forall a, b, c :: leq(a, b) && leq(b, c) ==> leq(a, c))
  }

  ghost predicate Sorted(leq: (Version, Version) -> bool, s: seq<Version>) {
    forall i, j :: 0 <= i < j < |s| ==> leq(s[i], s[j])
  }

  lemma {:induction false} InsertKeepsSorted(leq: (Version, Version) -> bool, v: Version, s: seq<Version>)
    requires TotalPreorder(leq) && Sorted(leq, s)
    ensures Sorted(leq, InsertBefore(leq, v, s))
  {
    if !(s == [] || leq(v, s[0])) {
      InsertKeepsSorted(leq, v, s[1..]);
      InsertKeepsElements(leq, v, s[1..]);
      var rest := InsertBefore(leq, v, s[1..]);
      forall j | 0 <= j < |rest|
        ensures leq(s[0], rest[j])
      {
        assert rest[j] in multiset(rest);
        assert rest[j] == v || rest[j] in s[1..];
      }
    }
  }

  lemma {:induction false} SortSorts(leq: (Version, Version) -> bool, s: seq<Version>)
    requires TotalPreorder(leq)
    ensures Sorted(leq, SortBy(leq, s))
  {
    if s != [] {
      SortSorts(leq, s[1..]);
      InsertKeepsSorted(leq, s[0], SortBy(leq, s[1..]));
    }
  }

  /** The elements that satisfy a predicate, in order. */
  function Only(p: Version -> bool, s: seq<Version>): seq<Version> {
    if s == [] then [] else (if p(s[0]) then [s[0]] else []) + Only(p, s[1..])
  }

  lemma OnlyCons(p: Version -> bool, first: Version, rest: seq<Version>)
    ensures Only(p, [first] + rest) == (if p(first) then [first] else []) + Only(p, rest)
  {
    assert ([first] + rest)[1..] == rest;
  }

  lemma {:induction false} InsertIsStable(leq: (Version, Version) -> bool, p: Version -> bool, v: Version,
                                          s: seq<Version>)
    requires forall a, b :: p(a) && p(b) ==> leq(a, b)
    ensures Only(p, InsertBefore(leq, v, s)) == (if p(v) then [v] else []) + Only(p, s)
  {
    if s == [] || leq(v, s[0]) {
      OnlyCons(p, v, s);
    } else {
      InsertIsStable(leq, p, v, s[1..]);
      OnlyCons(p, s[0], InsertBefore(leq, v, s[1..]));
      assert !(p(v) && p(s[0]));
    }
  }

  /** Elements the order does not tell apart stay in the order in which they came. */
  lemma {:induction false} SortIsStable(leq: (Version, Version) -> bool, p: Version -> bool, s: seq<Version>)
    requires forall a, b :: p(a) && p(b) ==> leq(a, b)
    ensures Only(p, SortBy(leq, s)) == Only(p, s)
  {
    if s != [] {
      SortIsStable(leq, p, s[1..]);
      InsertIsStable(leq, p, s[0], SortBy(leq, s[1..]));
    }
  }

  lemma AtMostSorts()
    ensures TotalPreorder(AtMost) && TotalPreorder((a, b) => AtMost(b, a))
  {
    forall a, b, c
      ensures AtMost(a, b) || AtMost(b, a)
      ensures AtMost(a, b) && AtMost(b, c) ==> AtMost(a, c)
    {
      AtMostIsATotalPreorder(a, b, c);
    }
  }

  /** The first of the newest-first list is at least every element. */
  lemma {:induction false} NewestIsFirst(s: seq<Version>)
    requires s != []
    ensures NewestFirst(s) != []
    ensures forall v :: v in s ==> AtMost(v, NewestFirst(s)[0])
  {
    var newer := (a, b) => AtMost(b, a);
    var rest := SortBy(newer, s[1..]);
    assert NewestFirst(s) == InsertBefore(newer, s[0], rest);
    AtMostIsATotalPreorder(s[0], s[0], s[0]);
    if s[1..] != [] {
      NewestIsFirst(s[1..]);
      assert rest == NewestFirst(s[1..]);
      AtMostIsATotalPreorder(s[0], rest[0], rest[0]);
      forall v | v in s
        ensures AtMost(v, NewestFirst(s)[0])
      {
        if v != s[0] {
          assert v in s[1..];
          AtMostIsATotalPreorder(v, rest[0], s[0]);
        }
      }
    }
  }

  // ----- The store -----

  datatype Store = Store(installed: seq<Version>, current: Option<Version>)

  function VersionsIn(entries: seq<string>): seq<Version> {
    if entries == [] then []
    else if VersionOf(entries[0]).Some? then [VersionOf(entries[0]).value] + VersionsIn(entries[1..])
    else VersionsIn(entries[1..])
  }

  function FromListing(entries: seq<string>, currentTarget: Option<string>): Store {
    Store(OldestFirst(VersionsIn(entries)),
          if currentTarget.Some? then VersionOf(currentTarget.value) else None)
  }

  function Without(s: seq<Version>, keep: Version): seq<Version> {
    if s == [] then []
    else if s[0] == keep then Without(s[1..], keep)
    else [s[0]] + Without(s[1..], keep)
  }

  function Superseded(store: Store, keepCurrent: Version): seq<Version> {
    var others := NewestFirst(Without(store.installed, keepCurrent));
    var skip := if KEEP - 1 <= |others| then KEEP - 1 else |others|;
    others[skip..]
  }

  /** A listing's versions, oldest first and tied ones as they were listed, and the version the link names. */
  lemma ListingMeans(entries: seq<string>, target: Option<string>, tied: Version -> bool)
    requires forall a, b :: tied(a) && tied(b) ==> AtMost(a, b)
    ensures var store := FromListing(entries, target);
            && (store.current.Some? <==> target.Some? && VersionOf(target.value).Some?)
            && (store.current.Some? ==> store.current == VersionOf(target.value))
            && multiset(store.installed) == multiset(VersionsIn(entries)) && Sorted(AtMost, store.installed)
            && Only(tied, store.installed) == Only(tied, VersionsIn(entries))
  {
    AtMostSorts();
    SortKeepsElements(AtMost, VersionsIn(entries));
    SortSorts(AtMost, VersionsIn(entries));
    SortIsStable(AtMost, tied, VersionsIn(entries));
  }

  lemma {:induction false} SortedTail(leq: (Version, Version) -> bool, s: seq<Version>, k: nat)
    requires Sorted(leq, s) && k <= |s|
    ensures Sorted(leq, s[k..])
  {
  }

  /** What is superseded is in order, newest first. */
  lemma SupersededInOrder(store: Store, keep: Version)
    ensures Sorted((a, b) => AtMost(b, a), Superseded(store, keep))
  {
    AtMostSorts();
    var newer := (a, b) => AtMost(b, a);
    var others := NewestFirst(Without(store.installed, keep));
    SortSorts(newer, Without(store.installed, keep));
    SortedTail(newer, others, if 1 <= |others| then 1 else |others|);
  }

  lemma {:induction false} WithoutElements(s: seq<Version>, keep: Version)
    ensures multiset(Without(s, keep)) == multiset(s)[keep := 0]
  {
    if s != [] {
      WithoutElements(s[1..], keep);
      assert s == [s[0]] + s[1..];
    }
  }

  /** Retention: besides the active version at most one is spared, nothing removed is newer
      than it, and everything else that is installed goes. */
  lemma SupersededSparesTheNewest(store: Store, keep: Version) returns (spared: seq<Version>)
    ensures |spared| <= 1
    ensures multiset(store.installed)[keep := 0] == multiset(spared) + multiset(Superseded(store, keep))
    ensures keep !in Superseded(store, keep) && keep !in spared
    ensures forall v :: v in Superseded(store, keep) ==> |spared| == 1 && AtMost(v, spared[0])
  {
    var others := Without(store.installed, keep);
    var sorted := NewestFirst(others);
    WithoutElements(store.installed, keep);
    SortKeepsElements((a, b) => AtMost(b, a), others);
    spared := if sorted == [] then [] else [sorted[0]];
    assert sorted == spared + Superseded(store, keep);
    if others != [] {
      NewestIsFirst(others);
    }
    forall v | v in Superseded(store, keep)
      ensures |spared| == 1 && AtMost(v, spared[0]) && v != keep
    {
      assert v in multiset(sorted) && v in multiset(others);
      assert v in others;
    }
    forall v | v in spared
      ensures v != keep
    {
      assert v in multiset(sorted) && v in multiset(others);
    }
  }

  // ----- Integrity records -----

  function RecordBody(digest: string, imageName: string): string {
    digest + "  " + imageName + "\n"
  }

  predicate IsDigest(s: string) {
    |s| == 64 && AllHex(s)
  }

  /** The index of the first two consecutive spaces, or the length. */
  function DoubleSpace(s: string): (i: nat)
    ensures i <= |s|
    ensures i < |s| ==> i + 1 < |s| && s[i] == ' ' && s[i + 1] == ' '
  {
    if |s| < 2 then |s|
    else if s[0] == ' ' && s[1] == ' ' then 0
    else 1 + DoubleSpace(s[1..])
  }

  function DigestFromRecord(body: string, imageName: string): Option<string> {
    if Lines(body) == [] then None
    else
      var line := Lines(body)[0];
      var at := DoubleSpace(line);
      if at == |line| then None
      else if Trim(line[at + 2..]) != imageName then None
      else if !IsDigest(Trim(line[..at])) then None
      else Some(Lower(Trim(line[..at])))
  }

  lemma {:induction false} DoubleSpaceAfter(digest: string, rest: string)
    requires ' ' !in digest
    ensures DoubleSpace(digest + "  " + rest) == |digest|
  {
    var s := digest + "  " + rest;
    if digest != "" {
      assert s[0] == digest[0] && s[1..] == digest[1..] + "  " + rest;
      DoubleSpaceAfter(digest[1..], rest);
    }
  }

  lemma DigestIsTrimmed(digest: string)
    requires IsDigest(digest)
    ensures ' ' !in digest && '\n' !in digest && Trim(digest) == digest
  {
    forall i | 0 <= i < 64
      ensures !IsSpace(digest[i]) && digest[i] != ' ' && digest[i] != '\n'
    {
      assert IsHexDigit(digest[i]);
    }
    TrimTrims(digest);
  }

  /** What a record's first line is, for any name: the name is cut at its first newline. */
  lemma RecordFirstLine(digest: string, name: string)
    requires IsDigest(digest)
    ensures Lines(RecordBody(digest, name)) != []
    ensures var cut := name[..IndexOf(name, '\n')];
            Lines(RecordBody(digest, name))[0] == StripCr(digest + "  " + cut)
  {
    DigestIsTrimmed(digest);
    var at := IndexOf(name, '\n');
    var line := digest + "  " + name[..at];
    assert '\n' !in line;
    if at == |name| {
      assert RecordBody(digest, name) == line + "\n" + "";
      LinesCons(line, "");
    } else {
      assert name == name[..at] + "\n" + name[at + 1..];
      assert RecordBody(digest, name) == line + "\n" + (name[at + 1..] + "\n");
      LinesCons(line, name[at + 1..] + "\n");
    }
  }

  lemma StripCrAfter(head: string, cut: string)
    requires head != "" && head[|head| - 1] != '\r'
    ensures StripCr(head + cut) == head + StripCr(cut)
  {
    if cut != "" && cut[|cut| - 1] == '\r' {
      assert (head + cut)[..|head + cut| - 1] == head + cut[..|cut| - 1];
    } else if cut == "" {
      assert head + cut == head;
    }
  }

  lemma LineParts(digest: string, named: string)
    requires IsDigest(digest)
    ensures var line := digest + "  " + named;
            DoubleSpace(line) == 64 && line[..64] == digest && line[66..] == named
  {
    DigestIsTrimmed(digest);
    DoubleSpaceAfter(digest, named);
  }

  lemma DigestFromLine(digest: string, name: string, other: string)
    requires IsDigest(digest)
    ensures DigestFromRecord(RecordBody(digest, name), other)
         == if Trim(StripCr(name[..IndexOf(name, '\n')])) == other then Some(Lower(digest)) else None
  {
    var cut := name[..IndexOf(name, '\n')];
    RecordFirstLine(digest, name);
    StripCrAfter(digest + "  ", cut);
    LineParts(digest, StripCr(cut));
    DigestIsTrimmed(digest);
  }

  /** The line is the two texts with the first two consecutive spaces between them. */
  ghost predicate SplitsAt(line: string, left: string, right: string) {
    && line == left + "  " + right
    && forall i :: 0 <= i < |left| ==> !(line[i] == ' ' && line[i + 1] == ' ')
  }

  lemma {:induction false} DoubleSpaceSplits(line: string, left: string, right: string)
    ensures SplitsAt(line, left, right) <==>
            && DoubleSpace(line) < |line| && left == line[..DoubleSpace(line)]
            && right == line[DoubleSpace(line) + 2..]
    decreases |line|
  {
    var at := DoubleSpace(line);
    NoEarlierDoubleSpace(line);
    if SplitsAt(line, left, right) {
      assert line[|left|] == ' ' && line[|left| + 1] == ' ';
      assert |left| == at;
    } else if at < |line| {
      assert line == line[..at] + "  " + line[at + 2..];
    }
  }

  lemma {:induction false} NoEarlierDoubleSpace(line: string)
    ensures forall i :: 0 <= i < DoubleSpace(line) && i + 1 < |line| ==> !(line[i] == ' ' && line[i + 1] == ' ')
  {
    if |line| >= 2 && !(line[0] == ' ' && line[1] == ' ') {
      NoEarlierDoubleSpace(line[1..]);
      forall i | 0 <= i < DoubleSpace(line) && i + 1 < |line|
        ensures !(line[i] == ' ' && line[i + 1] == ' ')
      {
        if i > 0 { assert line[i] == line[1..][i - 1] && line[i + 1] == line[1..][i]; }
      }
    }
  }

  /** The record holds these 64 hexadecimal digits for an image of this name: they stand before the
      first two consecutive spaces of its first line, and the name after them, each with white space
      around it or without. */
  ghost predicate RecordHolds(body: string, name: string, digits: string) {
    exists line, left, right ::
      IsFirstLine(line, body) && SplitsAt(line, left, right)
      && IsTrimOf(name, right) && IsTrimOf(digits, left) && IsDigest(digits)
  }

  /** What is read for an image: the digits the record holds for its very name, in lower case, and
      nothing when it holds none. */
  lemma DigestMeans(body: string, name: string, digest: string)
    ensures DigestFromRecord(body, name) == Some(digest) <==>
            exists digits :: RecordHolds(body, name, digits) && digest == Lower(digits)
  {
    if digits :| RecordHolds(body, name, digits) && digest == Lower(digits) {
      HeldIsRead(body, name, digits);
    }
    if DigestFromRecord(body, name) == Some(digest) {
      ReadIsHeld(body, name, digest);
    }
  }

  lemma HeldIsRead(body: string, name: string, digits: string)
    requires RecordHolds(body, name, digits)
    ensures DigestFromRecord(body, name) == Some(Lower(digits))
  {
    var line, left, right :|
      IsFirstLine(line, body) && SplitsAt(line, left, right)
      && IsTrimOf(name, right) && IsTrimOf(digits, left) && IsDigest(digits);
    FirstLineIsUnique(line, body);
    DoubleSpaceSplits(line, left, right);
    TrimMeans(right, name);
    TrimMeans(left, digits);
  }

  lemma ReadIsHeld(body: string, name: string, digest: string)
    requires DigestFromRecord(body, name) == Some(digest)
    ensures exists digits :: RecordHolds(body, name, digits) && digest == Lower(digits)
  {
    var line, left, right := ReadParts(body, name, digest);
    FirstLine(body);
    DoubleSpaceSplits(line, left, right);
    HeldIn(body, name, line, left, right);
  }

  lemma ReadParts(body: string, name: string, digest: string) returns (line: string, left: string, right: string)
    requires DigestFromRecord(body, name) == Some(digest)
    ensures Lines(body) != [] && line == Lines(body)[0] && DoubleSpace(line) < |line|
    ensures left == line[..DoubleSpace(line)] && right == line[DoubleSpace(line) + 2..]
    ensures Trim(right) == name && IsDigest(Trim(left)) && digest == Lower(Trim(left))
  {
    line := Lines(body)[0];
    left, right := line[..DoubleSpace(line)], line[DoubleSpace(line) + 2..];
  }

  lemma HeldIn(body: string, name: string, line: string, left: string, right: string)
    requires IsFirstLine(line, body) && SplitsAt(line, left, right)
    requires Trim(right) == name && IsDigest(Trim(left))
    ensures RecordHolds(body, name, Trim(left))
  {
    TrimMeans(right, name);
    TrimMeans(left, Trim(left));
  }

  /** A record is for one image: read for any other it gives nothing. */
  lemma OtherNamesGiveNothing(digest: string, name: string, other: string)
    requires IsDigest(digest) && Trimmed(name) && '\n' !in name
    ensures DigestFromRecord(RecordBody(digest, name), other).Some? <==> other == name
  {
    DigestFromLine(digest, name, other);
    assert name[..IndexOf(name, '\n')] == name;
    assert StripCr(name) == name;
    TrimTrims(name);
  }

  /** A record reads back exactly when the name is one line with no white space at its ends. */
  lemma RecordRoundTrip(digest: string, name: string)
    requires IsDigest(digest)
    ensures DigestFromRecord(RecordBody(digest, name), name)
         == if Trimmed(name) && '\n' !in name then Some(Lower(digest)) else None
  {
    var cut := name[..IndexOf(name, '\n')];
    DigestFromLine(digest, name, name);
    TrimTrims(StripCr(cut));
    TrimTrims(name);
    NoNewlineInTrim(StripCr(cut));
    if Trimmed(name) && '\n' !in name {
      assert cut == name;
      assert StripCr(name) == name;
    }
  }

  lemma {:induction false} NoNewlineInTrimEnd(s: string)
    requires '\n' !in s
    ensures '\n' !in TrimEnd(s)
  {
    if s != "" && IsSpace(s[|s| - 1]) {
      NoNewlineInTrimEnd(s[..|s| - 1]);
    }
  }

  lemma {:induction false} NoNewlineInTrim(s: string)
    requires '\n' !in s
    ensures '\n' !in Trim(s)
  {
    if s != "" && IsSpace(s[0]) {
      NoNewlineInTrim(s[1..]);
    } else {
      NoNewlineInTrimEnd(s);
    }
  }
}
