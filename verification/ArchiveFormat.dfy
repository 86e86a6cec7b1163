/** What the archive walker finds in a well-formed archive, and in every prefix of one. */
module ArchiveFormat {
  import opened Wrappers
  import opened Text
  import opened Octets
  import opened Archive

  // ----- No offset leaves 64 bits -----

  lemma {:induction false} PowersGrow(j: nat, k: nat)
    requires j <= k
    ensures PowerOfTen(j) <= PowerOfTen(k)
  {
    if j < k {
      PowersGrow(j, k - 1);
    }
  }

  lemma {:induction false} TrimStartShortens(s: string)
    ensures |TrimStart(s)| <= |s|
  {
    if s != "" && IsSpace(s[0]) {
      TrimStartShortens(s[1..]);
    }
  }

  /** Ten characters hold no size that could overflow an offset. */
  lemma SizesAreSmall(header: Bytes)
    requires ReadHeader(header).Ok?
    ensures ReadHeader(header).value.0 != "" && ReadHeader(header).value.1 < 10_000_000_000
  {
    var text := Utf8(header[SIZE_AT..SIZE_AT + SIZE_WIDTH]).value;
    TrimStartShortens(text);
    ParsedIsSmall(Trim(text));
  }

  lemma ParsedIsSmall(text: string)
    requires |text| <= SIZE_WIDTH && ParseUnsigned(text, U64_MAX).Some?
    ensures ParseUnsigned(text, U64_MAX).value < 10_000_000_000
  {
    var digits := if |text| > 1 && text[0] == '+' then text[1..] else text;
    ValueIsBelowPower(digits);
    PowersGrow(|digits|, 10);
    assert PowerOfTen(5) == 100_000;
    assert PowerOfTen(10) == 10_000_000_000;
  }

  /** A reader that gives names, and sizes of at most ten digits. */
  ghost predicate Modest(read: HeaderReader) {
    forall header: Bytes :: read(header).Ok? ==> read(header).value.0 != "" && read(header).value.1 < 10_000_000_000
  }

  /** Consecutive members: each payload starts one header after the end of the padded payload
      before it. */
  ghost predicate Chained(members: seq<Member>) {
    && (members != [] ==> members[0].offset == |MAGIC| + HEADER_LEN)
    && forall i :: 0 < i < |members| ==>
         members[i].offset == members[i - 1].offset + Padded(members[i - 1].size) + HEADER_LEN
  }

  /** Where the next header would be. */
  function NextHeader(members: seq<Member>): nat {
    if members == [] then |MAGIC|
    else members[|members| - 1].offset + Padded(members[|members| - 1].size)
  }

  ghost predicate Bounded(members: seq<Member>) {
    forall i :: 0 <= i < |members| ==>
      members[i].name != "" && members[i].size < 10_000_000_000
      && members[i].offset + Padded(members[i].size) <= 8 + (i + 1) * 10_000_000_060
  }

  lemma OneMoreMember(members: seq<Member>, name: string, size: nat)
    requires Chained(members) && Bounded(members) && name != "" && size < 10_000_000_000
    ensures Chained(members + [Member(name, size, NextHeader(members) + HEADER_LEN)])
    ensures Bounded(members + [Member(name, size, NextHeader(members) + HEADER_LEN)])
  {
  }

  lemma {:induction false} WalkKeepsChain(read: HeaderReader, file: Bytes, offset: nat, members: seq<Member>)
    requires Modest(read) && Chained(members) && Bounded(members) && offset == NextHeader(members)
    requires |members| <= MAX_MEMBERS && WalkFrom(read, file, offset, members).Ok?
    ensures Chained(WalkFrom(read, file, offset, members).value)
    ensures Bounded(WalkFrom(read, file, offset, members).value)
    ensures |WalkFrom(read, file, offset, members).value| <= MAX_MEMBERS
    ensures NextHeader(WalkFrom(read, file, offset, members).value) >= |file|
    decreases MAX_MEMBERS - |members|
  {
    if offset < |file| {
      var (name, size) := read(file[offset..offset + HEADER_LEN]).value;
      OneMoreMember(members, name, size);
      WalkKeepsChain(read, file, offset + HEADER_LEN + Padded(size),
                     members + [Member(name, size, offset + HEADER_LEN)]);
    }
  }

  lemma ReadHeaderIsModest()
    ensures Modest(ReadHeader)
  {
    forall header: Bytes | ReadHeader(header).Ok?
      ensures ReadHeader(header).value.0 != "" && ReadHeader(header).value.1 < 10_000_000_000
    {
      SizesAreSmall(header);
    }
  }

  /** On any input that is accepted: at most 64 named members, each offset given by the one
      before it, every offset and payload end within 64 bits, and no header left unread. */
  lemma AcceptedDirectory(file: Bytes)
    requires DirectoryOf(file).Ok?
    ensures Chained(DirectoryOf(file).value) && |DirectoryOf(file).value| <= MAX_MEMBERS
    ensures NextHeader(DirectoryOf(file).value) >= |file|
    ensures forall i :: 0 <= i < |DirectoryOf(file).value| ==>
              && DirectoryOf(file).value[i].name != ""
              && DirectoryOf(file).value[i].offset + Padded(DirectoryOf(file).value[i].size) <= U64_MAX
  {
    ReadHeaderIsModest();
    AcceptedWalk(ReadHeader, file);
  }

  lemma AcceptedWalk(read: HeaderReader, file: Bytes)
    requires Modest(read) && WalkAll(read, file).Ok?
    ensures Chained(WalkAll(read, file).value) && Bounded(WalkAll(read, file).value)
    ensures |WalkAll(read, file).value| <= MAX_MEMBERS && NextHeader(WalkAll(read, file).value) >= |file|
    ensures forall i :: 0 <= i < |WalkAll(read, file).value| ==>
              && WalkAll(read, file).value[i].name != ""
              && WalkAll(read, file).value[i].offset + Padded(WalkAll(read, file).value[i].size) <= U64_MAX
  {
    WalkKeepsChain(read, file, |MAGIC|, []);
  }

  // ----- Every answer of the walker -----

  predicate AllSlashes(s: string) {
    forall i :: 0 <= i < |s| ==> s[i] == '/'
  }

  lemma {:induction false} SlashesGone(s: string, slashes: string)
    requires AllSlashes(slashes) && (s == "" || s[|s| - 1] != '/')
    ensures TrimSlashes(s + slashes) == s
  {
    if slashes == "" {
      assert s + slashes == s;
    } else {
      var n := |slashes| - 1;
      assert (s + slashes)[..|s + slashes| - 1] == s + slashes[..n];
      SlashesGone(s, slashes[..n]);
    }
  }

  lemma {:induction false} SlashesSplit(s: string) returns (slashes: string)
    ensures AllSlashes(slashes) && s == TrimSlashes(s) + slashes
    ensures TrimSlashes(s) == "" || TrimSlashes(s)[|TrimSlashes(s)| - 1] != '/'
  {
    slashes := "";
    if s != "" && s[|s| - 1] == '/' {
      var rest := SlashesSplit(s[..|s| - 1]);
      slashes := rest + "/";
    }
  }

  predicate FieldIs(field: string, name: string, slashes: string, trail: string) {
    && AllSlashes(slashes) && AllSpace(trail) && field == name + slashes + trail
    && (name == "" || name[|name| - 1] != '/')
    && (name + slashes == "" || !IsSpace((name + slashes)[|name + slashes| - 1]))
  }

  /** The field is this name, then slashes or none, then white space or none. */
  ghost predicate FieldNames(field: string, name: string) {
    exists slashes, trail :: FieldIs(field, name, slashes, trail)
  }

  lemma FieldMeans(field: string, name: string)
    ensures FieldNames(field, name) <==> name == TrimSlashes(TrimEnd(field))
  {
    if FieldNames(field, name) {
      var slashes, trail :| FieldIs(field, name, slashes, trail);
      TrimEndMeans(field, name + slashes);
      SlashesGone(name, slashes);
    }
    TrimEndMeans(field, TrimEnd(field));
    var trail :| AllSpace(trail) && field == TrimEnd(field) + trail;
    var slashes := SlashesSplit(TrimEnd(field));
    assert FieldIs(field, TrimSlashes(TrimEnd(field)), slashes, trail);
  }

  /** The size field is text that, without the white space around it, is this number of 64 bits. */
  ghost predicate FieldHolds(field: Bytes, size: nat) {
    && Utf8(field).Some? && size <= U64_MAX
    && exists text :: IsTrimOf(text, Utf8(field).value) && IsNumber(text, size)
  }

  lemma SizeMeans(text: string, size: nat)
    ensures ParseUnsigned(Trim(text), U64_MAX) == Some(size) <==>
            size <= U64_MAX && exists number :: IsTrimOf(number, text) && IsNumber(number, size)
  {
    TrimMeans(text, Trim(text));
    ParseUnsignedMeans(Trim(text), U64_MAX, size);
    if size <= U64_MAX && exists number :: IsTrimOf(number, text) && IsNumber(number, size) {
      var number :| IsTrimOf(number, text) && IsNumber(number, size);
      TrimMeans(text, number);
    }
  }

  /** The header names a member and its size. */
  ghost predicate HeaderSays(header: Bytes, name: string, size: nat) {
    |header| == 60 && name != "" && FieldNames(Latin1(header[..16]), name) && FieldHolds(header[48..58], size)
  }

  /** Why a whole header is refused. */
  ghost predicate HeaderFails(header: Bytes, fault: Fault) {
    && |header| == 60
    && match fault
       case NoName => FieldNames(Latin1(header[..16]), "")
       case SizeNotText => Utf8(header[48..58]).None?
       case SizeNotANumber => Utf8(header[48..58]).Some? && forall size: nat :: !FieldHolds(header[48..58], size)
       case Truncated => false
  }

  lemma SizeFieldMeans(field: Bytes, size: nat)
    requires Utf8(field).Some?
    ensures FieldHolds(field, size) <==> ParseUnsigned(Trim(Utf8(field).value), U64_MAX) == Some(size)
  {
    SizeMeans(Utf8(field).value, size);
  }

  lemma HeaderMeans(header: Bytes)
    requires |header| == 60
    ensures match ReadHeader(header)
            case Ok((name, size)) => HeaderSays(header, name, size)
            case Err(fault) => HeaderFails(header, fault)
  {
    var name := TrimSlashes(TrimEnd(Latin1(header[..16])));
    FieldMeans(Latin1(header[..16]), name);
    if Utf8(header[48..58]).Some? {
      forall size: nat
        ensures FieldHolds(header[48..58], size) <==>
                ParseUnsigned(Trim(Utf8(header[48..58]).value), U64_MAX) == Some(size)
      {
        SizeFieldMeans(header[48..58], size);
      }
    }
  }

  /** From `offset`, these members one after the other, each a header of 60 bytes and a payload padded to
      an even length, up to `end`. */
  ghost predicate Stands(file: Bytes, offset: nat, members: seq<Member>, end: nat)
    decreases |members|
  {
    if members == [] then offset == end
    else
      && offset + 60 <= |file| && members[0].offset == offset + 60
      && HeaderSays(file[offset..offset + 60], members[0].name, members[0].size)
      && Stands(file, offset + 60 + members[0].size + members[0].size % 2, members[1..], end)
  }

  lemma OneMoreStands(file: Bytes, offset: nat, m: Member, rest: seq<Member>, end: nat)
    requires offset + 60 <= |file| && m.offset == offset + 60 && HeaderSays(file[offset..offset + 60], m.name, m.size)
    requires Stands(file, offset + 60 + m.size + m.size % 2, rest, end)
    ensures Stands(file, offset, [m] + rest, end)
  {
    assert ([m] + rest)[1..] == rest;
  }

  /** What an answer says of the members that stand before it was reached, of which `before` were there. */
  ghost predicate Reached(file: Bytes, before: seq<Member>, members: seq<Member>, end: nat,
                          r: Result<seq<Member>, Error>) {
    match r
    case Ok(all) => all == before + members && |all| <= 64 && end >= |file|
    case Err(TooManyMembers) => |before + members| == 64 && end + 60 <= |file|
    case Err(MalformedHeader(index, fault)) =>
      && index == |before + members| && end < |file|
      && (if end + 60 > |file| then fault == Truncated else HeaderFails(file[end..end + 60], fault))
    case Err(_) => false
  }

  lemma {:induction false} WalkReaches(file: Bytes, offset: nat, before: seq<Member>)
    returns (members: seq<Member>, end: nat)
    requires |before| <= 64
    ensures Stands(file, offset, members, end)
    ensures Reached(file, before, members, end, WalkFrom(ReadHeader, file, offset, before))
    decreases 64 - |before|
  {
    if offset + 60 <= |file| && |before| < 64 && ReadHeader(file[offset..offset + 60]).Ok? {
      var m := WalkOn(file, offset, before);
      var rest, last := WalkReaches(file, offset + 60 + m.size + m.size % 2, before + [m]);
      members, end := [m] + rest, last;
      OneMoreStands(file, offset, m, rest, end);
      ReachedLater(file, before, m, rest, end, WalkFrom(ReadHeader, file, offset, before));
    } else {
      members, end := [], offset;
      WalkEnds(file, offset, before);
    }
  }

  /** A header that can be read takes the walk to the next. */
  lemma WalkOn(file: Bytes, offset: nat, before: seq<Member>) returns (m: Member)
    requires offset + 60 <= |file| && |before| < 64 && ReadHeader(file[offset..offset + 60]).Ok?
    ensures m.offset == offset + 60 && HeaderSays(file[offset..offset + 60], m.name, m.size)
    ensures WalkFrom(ReadHeader, file, offset, before)
         == WalkFrom(ReadHeader, file, offset + 60 + m.size + m.size % 2, before + [m])
  {
    var header := file[offset..offset + 60];
    m := MemberIn(header, offset + 60);
    WalkBy(ReadHeader, file, offset, before, header, m);
  }

  lemma MemberIn(header: Bytes, at: nat) returns (m: Member)
    requires |header| == 60 && ReadHeader(header).Ok?
    ensures ReadHeader(header) == Ok((m.name, m.size)) && m.offset == at && HeaderSays(header, m.name, m.size)
  {
    var (name, size) := ReadHeader(header).value;
    HeaderMeans(header);
    m := Member(name, size, at);
  }

  lemma WalkBy(read: HeaderReader, file: Bytes, offset: nat, before: seq<Member>, header: Bytes, m: Member)
    requires offset + 60 <= |file| && |before| < 64 && header == file[offset..offset + 60]
    requires read(header) == Ok((m.name, m.size)) && m.offset == offset + 60
    ensures WalkFrom(read, file, offset, before)
         == WalkFrom(read, file, offset + 60 + m.size + m.size % 2, before + [m])
  {
  }

  /** Anything else is where the walk ends. */
  lemma WalkEnds(file: Bytes, offset: nat, before: seq<Member>)
    requires |before| <= 64
    requires offset + 60 <= |file| && |before| < 64 ==> ReadHeader(file[offset..offset + 60]).Err?
    ensures Reached(file, before, [], offset, WalkFrom(ReadHeader, file, offset, before))
  {
    assert before + [] == before;
    if offset + 60 <= |file| { HeaderMeans(file[offset..offset + 60]); }
  }

  lemma ReachedLater(file: Bytes, before: seq<Member>, m: Member, rest: seq<Member>, end: nat,
                     r: Result<seq<Member>, Error>)
    requires Reached(file, before + [m], rest, end, r)
    ensures Reached(file, before, [m] + rest, end, r)
  {
    assert before + ([m] + rest) == before + [m] + rest;
  }

  /** Every answer on any bytes: the directory of exactly the members that stand one after the other from
      the magic to the end, or the first thing wrong. */
  lemma DirectoryAnswers(file: Bytes) returns (members: seq<Member>, end: nat)
    ensures if |file| >= 8 && file[..8] == [0x21, 0x3C, 0x61, 0x72, 0x63, 0x68, 0x3E, 0x0A] then
              Stands(file, 8, members, end) && Reached(file, [], members, end, DirectoryOf(file))
            else DirectoryOf(file) == Err(NotAnArchive)
  {
    members, end := [], 0;
    if |file| >= 8 && file[..8] == MAGIC {
      members, end := WalkReaches(file, 8, []);
    }
  }

  // ----- Writing an archive -----

  /** A member as a writer of archives makes it. `middle` is the owner, mode and time fields and
      `close` the two bytes that end a header: the walker reads neither. */
  datatype Entry = Entry(name: string, gnuSlash: bool, middle: Bytes, close: Bytes, payload: Bytes, pad: u8)

  function NameField(e: Entry): string {
    if e.gnuSlash then e.name + "/" else e.name
  }

  predicate WellFormed(e: Entry) {
    && e.name != "" && |NameField(e)| <= NAME_WIDTH && IsLatin1(e.name)
    && !IsSpace(e.name[|e.name| - 1]) && e.name[|e.name| - 1] != '/'
    && |e.middle| == SIZE_AT - NAME_WIDTH && |e.close| == HEADER_LEN - SIZE_AT - SIZE_WIDTH
    && |Decimal(|e.payload|)| <= SIZE_WIDTH && |e.payload| <= U64_MAX
  }

  function Spaces(n: nat): (s: string)
    ensures |s| == n
  {
    seq(n, i => ' ')
  }

  function PadTo(s: string, width: nat): (r: string)
    requires |s| <= width
    ensures |r| == width
  {
    s + Spaces(width - |s|)
  }

  lemma DecimalIsAscii(n: nat)
    ensures IsAscii(Decimal(n)) && IsLatin1(Decimal(n))
  {
    assert forall i :: 0 <= i < |Decimal(n)| ==> IsDigit(Decimal(n)[i]);
  }

  function Header(e: Entry): (h: Bytes)
    requires WellFormed(e)
    ensures |h| == HEADER_LEN
  {
    DecimalIsAscii(|e.payload|);
    ToLatin1(PadTo(NameField(e), NAME_WIDTH)) + e.middle
    + ToLatin1(PadTo(Decimal(|e.payload|), SIZE_WIDTH)) + e.close
  }

  /** A member as it is laid out in a file. */
  datatype Block = Block(name: string, size: nat, header: Bytes, body: Bytes)

  function BlockOf(e: Entry): Block
    requires WellFormed(e)
  {
    Block(e.name, |e.payload|, Header(e), e.payload + (if |e.payload| % 2 == 1 then [e.pad] else []))
  }

  // ----- Reading one header back -----

  lemma {:induction false} TrimEndSpaces(s: string, n: nat)
    ensures TrimEnd(s + Spaces(n)) == TrimEnd(s)
  {
    var padded := s + Spaces(n);
    if n == 0 {
      assert padded == s;
    } else {
      assert padded[..|padded| - 1] == s + Spaces(n - 1);
      TrimEndSpaces(s, n - 1);
    }
  }

  lemma NameReadsBack(e: Entry)
    requires WellFormed(e)
    ensures TrimSlashes(TrimEnd(PadTo(NameField(e), NAME_WIDTH))) == e.name
  {
    TrimEndSpaces(NameField(e), NAME_WIDTH - |NameField(e)|);
    assert TrimSlashes(e.name) == e.name;
    if e.gnuSlash {
      assert (e.name + "/")[..|e.name|] == e.name;
    }
  }

  lemma TrimPadded(s: string, width: nat)
    requires s != "" && Trimmed(s) && |s| <= width
    ensures Trim(PadTo(s, width)) == s
  {
    var text := PadTo(s, width);
    assert text[0] == s[0];
    assert TrimStart(text) == text;
    TrimEndSpaces(s, width - |s|);
  }

  lemma SizeReadsBack(n: nat)
    requires |Decimal(n)| <= SIZE_WIDTH && n <= U64_MAX
    ensures ParseUnsigned(Trim(PadTo(Decimal(n), SIZE_WIDTH)), U64_MAX) == Some(n)
  {
    ParseOfDecimal(n, U64_MAX);
    TrimPadded(Decimal(n), SIZE_WIDTH);
  }

  lemma HeaderReadsBack(e: Entry)
    requires WellFormed(e)
    ensures ReadHeader(Header(e)) == Ok((e.name, |e.payload|))
  {
    var name := PadTo(NameField(e), NAME_WIDTH);
    var size := PadTo(Decimal(|e.payload|), SIZE_WIDTH);
    DecimalIsAscii(|e.payload|);
    assert IsLatin1(name) && IsAscii(size);
    var h := Header(e);
    assert h[..NAME_WIDTH] == ToLatin1(name);
    assert h[SIZE_AT..SIZE_AT + SIZE_WIDTH] == ToLatin1(size);
    Latin1RoundTrip(name);
    Utf8OfAscii(size);
    NameReadsBack(e);
    SizeReadsBack(|e.payload|);
  }

  // ----- The directory of a prefix -----

  ghost predicate Laid(read: HeaderReader, b: Block) {
    |b.header| == HEADER_LEN && |b.body| == Padded(b.size) && read(b.header) == Ok((b.name, b.size))
  }

  /** An archive of at most 64 members, each of which reads as itself. */
  ghost predicate IsArchive(read: HeaderReader, blocks: seq<Block>) {
    |blocks| <= MAX_MEMBERS && forall i :: 0 <= i < |blocks| ==> Laid(read, blocks[i])
  }

  /** The first `k` members as bytes. */
  function FirstBytes(blocks: seq<Block>, k: nat): Bytes
    requires k <= |blocks|
  {
    if k == 0 then MAGIC else FirstBytes(blocks, k - 1) + blocks[k - 1].header + blocks[k - 1].body
  }

  function ArchiveBytes(blocks: seq<Block>): Bytes {
    FirstBytes(blocks, |blocks|)
  }

  /** Where member `k`'s header starts; for `k` the number of members, where the archive ends. */
  function StartOf(blocks: seq<Block>, k: nat): nat
    requires k <= |blocks|
  {
    if k == 0 then |MAGIC| else StartOf(blocks, k - 1) + HEADER_LEN + Padded(blocks[k - 1].size)
  }

  /** The first `k` members, at their true places. */
  function Located(blocks: seq<Block>, k: nat): (members: seq<Member>)
    requires k <= |blocks|
    ensures |members| == k
  {
    if k == 0 then []
    else Located(blocks, k - 1) + [Member(blocks[k - 1].name, blocks[k - 1].size, StartOf(blocks, k - 1) + HEADER_LEN)]
  }

  lemma {:induction false} FirstBytesLength(read: HeaderReader, blocks: seq<Block>, k: nat)
    requires IsArchive(read, blocks) && k <= |blocks|
    ensures |FirstBytes(blocks, k)| == StartOf(blocks, k) && |MAGIC| <= StartOf(blocks, k)
  {
    if k > 0 {
      FirstBytesLength(read, blocks, k - 1);
      assert Laid(read, blocks[k - 1]);
    }
  }

  lemma {:induction false} FirstBytesArePrefix(blocks: seq<Block>, j: nat, k: nat)
    requires j <= k <= |blocks|
    ensures FirstBytes(blocks, j) <= FirstBytes(blocks, k)
  {
    if j < k {
      FirstBytesArePrefix(blocks, j, k - 1);
    }
  }

  predicate HeaderAt(file: Bytes, at: nat, header: Bytes) {
    at + HEADER_LEN <= |file| && file[at..at + HEADER_LEN] == header
  }

  lemma HeaderEndsFirstBytes(read: HeaderReader, blocks: seq<Block>, k: nat)
    requires IsArchive(read, blocks) && k < |blocks|
    ensures HeaderAt(FirstBytes(blocks, k + 1), StartOf(blocks, k), blocks[k].header)
  {
    FirstBytesLength(read, blocks, k);
    assert Laid(read, blocks[k]);
    MiddleSlice(FirstBytes(blocks, k), blocks[k].header, blocks[k].body);
  }

  lemma HeaderAtLonger(whole: Bytes, upTo: Bytes, n: nat, at: nat, header: Bytes)
    requires upTo <= whole && HeaderAt(upTo, at, header) && at + HEADER_LEN <= n <= |whole|
    ensures HeaderAt(whole[..n], at, header)
  {
    PrefixSlice(whole, upTo, n, at, at + HEADER_LEN);
  }

  lemma FirstBytesOfWhole(blocks: seq<Block>, whole: Bytes, k: nat)
    requires FirstBytes(blocks, |blocks|) == whole && k <= |blocks|
    ensures FirstBytes(blocks, k) <= whole
  {
    FirstBytesArePrefix(blocks, k, |blocks|);
  }

  /** Block `k` with everything before it: what the archive is up to there. */
  lemma UpToBlock(read: HeaderReader, blocks: seq<Block>, whole: Bytes, k: nat) returns (upTo: Bytes)
    requires IsArchive(read, blocks) && FirstBytes(blocks, |blocks|) == whole && k < |blocks|
    ensures upTo <= whole && HeaderAt(upTo, StartOf(blocks, k), blocks[k].header)
  {
    upTo := FirstBytes(blocks, k + 1);
    HeaderEndsFirstBytes(read, blocks, k);
    FirstBytesOfWhole(blocks, whole, k + 1);
  }

  lemma HeaderInPrefix(read: HeaderReader, blocks: seq<Block>, whole: Bytes, n: nat, k: nat, at: nat)
    requires IsArchive(read, blocks) && FirstBytes(blocks, |blocks|) == whole && n <= |whole|
    requires k < |blocks| && at == StartOf(blocks, k) && at + HEADER_LEN <= n
    ensures HeaderAt(whole[..n], at, blocks[k].header)
  {
    var upTo := UpToBlock(read, blocks, whole, k);
    HeaderAtLonger(whole, upTo, n, at, blocks[k].header);
  }

  lemma MiddleSlice(a: Bytes, b: Bytes, c: Bytes)
    ensures (a + b + c)[|a|..|a| + |b|] == b
  {
  }

  lemma PrefixSlice(whole: Bytes, upTo: Bytes, n: nat, i: nat, j: nat)
    requires upTo <= whole && i <= j <= |upTo| && j <= n <= |whole|
    ensures whole[..n][i..j] == upTo[i..j]
  {
  }

  lemma WalkStep(read: HeaderReader, file: Bytes, at: nat, members: seq<Member>, b: Block)
    requires HeaderAt(file, at, b.header) && Laid(read, b) && |members| < MAX_MEMBERS
    ensures WalkFrom(read, file, at, members)
         == WalkFrom(read, file, at + HEADER_LEN + Padded(b.size), members + [Member(b.name, b.size, at + HEADER_LEN)])
  {
  }

  /** A complete header carries the walk past its member, whatever follows. */
  lemma WalkOneMember(read: HeaderReader, blocks: seq<Block>, n: nat, k: nat)
    requires IsArchive(read, blocks) && n <= |ArchiveBytes(blocks)|
    requires k < |blocks| && StartOf(blocks, k) + HEADER_LEN <= n
    ensures WalkFrom(read, ArchiveBytes(blocks)[..n], StartOf(blocks, k), Located(blocks, k))
         == WalkFrom(read, ArchiveBytes(blocks)[..n], StartOf(blocks, k + 1), Located(blocks, k + 1))
  {
    HeaderInPrefix(read, blocks, ArchiveBytes(blocks), n, k, StartOf(blocks, k));
    WalkStep(read, ArchiveBytes(blocks)[..n], StartOf(blocks, k), Located(blocks, k), blocks[k]);
  }

  lemma {:induction false} WalkManyMembers(read: HeaderReader, blocks: seq<Block>, n: nat, k: nat)
    requires IsArchive(read, blocks) && |MAGIC| <= n <= |ArchiveBytes(blocks)|
    requires k <= |blocks| && (k > 0 ==> StartOf(blocks, k - 1) + HEADER_LEN <= n)
    ensures WalkAll(read, ArchiveBytes(blocks)[..n])
         == WalkFrom(read, ArchiveBytes(blocks)[..n], StartOf(blocks, k), Located(blocks, k))
  {
    if k == 0 {
      FirstBytesArePrefix(blocks, 0, |blocks|);
      assert ArchiveBytes(blocks)[..n][..|MAGIC|] == MAGIC;
    } else {
      assert k > 1 ==> StartOf(blocks, k - 2) + HEADER_LEN <= StartOf(blocks, k - 1);
      WalkManyMembers(read, blocks, n, k - 1);
      WalkOneMember(read, blocks, n, k - 1);
    }
  }

  /** Every prefix of an archive, by where it ends: within the magic, within a header, or
      anywhere between one header's end and the next one's start. */
  lemma WalkOfPrefix(read: HeaderReader, blocks: seq<Block>, n: nat, k: nat)
    requires IsArchive(read, blocks) && n <= |ArchiveBytes(blocks)| && k <= |blocks|
    ensures n < |MAGIC| ==> WalkAll(read, ArchiveBytes(blocks)[..n]) == Err(NotAnArchive)
    ensures k < |blocks| && StartOf(blocks, k) < n < StartOf(blocks, k) + HEADER_LEN ==>
              WalkAll(read, ArchiveBytes(blocks)[..n]) == Err(MalformedHeader(k, Truncated))
    ensures |MAGIC| <= n <= StartOf(blocks, k) && (k > 0 ==> StartOf(blocks, k - 1) + HEADER_LEN <= n) ==>
              WalkAll(read, ArchiveBytes(blocks)[..n]) == Ok(Located(blocks, k))
  {
    FirstBytesLength(read, blocks, k);
    if |MAGIC| <= n && (k > 0 ==> StartOf(blocks, k - 1) + HEADER_LEN <= n) {
      WalkManyMembers(read, blocks, n, k);
    }
  }

  /** The three cases cover every prefix. */
  lemma {:induction false} PrefixesAreCovered(blocks: seq<Block>, n: nat, last: nat) returns (k: nat)
    requires last <= |blocks| && |MAGIC| <= n <= StartOf(blocks, last)
    ensures k <= last
    ensures || (k < last && StartOf(blocks, k) < n < StartOf(blocks, k) + HEADER_LEN)
            || (n <= StartOf(blocks, k) && (k > 0 ==> StartOf(blocks, k - 1) + HEADER_LEN <= n))
  {
    if last == 0 {
      k := 0;
    } else if n <= StartOf(blocks, last - 1) {
      k := PrefixesAreCovered(blocks, n, last - 1);
    } else if n < StartOf(blocks, last - 1) + HEADER_LEN {
      k := last - 1;
    } else {
      k := last;
    }
  }

  lemma DirectoryOfBlocks(blocks: seq<Block>, n: nat) returns (k: nat)
    requires IsArchive(ReadHeader, blocks) && n <= |ArchiveBytes(blocks)|
    ensures k <= |blocks|
    ensures DirectoryOf(ArchiveBytes(blocks)[..n])
         == if n < |MAGIC| then Err(NotAnArchive)
            else if k < |blocks| && StartOf(blocks, k) < n then Err(MalformedHeader(k, Truncated))
            else Ok(Located(blocks, k))
    ensures n >= |MAGIC| ==>
              && (k > 0 ==> StartOf(blocks, k - 1) + HEADER_LEN <= n)
              && (k < |blocks| ==> n < StartOf(blocks, k) + HEADER_LEN)
  {
    FirstBytesLength(ReadHeader, blocks, |blocks|);
    if n < |MAGIC| {
      k := 0;
    } else {
      k := PrefixesAreCovered(blocks, n, |blocks|);
    }
    WalkOfPrefix(ReadHeader, blocks, n, k);
  }

  // ----- What a writer made -----

  ghost predicate AllWellFormed(entries: seq<Entry>) {
    forall i :: 0 <= i < |entries| ==> WellFormed(entries[i])
  }

  /** The archive's members as they are laid out. */
  function BlocksOf(entries: seq<Entry>): (blocks: seq<Block>)
    requires AllWellFormed(entries)
    ensures |blocks| == |entries|
  {
    seq(|entries|, i requires 0 <= i < |entries| && WellFormed(entries[i]) => BlockOf(entries[i]))
  }

  lemma WellFormedIsArchive(entries: seq<Entry>)
    requires AllWellFormed(entries) && |entries| <= MAX_MEMBERS
    ensures IsArchive(ReadHeader, BlocksOf(entries))
  {
    forall i | 0 <= i < |entries|
      ensures Laid(ReadHeader, BlocksOf(entries)[i])
    {
      HeaderReadsBack(entries[i]);
    }
  }

  /** What the walker makes of the first `n` bytes of any archive of at most 64 well-formed members:
      a refusal when the magic is cut, a refusal naming the member whose header is cut, and otherwise
      exactly the members whose headers are complete, with their names and sizes, at their true
      places. */
  lemma DirectoryOfPrefix(entries: seq<Entry>, n: nat) returns (k: nat)
    requires AllWellFormed(entries) && |entries| <= MAX_MEMBERS
    requires n <= |ArchiveBytes(BlocksOf(entries))|
    ensures k <= |entries|
    ensures DirectoryOf(ArchiveBytes(BlocksOf(entries))[..n])
         == if n < |MAGIC| then Err(NotAnArchive)
            else if k < |entries| && StartOf(BlocksOf(entries), k) < n then Err(MalformedHeader(k, Truncated))
            else Ok(Located(BlocksOf(entries), k))
    ensures n >= |MAGIC| ==>
              && (k > 0 ==> StartOf(BlocksOf(entries), k - 1) + HEADER_LEN <= n)
              && (k < |entries| ==> n < StartOf(BlocksOf(entries), k) + HEADER_LEN)
  {
    WellFormedIsArchive(entries);
    k := DirectoryOfBlocks(BlocksOf(entries), n);
  }

  lemma {:induction false} LocatedAt(blocks: seq<Block>, k: nat, i: nat)
    requires i < k <= |blocks|
    ensures Located(blocks, k)[i] == Member(blocks[i].name, blocks[i].size, StartOf(blocks, i) + HEADER_LEN)
    decreases k
  {
    if i < k - 1 { LocatedAt(blocks, k - 1, i); }
  }

  predicate Holds(file: Bytes, at: nat, part: Bytes) {
    at + |part| <= |file| && file[at..at + |part|] == part
  }

  lemma HoldsLonger(file: Bytes, longer: Bytes, at: nat, part: Bytes)
    requires file <= longer && Holds(file, at, part)
    ensures Holds(longer, at, part)
  {
  }

  lemma HoldsLast(a: Bytes, b: Bytes, c: Bytes)
    ensures Holds(a + b + c, |a| + |b|, c)
  {
  }

  lemma BodyEnds(read: HeaderReader, blocks: seq<Block>, i: nat, upTo: Bytes, at: nat, body: Bytes)
    requires IsArchive(read, blocks) && i < |blocks| && upTo == FirstBytes(blocks, i + 1)
    requires at == StartOf(blocks, i) + HEADER_LEN && body == blocks[i].body
    ensures Holds(upTo, at, body)
  {
    FirstBytesLength(read, blocks, i);
    assert Laid(read, blocks[i]);
    HoldsLast(FirstBytes(blocks, i), blocks[i].header, body);
  }

  /** The body of each member stands right after its header. */
  lemma BodyInPlace(read: HeaderReader, blocks: seq<Block>, i: nat, whole: Bytes, at: nat, body: Bytes)
    requires IsArchive(read, blocks) && i < |blocks| && whole == FirstBytes(blocks, |blocks|)
    requires at == StartOf(blocks, i) + HEADER_LEN && body == blocks[i].body
    ensures Holds(whole, at, body)
  {
    var upTo := FirstBytes(blocks, i + 1);
    BodyEnds(read, blocks, i, upTo, at, body);
    FirstBytesOfWhole(blocks, whole, i + 1);
    HoldsLonger(upTo, whole, at, body);
  }

  lemma {:induction false} StartsGrow(blocks: seq<Block>, j: nat, k: nat)
    requires j <= k <= |blocks|
    ensures StartOf(blocks, j) + HEADER_LEN * (k - j) <= StartOf(blocks, k)
  {
    if j < k { StartsGrow(blocks, j, k - 1); }
  }

  lemma WholeDirectory(entries: seq<Entry>, file: Bytes)
    requires AllWellFormed(entries) && |entries| <= MAX_MEMBERS && file == ArchiveBytes(BlocksOf(entries))
    ensures DirectoryOf(file) == Ok(Located(BlocksOf(entries), |entries|))
  {
    WellFormedIsArchive(entries);
    FirstBytesLength(ReadHeader, BlocksOf(entries), |entries|);
    var k := DirectoryOfPrefix(entries, |file|);
    StartsGrow(BlocksOf(entries), k, |entries|);
    assert file[..|file|] == file;
  }

  lemma HoldsFirst(file: Bytes, at: nat, a: Bytes, b: Bytes)
    requires Holds(file, at, a + b)
    ensures Holds(file, at, a)
  {
    assert file[at..at + |a|] == (a + b)[..|a|];
  }

  /** The directory's entry for a member, and the payload where it says. */
  predicate ReadsAs(file: Bytes, m: Member, e: Entry) {
    m.name == e.name && m.size == |e.payload| && Holds(file, m.offset, e.payload)
  }

  lemma MemberReadsBack(blocks: seq<Block>, file: Bytes, i: nat, payload: Bytes, pad: Bytes, at: nat)
    requires IsArchive(ReadHeader, blocks) && i < |blocks| && file == FirstBytes(blocks, |blocks|)
    requires blocks[i].body == payload + pad && at == StartOf(blocks, i) + HEADER_LEN
    ensures Located(blocks, |blocks|)[i] == Member(blocks[i].name, blocks[i].size, at) && Holds(file, at, payload)
  {
    LocatedAt(blocks, |blocks|, i);
    BodyInPlace(ReadHeader, blocks, i, file, at, payload + pad);
    HoldsFirst(file, at, payload, pad);
  }

  /** Reading a whole archive back: each name and size, and at each place the payload itself. */
  lemma ArchiveReadsBack(entries: seq<Entry>, file: Bytes)
    requires AllWellFormed(entries) && |entries| <= MAX_MEMBERS && file == ArchiveBytes(BlocksOf(entries))
    ensures DirectoryOf(file).Ok? && |DirectoryOf(file).value| == |entries|
    ensures forall i :: 0 <= i < |entries| ==> ReadsAs(file, DirectoryOf(file).value[i], entries[i])
  {
    var blocks := BlocksOf(entries);
    WholeDirectory(entries, file);
    WellFormedIsArchive(entries);
    forall i | 0 <= i < |entries|
      ensures ReadsAs(file, Located(blocks, |blocks|)[i], entries[i])
    {
      var e := entries[i];
      var pad := if |e.payload| % 2 == 1 then [e.pad] else [];
      MemberReadsBack(blocks, file, i, e.payload, pad, StartOf(blocks, i) + HEADER_LEN);
    }
  }
}
