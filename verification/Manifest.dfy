/** The signed manifest: crates/plexos-plex/src/manifest.rs. */
module Manifests {
  import opened Wrappers
  import opened Text

  datatype Entry = Entry(md5: string, sha1: string, size: nat, name: string)

  datatype Manifest = Manifest(signer: string, role: string, entries: seq<Entry>)

  datatype Error =
    | NoFileList
    | MalformedEntry(line: string)
    | MalformedSize(field: string)
    | MalformedHash(field: string)
    | NoEntries

  predicate IsHex(field: string, width: nat) {
    |field| == width && AllHex(field)
  }

  function ReadEntry(line: string): Result<Entry, Error> {
    var fields := Words(line);
    if |fields| != 4 then Err(MalformedEntry(Trim(line)))
    else if !IsHex(fields[0], 32) then Err(MalformedHash(fields[0]))
    else if !IsHex(fields[1], 40) then Err(MalformedHash(fields[1]))
    else if ParseUnsigned(fields[2], U64_MAX).None? then Err(MalformedSize(fields[2]))
    else Ok(Entry(fields[0], fields[1], ParseUnsigned(fields[2], U64_MAX).value, fields[3]))
  }

  predicate EndsBlock(line: string) {
    Trim(line) == "" || !(StartsWith(line, " ") || StartsWith(line, "\t"))
  }

  /** The `Files:` block, up to the end or the first line that ends it. */
  function ReadBlock(lines: seq<string>): Result<seq<Entry>, Error> {
    if lines == [] || EndsBlock(lines[0]) then Ok([])
    else
      var first :- ReadEntry(lines[0]);
      var rest :- ReadBlock(lines[1..]);
      Ok([first] + rest)
  }

  /** The lines before the block. A later `Signer:` or `Role:` replaces an earlier one. */
  function ReadHead(lines: seq<string>, signer: string, role: string): Result<Manifest, Error> {
    if lines == [] then Err(NoFileList)
    else
      var line, rest := lines[0], lines[1..];
      if StartsWith(line, "Signer:") then ReadHead(rest, Trim(line[7..]), role)
      else if StartsWith(line, "Role:") then ReadHead(rest, signer, Trim(line[5..]))
      else if TrimEnd(line) == "Files:" then
        var entries :- ReadBlock(rest);
        if entries == [] then Err(NoEntries) else Ok(Manifest(signer, role, entries))
      else ReadHead(rest, signer, role)
  }

  function ParseOf(body: string): Result<Manifest, Error> {
    ReadHead(Lines(body), "", "")
  }

  /** What is still to come, from the loop's state. */
  function Remaining(lines: seq<string>, signer: string, role: string, inFiles: bool,
                     entries: seq<Entry>)
    : Result<Manifest, Error>
  {
    if !inFiles then ReadHead(lines, signer, role)
    else
      var rest :- ReadBlock(lines);
      if entries + rest == [] then Err(NoEntries) else Ok(Manifest(signer, role, entries + rest))
  }

  method Parse(body: string) returns (r: Result<Manifest, Error>)
    ensures r == ParseOf(body)
  {
    var signer, role := "", "";
    var entries: seq<Entry> := [];
    var inFiles := false;
    var lines := Lines(body);
    var i := 0;
    while i < |lines|
      invariant i <= |lines| && (!inFiles ==> entries == [])
      invariant Remaining(lines[i..], signer, role, inFiles, entries) == ParseOf(body)
    {
      var line := lines[i];
      assert lines[i..][0] == line && lines[i..][1..] == lines[i + 1..];
      i := i + 1;
      if !inFiles {
        if StartsWith(line, "Signer:") {
          signer := Trim(line[7..]);
        } else if StartsWith(line, "Role:") {
          role := Trim(line[5..]);
        } else if TrimEnd(line) == "Files:" {
          inFiles := true;
          assert forall rest: seq<Entry> :: entries + rest == rest;
        }
        continue;
      }
      if Trim(line) == "" {
        break;
      }
      if !(StartsWith(line, " ") || StartsWith(line, "\t")) {
        break;
      }
      var fields := Words(line);
      if |fields| != 4 {
        return Err(MalformedEntry(Trim(line)));
      }
      if !IsHex(fields[0], 32) {
        return Err(MalformedHash(fields[0]));
      }
      if !IsHex(fields[1], 40) {
        return Err(MalformedHash(fields[1]));
      }
      var size := ParseUnsigned(fields[2], U64_MAX);
      if size.None? {
        return Err(MalformedSize(fields[2]));
      }
      ghost var before := entries;
      entries := entries + [Entry(fields[0], fields[1], size.value, fields[3])];
      assert forall rest: seq<Entry> ::
          before + ([Entry(fields[0], fields[1], size.value, fields[3])] + rest) == entries + rest;
    }
    assert entries + [] == entries;
    if !inFiles {
      return Err(NoFileList);
    }
    if entries == [] {
      return Err(NoEntries);
    }
    return Ok(Manifest(signer, role, entries));
  }

  // ----- When a manifest is read -----

  /** The line is four words, two digests of their widths, a size and a name, and these are the entry. */
  ghost predicate EntryOn(line: string, e: Entry) {
    exists size ::
      && Words(line) == [e.md5, e.sha1, size, e.name]
      && |e.md5| == 32 && AllHex(e.md5) && |e.sha1| == 40 && AllHex(e.sha1)
      && IsNumber(size, e.size) && e.size <= U64_MAX
  }

  lemma EntryMeans(line: string, e: Entry)
    ensures ReadEntry(line) == Ok(e) <==> EntryOn(line, e)
  {
    var fields := Words(line);
    if |fields| == 4 {
      assert fields == [fields[0], fields[1], fields[2], fields[3]];
      ParseUnsignedMeans(fields[2], U64_MAX, e.size);
    }
  }

  /** Why a line of the block is refused. */
  ghost predicate RefusedFor(line: string, error: Error) {
    match error
    case MalformedEntry(text) => IsTrimOf(text, line) && |Words(line)| != 4
    case MalformedHash(field) =>
      && |Words(line)| == 4
      && (|| (field == Words(line)[0] && (|field| != 32 || !AllHex(field)))
          || (field == Words(line)[1] && (|field| != 40 || !AllHex(field))))
    case MalformedSize(field) =>
      |Words(line)| == 4 && field == Words(line)[2] && forall n: nat :: n <= U64_MAX ==> !IsNumber(field, n)
    case _ => false
  }

  lemma EntryRefused(line: string)
    requires ReadEntry(line).Err?
    ensures RefusedFor(line, ReadEntry(line).error)
  {
    TrimMeans(line, Trim(line));
    if |Words(line)| == 4 {
      forall n: nat | n <= U64_MAX
        ensures IsNumber(Words(line)[2], n) <==> ParseUnsigned(Words(line)[2], U64_MAX) == Some(n)
      {
        ParseUnsignedMeans(Words(line)[2], U64_MAX, n);
      }
    }
  }

  /** A line that is blank, or does not start with a blank or a tab, ends the block. */
  lemma EndsBlockMeans(line: string)
    ensures EndsBlock(line) <==> AllSpace(line) || (line[0] != ' ' && line[0] != '\t')
  {
    TrimMeans(line, "");
    if Trim(line) == "" {
      var lead, trail :| AllSpace(lead) && AllSpace(trail) && line == lead + ("" + trail);
    }
    if AllSpace(line) {
      assert line == line + ("" + "");
    } else {
      assert line[..1] == [line[0]];
    }
  }

  /** The block is these entries, a line each, up to its end. */
  ghost predicate BlockOn(lines: seq<string>, entries: seq<Entry>) {
    && |entries| <= |lines|
    && (forall i :: 0 <= i < |entries| ==> !EndsBlock(lines[i]) && EntryOn(lines[i], entries[i]))
    && (|entries| == |lines| || EndsBlock(lines[|entries|]))
  }

  lemma BlockOnCons(line: string, rest: seq<string>, e: Entry, entries: seq<Entry>)
    ensures BlockOn([line] + rest, [e] + entries) <==>
            !EndsBlock(line) && EntryOn(line, e) && BlockOn(rest, entries)
  {
    var lines, all := [line] + rest, [e] + entries;
    assert lines[0] == line && all[0] == e;
    assert forall i :: 0 <= i < |rest| ==> lines[i + 1] == rest[i];
    assert forall i :: 0 <= i < |entries| ==> all[i + 1] == entries[i];
    if BlockOn(rest, entries) && !EndsBlock(line) && EntryOn(line, e) {
      forall i | 0 <= i < |all|
        ensures !EndsBlock(lines[i]) && EntryOn(lines[i], all[i])
      {
        if i > 0 { assert lines[i] == rest[i - 1] && all[i] == entries[i - 1]; }
      }
    }
    if BlockOn(lines, all) {
      forall i | 0 <= i < |entries|
        ensures !EndsBlock(rest[i]) && EntryOn(rest[i], entries[i])
      {
        assert lines[i + 1] == rest[i] && all[i + 1] == entries[i];
      }
    }
  }

  lemma {:induction false} BlockMeans(lines: seq<string>, entries: seq<Entry>)
    ensures ReadBlock(lines) == Ok(entries) <==> BlockOn(lines, entries)
  {
    if lines != [] && !EndsBlock(lines[0]) && entries != [] {
      BlockMeans(lines[1..], entries[1..]);
      EntryMeans(lines[0], entries[0]);
      BlockOnCons(lines[0], lines[1..], entries[0], entries[1..]);
      assert [entries[0]] + entries[1..] == entries && [lines[0]] + lines[1..] == lines;
    }
  }

  /** The block ends at a line that is refused. */
  ghost predicate BlockRefused(lines: seq<string>, error: Error) {
    exists i :: 0 <= i < |lines| && RefusedFor(lines[i], error) && forall j :: 0 <= j <= i ==> !EndsBlock(lines[j])
  }

  lemma {:induction false} BlockIsRefused(lines: seq<string>)
    requires ReadBlock(lines).Err?
    ensures BlockRefused(lines, ReadBlock(lines).error)
  {
    if ReadEntry(lines[0]).Err? {
      EntryRefused(lines[0]);
    } else {
      BlockIsRefused(lines[1..]);
      var error := ReadBlock(lines).error;
      var i :| 0 <= i < |lines[1..]| && RefusedFor(lines[1..][i], error)
               && forall j :: 0 <= j <= i ==> !EndsBlock(lines[1..][j]);
      assert lines[i + 1] == lines[1..][i];
      assert forall j :: 0 < j <= i + 1 ==> lines[j] == lines[1..][j - 1];
    }
  }

  // The head of a manifest, and where its block starts.

  predicate StartsBlock(line: string) {
    TrimEnd(line) == "Files:"
  }

  /** `Files:` alone, but for white space after it. */
  lemma StartsBlockMeans(line: string)
    ensures StartsBlock(line) <==> exists trail :: AllSpace(trail) && line == "Files:" + trail
  {
    TrimEndMeans(line, "Files:");
  }

  /** The line of the first `Files:`, or the number of lines. */
  function BlockAt(lines: seq<string>): (k: nat)
    ensures k <= |lines| && (k < |lines| ==> StartsBlock(lines[k]))
    ensures forall j :: 0 <= j < k ==> !StartsBlock(lines[j])
  {
    if lines == [] || StartsBlock(lines[0]) then 0 else 1 + BlockAt(lines[1..])
  }

  lemma BlockLineIsNoHead(line: string)
    requires StartsBlock(line)
    ensures !StartsWith(line, "Signer:") && !StartsWith(line, "Role:")
  {
    TrimEndKeepsStart(line);
    assert line[0] == 'F';
  }

  /** The last value of a key in the head, or what stood for it before. */
  function HeadValue(head: seq<string>, key: string, before: string): string {
    match LastWith(head, key)
    case Some(text) => Trim(text)
    case None => before
  }

  /** The signer, or the role, after one more line of the head. */
  function Updated(line: string, key: string, value: string): string {
    if StartsWith(line, key) then Trim(line[|key|..]) else value
  }

  lemma HeadValueCons(line: string, head: seq<string>, key: string, before: string)
    ensures HeadValue([line] + head, key, before)
         == HeadValue(head, key, Updated(line, key, before))
  {
    LastWithCons(line, head, key);
  }

  lemma {:induction false} LastWithCons(line: string, head: seq<string>, key: string)
    ensures LastWith([line] + head, key)
         == if LastWith(head, key).Some? then LastWith(head, key)
            else if StartsWith(line, key) then Some(line[|key|..]) else None
    decreases |head|
  {
    if head == [] {
      assert [line] + head == [line] && [line][..0] == [];
    } else {
      var n := |head| - 1;
      assert ([line] + head)[..n + 1] == [line] + head[..n];
      LastWithCons(line, head[..n], key);
    }
  }

  /** What the lines from a first `Files:` on, and the head before it, are read as. */
  function FromBlock(lines: seq<string>, k: nat, signer: string, role: string): Result<Manifest, Error>
    requires k < |lines|
  {
    var entries :- ReadBlock(lines[k + 1..]);
    if entries == [] then Err(NoEntries)
    else Ok(Manifest(HeadValue(lines[..k], "Signer:", signer), HeadValue(lines[..k], "Role:", role), entries))
  }

  lemma HeadStep(line: string, rest: seq<string>, signer: string, role: string)
    requires !StartsBlock(line)
    ensures ReadHead([line] + rest, signer, role)
         == ReadHead(rest, Updated(line, "Signer:", signer), Updated(line, "Role:", role))
    ensures BlockAt([line] + rest) == 1 + BlockAt(rest)
  {
    HeadsExclude(line);
    assert ([line] + rest)[1..] == rest;
  }

  lemma HeadEnds(line: string, rest: seq<string>, signer: string, role: string)
    requires StartsBlock(line)
    ensures ReadHead([line] + rest, signer, role) == FromBlock([line] + rest, 0, signer, role)
    ensures BlockAt([line] + rest) == 0
  {
    BlockLineIsNoHead(line);
    assert ([line] + rest)[1..] == rest && ([line] + rest)[..0] == [];
  }

  lemma {:induction false} HeadMeans(lines: seq<string>, signer: string, role: string)
    ensures var k := BlockAt(lines);
            ReadHead(lines, signer, role)
            == if k == |lines| then Err(NoFileList) else FromBlock(lines, k, signer, role)
    decreases |lines|
  {
    if lines != [] {
      var line, rest := lines[0], lines[1..];
      assert lines == [line] + rest;
      if StartsBlock(line) {
        HeadEnds(line, rest, signer, role);
      } else {
        HeadStep(line, rest, signer, role);
        HeadMeans(rest, Updated(line, "Signer:", signer), Updated(line, "Role:", role));
        if BlockAt(rest) < |rest| { ShiftedBlock(line, rest, BlockAt(rest), signer, role); }
      }
    }
  }

  lemma HeadsExclude(line: string)
    ensures !(StartsWith(line, "Signer:") && StartsWith(line, "Role:"))
  {
    if line != "" {
      var c := line[0];
      assert StartsWith(line, "Signer:") ==> c == 'S';
      assert StartsWith(line, "Role:") ==> c == 'R';
    }
  }

  lemma ShiftedBlock(line: string, rest: seq<string>, k: nat, signer: string, role: string)
    requires k < |rest|
    ensures FromBlock([line] + rest, k + 1, signer, role)
         == FromBlock(rest, k, Updated(line, "Signer:", signer), Updated(line, "Role:", role))
  {
    assert ([line] + rest)[k + 2..] == rest[k + 1..] && ([line] + rest)[..k + 1] == [line] + rest[..k];
    HeadValueCons(line, rest[..k], "Signer:", signer);
    HeadValueCons(line, rest[..k], "Role:", role);
  }

  /** The value of a key: what its last line in the head says, without white space around it, or nothing. */
  ghost predicate HeadSays(head: seq<string>, key: string, value: string) {
    if NoValue(head, key) then value == "" else exists text :: LastValue(head, key, text) && IsTrimOf(value, text)
  }

  lemma HeadSaysMeans(head: seq<string>, key: string, value: string)
    ensures HeadSays(head, key, value) <==> value == HeadValue(head, key, "")
  {
    LastWithMeans(head, key);
    if LastWith(head, key).Some? { TrimMeans(LastWith(head, key).value, value); }
  }

  /** The first `Files:` is line `k`. */
  ghost predicate FirstFiles(lines: seq<string>, k: nat) {
    k < |lines| && StartsBlock(lines[k]) && forall j :: 0 <= j < k ==> !StartsBlock(lines[j])
  }

  /** The lines hold this manifest: the block after the first `Files:` is its entries, and its signer and
      role are what the last lines on them before it say. */
  ghost predicate HoldsManifest(lines: seq<string>, m: Manifest) {
    exists k: nat :: FirstFiles(lines, k) && HoldsFrom(lines, m, k)
  }

  ghost predicate HoldsFrom(lines: seq<string>, m: Manifest, k: nat)
    requires k < |lines|
  {
    && m.entries != [] && BlockOn(lines[k + 1..], m.entries)
    && HeadSays(lines[..k], "Signer:", m.signer) && HeadSays(lines[..k], "Role:", m.role)
  }

  /** When a text is read, and as which manifest. */
  lemma ManifestMeans(body: string, m: Manifest)
    ensures ParseOf(body) == Ok(m) <==> HoldsManifest(Lines(body), m)
  {
    var lines := Lines(body);
    var k := BlockAt(lines);
    HeadMeans(lines, "", "");
    OnlyFirstFiles(lines);
    if k < |lines| { HoldsFromMeans(lines, k, m); }
  }

  lemma OnlyFirstFiles(lines: seq<string>)
    ensures forall j: nat :: FirstFiles(lines, j) <==> j == BlockAt(lines) < |lines|
  {
  }

  lemma HoldsFromMeans(lines: seq<string>, k: nat, m: Manifest)
    requires k < |lines|
    ensures FromBlock(lines, k, "", "") == Ok(m) <==> HoldsFrom(lines, m, k)
  {
    BlockMeans(lines[k + 1..], m.entries);
    HeadSaysMeans(lines[..k], "Signer:", m.signer);
    HeadSaysMeans(lines[..k], "Role:", m.role);
  }

  /** The block after the first `Files:` is empty, or has a line that is refused. */
  ghost predicate BlockFails(lines: seq<string>, error: Error) {
    exists k: nat :: FirstFiles(lines, k) && BlockFailsAt(lines, k, error)
  }

  ghost predicate BlockFailsAt(lines: seq<string>, k: nat, error: Error)
    requires k < |lines|
  {
    Fails(lines[k + 1..], error)
  }

  ghost predicate Fails(block: seq<string>, error: Error) {
    if error == NoEntries then BlockOn(block, []) else BlockRefused(block, error)
  }

  lemma BlockFailure(block: seq<string>, error: Error)
    requires ReadBlock(block) == Err(error) || (ReadBlock(block) == Ok([]) && error == NoEntries)
    ensures Fails(block, error) && error != NoFileList
  {
    if ReadBlock(block).Err? {
      BlockIsRefused(block);
    } else {
      BlockMeans(block, []);
    }
  }

  /** Why a text is not read. */
  lemma ManifestRefused(body: string)
    requires ParseOf(body).Err?
    ensures if ParseOf(body).error == NoFileList then
              forall j :: 0 <= j < |Lines(body)| ==> !StartsBlock(Lines(body)[j])
            else BlockFails(Lines(body), ParseOf(body).error)
  {
    var lines := Lines(body);
    var k := BlockAt(lines);
    HeadMeans(lines, "", "");
    if k < |lines| {
      FromBlockFails(lines, k, ParseOf(body).error);
      BlockFailure(lines[k + 1..], ParseOf(body).error);
      BlockIsBad(lines, k, ParseOf(body).error);
    }
  }

  lemma FromBlockFails(lines: seq<string>, k: nat, error: Error)
    requires k < |lines| && FromBlock(lines, k, "", "") == Err(error)
    ensures || ReadBlock(lines[k + 1..]) == Err(error)
            || (ReadBlock(lines[k + 1..]) == Ok([]) && error == NoEntries)
  {
  }

  lemma BlockIsBad(lines: seq<string>, k: nat, error: Error)
    requires k == BlockAt(lines) < |lines| && Fails(lines[k + 1..], error)
    ensures BlockFails(lines, error)
  {
    assert FirstFiles(lines, k) && BlockFailsAt(lines, k, error);
  }

  // ----- The printed form -----

  predicate Line(s: string) {
    Trimmed(s) && '\n' !in s
  }

  predicate WellFormedEntry(e: Entry) {
    IsHex(e.md5, 32) && IsHex(e.sha1, 40) && e.size <= U64_MAX && IsWord(e.name)
  }

  predicate WellFormed(m: Manifest) {
    && Line(m.signer) && Line(m.role) && m.entries != []
    && forall i :: 0 <= i < |m.entries| ==> WellFormedEntry(m.entries[i])
  }

  /** A header line the parser passes over. */
  predicate Ignored(line: string) {
    && '\n' !in line && StripCr(line) == line
    && !StartsWith(line, "Signer:") && !StartsWith(line, "Role:") && TrimEnd(line) != "Files:"
  }

  function PrintEntry(e: Entry): string {
    "\t" + e.md5 + " " + e.sha1 + " " + Decimal(e.size) + " " + e.name
  }

  /** The block, then either the end of the text or a line that is blank or not indented. */
  function PrintBlock(entries: seq<Entry>, after: string): string {
    if entries == [] then after else PrintEntry(entries[0]) + "\n" + PrintBlock(entries[1..], after)
  }

  function PrintLines(lines: seq<string>, rest: string): string {
    if lines == [] then rest else lines[0] + "\n" + PrintLines(lines[1..], rest)
  }

  function Print(before: seq<string>, m: Manifest, after: string): string {
    PrintLines(before,
               "Signer: " + m.signer + "\n"
                 + ("Role: " + m.role + "\n" + ("Files:" + "\n" + PrintBlock(m.entries, after))))
  }

  predicate EndsText(after: string) {
    Lines(after) == [] || EndsBlock(Lines(after)[0])
  }

  lemma OneLine(line: string, rest: string)
    requires '\n' !in line && StripCr(line) == line
    ensures Lines(line + "\n" + rest) == [line] + Lines(rest)
  {
    LinesCons(line, rest);
  }

  lemma {:induction false} HexIsWord(s: string)
    requires AllHex(s) && s != ""
    ensures IsWord(s)
  {
    forall i | 0 <= i < |s|
      ensures !IsSpace(s[i])
    {
      assert IsHexDigit(s[i]);
    }
  }

  lemma NestedWords(a: string, b: string, c: string, d: string)
    requires IsWord(a) && IsWord(b) && IsWord(c) && IsWord(d)
    ensures Words(a + [' '] + (b + [' '] + (c + [' '] + d))) == [a] + ([b] + ([c] + [d]))
  {
    WordsLast(d);
    WordsCons(c, ' ', d);
    WordsCons(b, ' ', c + [' '] + d);
    WordsCons(a, ' ', b + [' '] + (c + [' '] + d));
  }

  lemma LeadingTab(s: string)
    ensures Words(['\t'] + s) == Words(s)
  {
    assert (['\t'] + s)[1..] == s;
  }

  lemma EntryShape(a: string, b: string, c: string, d: string)
    ensures "\t" + a + " " + b + " " + c + " " + d == ['\t'] + (a + [' '] + (b + [' '] + (c + [' '] + d)))
  {
  }

  lemma FourWords(a: string, b: string, c: string, d: string)
    requires IsWord(a) && IsWord(b) && IsWord(c) && IsWord(d)
    ensures Words("\t" + a + " " + b + " " + c + " " + d) == [a, b, c, d]
  {
    EntryShape(a, b, c, d);
    LeadingTab(a + [' '] + (b + [' '] + (c + [' '] + d)));
    NestedWords(a, b, c, d);
  }

  lemma EntryIsALine(e: Entry)
    requires WellFormedEntry(e)
    ensures var line := PrintEntry(e);
            '\n' !in line && StripCr(line) == line && !EndsBlock(line) && ReadEntry(line) == Ok(e)
  {
    var line := PrintEntry(e);
    HexIsWord(e.md5);
    HexIsWord(e.sha1);
    ParseOfDecimal(e.size, U64_MAX);
    FourWords(e.md5, e.sha1, Decimal(e.size), e.name);
    NoNewlineInWord(e.md5);
    NoNewlineInWord(e.sha1);
    NoNewlineInWord(Decimal(e.size));
    NoNewlineInWord(e.name);
    var last := e.name[|e.name| - 1];
    assert !IsSpace(last) && line[|line| - 1] == last;
    TrimOfWords(line, last);
  }

  lemma NoNewlineInWord(s: string)
    requires IsWord(s)
    ensures '\n' !in s
  {
    assert IsSpace('\n');
  }

  lemma {:induction false} TrimOfWords(s: string, last: char)
    requires s != "" && s[|s| - 1] == last && !IsSpace(last)
    ensures Trim(s) != ""
    decreases |s|
  {
    if IsSpace(s[0]) {
      TrimOfWords(s[1..], last);
    } else {
      TrimEndKeepsStart(s);
      assert TrimEnd(s) == s;
    }
  }

  lemma BlockCons(line: string, rest: seq<string>, e: Entry, es: seq<Entry>)
    requires !EndsBlock(line) && ReadEntry(line) == Ok(e) && ReadBlock(rest) == Ok(es)
    ensures ReadBlock([line] + rest) == Ok([e] + es)
  {
    assert ([line] + rest)[1..] == rest;
  }

  lemma {:induction false} BlockReadsBack(entries: seq<Entry>, after: string)
    requires EndsText(after)
    requires forall i :: 0 <= i < |entries| ==> WellFormedEntry(entries[i])
    ensures ReadBlock(Lines(PrintBlock(entries, after))) == Ok(entries)
  {
    if entries != [] {
      var line, rest := PrintEntry(entries[0]), PrintBlock(entries[1..], after);
      EntryIsALine(entries[0]);
      OneLine(line, rest);
      BlockReadsBack(entries[1..], after);
      BlockCons(line, Lines(rest), entries[0], entries[1..]);
      assert [entries[0]] + entries[1..] == entries;
    }
  }

  lemma {:induction false} IgnoredLines(before: seq<string>, rest: string, signer: string, role: string)
    requires forall i :: 0 <= i < |before| ==> Ignored(before[i])
    ensures ReadHead(Lines(PrintLines(before, rest)), signer, role) == ReadHead(Lines(rest), signer, role)
  {
    if before != [] {
      OneLine(before[0], PrintLines(before[1..], rest));
      IgnoredLines(before[1..], rest, signer, role);
    }
  }

  lemma FieldLine(key: string, value: string)
    requires Line(value) && '\n' !in key && key != "" && key[|key| - 1] == ':'
    ensures var line := key + " " + value;
            '\n' !in line && StripCr(line) == line && StartsWith(line, key) && Trim(line[|key|..]) == value
  {
    var line := key + " " + value;
    assert line[|key|..] == " " + value;
    assert (" " + value)[1..] == value;
    TrimTrims(value);
    assert TrimStart(" " + value) == TrimStart(value);
    if value != "" {
      assert line[|line| - 1] == value[|value| - 1] && IsSpace('\r');
    }
  }

  lemma ThreeLines(a: string, b: string, c: string, rest: string)
    requires '\n' !in a && StripCr(a) == a && '\n' !in b && StripCr(b) == b && '\n' !in c && StripCr(c) == c
    ensures Lines(a + "\n" + (b + "\n" + (c + "\n" + rest))) == [a] + ([b] + ([c] + Lines(rest)))
  {
    OneLine(c, rest);
    OneLine(b, c + "\n" + rest);
    OneLine(a, b + "\n" + (c + "\n" + rest));
  }

  lemma PrintShape(m: Manifest, block: string)
    ensures "Signer: " + m.signer + "\n" + ("Role: " + m.role + "\n" + ("Files:" + "\n" + block))
         == "Signer:" + " " + m.signer + "\n" + ("Role:" + " " + m.role + "\n" + ("Files:" + "\n" + block))
  {
    assert "Signer: " == "Signer:" + " " && "Role: " == "Role:" + " ";
  }

  /** Every non-empty well-formed manifest is read back from its printed form, whatever other
      header lines stand before it and whatever follows the block. */
  lemma ParseInvertsPrint(before: seq<string>, m: Manifest, after: string)
    requires WellFormed(m) && EndsText(after)
    requires forall i :: 0 <= i < |before| ==> Ignored(before[i])
    ensures ParseOf(Print(before, m, after)) == Ok(m)
  {
    var block := PrintBlock(m.entries, after);
    IgnoredLines(before, "Signer: " + m.signer + "\n" + ("Role: " + m.role + "\n" + ("Files:" + "\n" + block)), "", "");
    BlockReadsBack(m.entries, after);
    PrintedReadsBack(m, block);
  }

  lemma PrintedReadsBack(m: Manifest, block: string)
    requires WellFormed(m) && ReadBlock(Lines(block)) == Ok(m.entries)
    ensures ReadHead(Lines("Signer: " + m.signer + "\n"
                           + ("Role: " + m.role + "\n" + ("Files:" + "\n" + block))), "", "")
         == Ok(m)
  {
    PrintShape(m, block);
    FieldLine("Signer:", m.signer);
    FieldLine("Role:", m.role);
    ThreeLines("Signer:" + " " + m.signer, "Role:" + " " + m.role, "Files:", block);
    HeadReadsBack(m, Lines(block));
  }

  lemma SignerLine(value: string, rest: seq<string>, signer: string, role: string)
    requires Line(value)
    ensures ReadHead(["Signer:" + " " + value] + rest, signer, role) == ReadHead(rest, value, role)
  {
    FieldLine("Signer:", value);
    assert (["Signer:" + " " + value] + rest)[1..] == rest;
  }

  lemma RoleLine(value: string, rest: seq<string>, signer: string, role: string)
    requires Line(value)
    ensures ReadHead(["Role:" + " " + value] + rest, signer, role) == ReadHead(rest, signer, value)
  {
    FieldLine("Role:", value);
    assert (["Role:" + " " + value] + rest)[1..] == rest;
    assert ("Role:" + " " + value)[0] == 'R';
  }

  lemma FilesLine(rest: seq<string>, signer: string, role: string, entries: seq<Entry>)
    requires ReadBlock(rest) == Ok(entries) && entries != []
    ensures ReadHead(["Files:"] + rest, signer, role) == Ok(Manifest(signer, role, entries))
  {
    var line := "Files:";
    assert line[0] == 'F' && line[5] == ':';
    assert TrimEnd(line) == line;
    assert ([line] + rest)[1..] == rest;
  }

  lemma HeadReadsBack(m: Manifest, rest: seq<string>)
    requires Line(m.signer) && Line(m.role) && ReadBlock(rest) == Ok(m.entries) && m.entries != []
    ensures ReadHead(["Signer:" + " " + m.signer] + (["Role:" + " " + m.role] + (["Files:"] + rest)), "", "") == Ok(m)
  {
    var files := ["Files:"] + rest;
    SignerLine(m.signer, ["Role:" + " " + m.role] + files, "", "");
    RoleLine(m.role, files, m.signer, "");
    FilesLine(rest, m.signer, m.role, m.entries);
  }
}
