/** The string operations of the Rust standard library that the modelled code leans on:
    `trim`, `split`, `lines`, `split_whitespace`, integer parsing and printing. */
module Text {
  import opened Wrappers

  const U64_MAX: nat := 0xFFFF_FFFF_FFFF_FFFF

  // ----- White space -----

  /** Unicode's White_Space property. */
  predicate IsSpace(c: char) {
    var n := c as int;
    || 9 <= n <= 13 || n == 0x20 || n == 0x85 || n == 0xA0 || n == 0x1680
    || 0x2000 <= n <= 0x200A || n == 0x2028 || n == 0x2029 || n == 0x202F
    || n == 0x205F || n == 0x3000
  }

  function TrimStart(s: string): string {
    if s != "" && IsSpace(s[0]) then TrimStart(s[1..]) else s
  }

  function TrimEnd(s: string): (r: string)
    ensures |r| <= |s|
  {
    if s != "" && IsSpace(s[|s| - 1]) then TrimEnd(s[..|s| - 1]) else s
  }

  function Trim(s: string): string {
    TrimEnd(TrimStart(s))
  }

  /** Neither end is white space. */
  predicate Trimmed(s: string) {
    s == "" || (!IsSpace(s[0]) && !IsSpace(s[|s| - 1]))
  }

  lemma {:induction false} TrimEndKeepsStart(s: string)
    ensures TrimEnd(s) == "" || TrimEnd(s)[0] == s[0]
    ensures TrimEnd(s) == "" || !IsSpace(TrimEnd(s)[|TrimEnd(s)| - 1])
  {
    if s != "" && IsSpace(s[|s| - 1]) {
      TrimEndKeepsStart(s[..|s| - 1]);
    }
  }

  lemma {:induction false} TrimStartStarts(s: string)
    ensures TrimStart(s) == "" || !IsSpace(TrimStart(s)[0])
  {
    if s != "" && IsSpace(s[0]) {
      TrimStartStarts(s[1..]);
    }
  }

  lemma TrimTrims(s: string)
    ensures Trimmed(Trim(s))
    ensures Trimmed(s) ==> Trim(s) == s
  {
    TrimStartStarts(s);
    TrimEndKeepsStart(TrimStart(s));
  }

  predicate AllSpace(s: string) {
    forall i :: 0 <= i < |s| ==> IsSpace(s[i])
  }

  lemma {:induction false} TrimStartAfter(lead: string, s: string)
    requires AllSpace(lead)
    ensures TrimStart(lead + s) == TrimStart(s)
  {
    if lead == "" {
      assert lead + s == s;
    } else {
      assert (lead + s)[1..] == lead[1..] + s;
      TrimStartAfter(lead[1..], s);
    }
  }

  lemma {:induction false} TrimEndBefore(s: string, trail: string)
    requires AllSpace(trail)
    ensures TrimEnd(s + trail) == TrimEnd(s)
  {
    if trail == "" {
      assert s + trail == s;
    } else {
      var n := |trail| - 1;
      assert (s + trail)[..|s + trail| - 1] == s + trail[..n];
      TrimEndBefore(s, trail[..n]);
    }
  }

  lemma TrimEndMeans(s: string, r: string)
    ensures r == TrimEnd(s) <==>
            (r == "" || !IsSpace(r[|r| - 1])) && exists trail :: AllSpace(trail) && s == r + trail
  {
    TrimEndKeepsStart(s);
    var trail := TrimEndSplits(s);
    if (r == "" || !IsSpace(r[|r| - 1])) && exists trail :: AllSpace(trail) && s == r + trail {
      var other :| AllSpace(other) && s == r + other;
      TrimEndBefore(r, other);
    }
  }

  lemma {:induction false} TrimStartSplits(s: string) returns (lead: string)
    ensures AllSpace(lead) && s == lead + TrimStart(s)
  {
    lead := "";
    if s != "" && IsSpace(s[0]) {
      var rest := TrimStartSplits(s[1..]);
      lead := [s[0]] + rest;
    }
  }

  lemma {:induction false} TrimEndSplits(s: string) returns (trail: string)
    ensures AllSpace(trail) && s == TrimEnd(s) + trail
  {
    trail := "";
    if s != "" && IsSpace(s[|s| - 1]) {
      var rest := TrimEndSplits(s[..|s| - 1]);
      trail := rest + [s[|s| - 1]];
    }
  }

  /** What is left when white space is taken from both ends. */
  ghost predicate IsTrimOf(r: string, s: string) {
    Trimmed(r) && exists lead, trail :: AllSpace(lead) && AllSpace(trail) && s == lead + (r + trail)
  }

  lemma TrimMeans(s: string, r: string)
    ensures IsTrimOf(r, s) <==> r == Trim(s)
  {
    if IsTrimOf(r, s) {
      var lead, trail :| AllSpace(lead) && AllSpace(trail) && s == lead + (r + trail);
      TrimStartAfter(lead, r + trail);
      if r == "" {
        assert r + trail == trail;
        TrimStartAfter(trail, "");
        assert trail + "" == trail;
      } else {
        assert (r + trail)[0] == r[0];
        TrimEndBefore(r, trail);
      }
    }
    var lead := TrimStartSplits(s);
    var trail := TrimEndSplits(TrimStart(s));
    TrimTrims(s);
    assert s == lead + (Trim(s) + trail);
  }

  // ----- Splitting on a character -----

  function Split(s: string, sep: char): (parts: seq<string>)
    ensures |parts| >= 1
  {
    if s == "" then [""]
    else if s[0] == sep then [""] + Split(s[1..], sep)
    else [[s[0]] + Split(s[1..], sep)[0]] + Split(s[1..], sep)[1..]
  }

  function Join(parts: seq<string>, sep: char): string
    requires |parts| >= 1
  {
    if |parts| == 1 then parts[0] else parts[0] + [sep] + Join(parts[1..], sep)
  }

  lemma {:induction false} JoinSplit(s: string, sep: char)
    ensures Join(Split(s, sep), sep) == s
    ensures forall i :: 0 <= i < |Split(s, sep)| ==> sep !in Split(s, sep)[i]
  {
    if s != "" {
      JoinSplit(s[1..], sep);
      var rest := Split(s[1..], sep);
      if s[0] == sep {
        assert ([""] + rest)[1..] == rest;
      } else {
        var parts := [[s[0]] + rest[0]] + rest[1..];
        assert parts[1..] == rest[1..];
        assert Join(parts, sep) == [s[0]] + Join(rest, sep);
      }
    }
  }

  lemma {:induction false} SplitWhole(s: string, sep: char)
    requires sep !in s
    ensures Split(s, sep) == [s]
  {
    if s != "" {
      SplitWhole(s[1..], sep);
      assert [s[0]] + s[1..] == s;
    }
  }

  lemma {:induction false} SplitCons(first: string, rest: string, sep: char)
    requires sep !in first
    ensures Split(first + [sep] + rest, sep) == [first] + Split(rest, sep)
  {
    var s := first + [sep] + rest;
    if first == "" {
      assert s[1..] == rest;
    } else {
      assert s[1..] == first[1..] + [sep] + rest;
      SplitCons(first[1..], rest, sep);
      assert [first[0]] + first[1..] == first;
    }
  }

  lemma {:induction false} SplitJoin(parts: seq<string>, sep: char)
    requires |parts| >= 1 && forall i :: 0 <= i < |parts| ==> sep !in parts[i]
    ensures Split(Join(parts, sep), sep) == parts
  {
    if |parts| == 1 {
      SplitWhole(parts[0], sep);
    } else {
      SplitJoin(parts[1..], sep);
      SplitCons(parts[0], Join(parts[1..], sep), sep);
    }
  }

  lemma {:induction false} JoinIsWithout(parts: seq<string>, sep: char, c: char)
    requires |parts| >= 1 && c != sep && forall i :: 0 <= i < |parts| ==> c !in parts[i]
    ensures c !in Join(parts, sep)
  {
    if |parts| > 1 { JoinIsWithout(parts[1..], sep, c); }
  }

  /** The first part is what comes before the first separator. */
  lemma FirstPart(s: string, sep: char, first: string, rest: string)
    requires sep !in first && s == first + rest && (rest == "" || rest[0] == sep)
    ensures Split(s, sep)[0] == first
  {
    if rest == "" {
      assert s == first;
      SplitWhole(s, sep);
    } else {
      assert s == first + [sep] + rest[1..];
      SplitCons(first, rest[1..], sep);
    }
  }

  lemma RestOfFirstPart(s: string, sep: char) returns (rest: string)
    ensures s == Split(s, sep)[0] + rest && (rest == "" || rest[0] == sep) && sep !in Split(s, sep)[0]
  {
    JoinSplit(s, sep);
    var parts := Split(s, sep);
    rest := if |parts| == 1 then "" else [sep] + Join(parts[1..], sep);
    assert s == parts[0] + rest;
  }

  // ----- Finding -----

  /** The first index of a character, or the length. */
  function IndexOf(s: string, c: char): (i: nat)
    ensures i <= |s| && c !in s[..i] && (i < |s| ==> s[i] == c)
  {
    if s == "" then 0 else if s[0] == c then 0 else 1 + IndexOf(s[1..], c)
  }

  lemma {:induction false} IndexOfAppended(first: string, c: char, rest: string)
    requires c !in first
    ensures IndexOf(first + [c] + rest, c) == |first|
  {
    var s := first + [c] + rest;
    if first != "" {
      assert s[0] == first[0] && s[1..] == first[1..] + [c] + rest;
      IndexOfAppended(first[1..], c, rest);
    }
  }

  // ----- Lines -----

  function StripCr(s: string): string {
    if s != "" && s[|s| - 1] == '\r' then s[..|s| - 1] else s
  }

  /** `str::lines`: a line ends at `\n` or `\r\n`; a last line without one keeps its `\r`. */
  function Lines(s: string): seq<string>
    decreases |s|
  {
    if s == "" then []
    else if IndexOf(s, '\n') == |s| then [s]
    else [StripCr(s[..IndexOf(s, '\n')])] + Lines(s[IndexOf(s, '\n') + 1..])
  }

  lemma LinesCons(line: string, rest: string)
    requires '\n' !in line
    ensures Lines(line + "\n" + rest) == [StripCr(line)] + Lines(rest)
  {
    var s := line + "\n" + rest;
    assert s == line + ['\n'] + rest;
    IndexOfAppended(line, '\n', rest);
    assert s[..|line|] == line && s[|line| + 1..] == rest;
  }

  lemma LinesLast(line: string)
    requires '\n' !in line && line != ""
    ensures Lines(line) == [line] && Lines("") == []
  {
    assert IndexOf(line, '\n') == |line|;
  }

  predicate EndsInCr(s: string) {
    s != "" && s[|s| - 1] == '\r'
  }

  /** The first line: what comes before the first line end, or everything when there is none. */
  ghost predicate IsFirstLine(line: string, s: string) {
    && '\n' !in line
    && (|| (line == s && s != "")
        || (!EndsInCr(line) && exists rest :: s == line + "\n" + rest)
        || exists rest :: s == line + "\r" + "\n" + rest)
  }

  lemma CrIsStripped(line: string)
    requires '\n' !in line
    ensures '\n' !in line + "\r" && StripCr(line + "\r") == line
  {
    assert (line + "\r")[..|line|] == line;
  }

  lemma FirstLineIsUnique(line: string, s: string)
    requires IsFirstLine(line, s)
    ensures Lines(s) != [] && Lines(s)[0] == line
  {
    if line == s && s != "" {
      assert IndexOf(s, '\n') == |s|;
    } else if rest :| s == line + "\r" + "\n" + rest {
      CrIsStripped(line);
      LinesCons(line + "\r", rest);
    } else {
      var rest :| s == line + "\n" + rest;
      LinesCons(line, rest);
    }
  }

  lemma FirstLine(s: string)
    ensures Lines(s) == [] <==> s == ""
    ensures s != "" ==> IsFirstLine(Lines(s)[0], s)
  {
    var at := IndexOf(s, '\n');
    if s != "" {
      if at < |s| {
        FirstLineAt(s, s[..at], s[at + 1..]);
      } else {
        LinesLast(s);
      }
    }
  }

  lemma FirstLineAt(s: string, line: string, rest: string)
    requires '\n' !in line && s == line + "\n" + rest
    ensures Lines(s) != [] && IsFirstLine(Lines(s)[0], s)
  {
    EndedLine(line, rest);
  }

  lemma EndedLine(line: string, rest: string)
    requires '\n' !in line
    ensures Lines(line + "\n" + rest) != [] && IsFirstLine(Lines(line + "\n" + rest)[0], line + "\n" + rest)
  {
    LinesCons(line, rest);
    StrippedIsFirst(line, rest, line + "\n" + rest);
  }

  lemma StrippedIsFirst(line: string, rest: string, s: string)
    requires '\n' !in line && s == line + "\n" + rest
    ensures IsFirstLine(StripCr(line), s)
  {
    if EndsInCr(line) {
      assert line == line[..|line| - 1] + "\r";
    }
  }

  // ----- Words -----

  /** The length of the longest prefix without white space. */
  function WordLength(s: string): (n: nat)
    ensures n <= |s|
    ensures forall i :: 0 <= i < n ==> !IsSpace(s[i])
    ensures n < |s| ==> IsSpace(s[n])
  {
    if s == "" || IsSpace(s[0]) then 0 else 1 + WordLength(s[1..])
  }

  /** `str::split_whitespace`. */
  function Words(s: string): seq<string>
    decreases |s|
  {
    if s == "" then []
    else if IsSpace(s[0]) then Words(s[1..])
    else [s[..WordLength(s)]] + Words(s[WordLength(s)..])
  }

  predicate IsWord(s: string) {
    s != "" && forall i :: 0 <= i < |s| ==> !IsSpace(s[i])
  }

  lemma {:induction false} WordLengthAppended(word: string, sep: char, rest: string)
    requires forall i :: 0 <= i < |word| ==> !IsSpace(word[i])
    requires IsSpace(sep)
    ensures WordLength(word + [sep] + rest) == |word|
  {
    var s := word + [sep] + rest;
    if word != "" {
      assert s[0] == word[0] && s[1..] == word[1..] + [sep] + rest;
      WordLengthAppended(word[1..], sep, rest);
    }
  }

  lemma WordsCons(word: string, sep: char, rest: string)
    requires IsWord(word) && IsSpace(sep)
    ensures Words(word + [sep] + rest) == [word] + Words(rest)
  {
    var s := word + [sep] + rest;
    WordLengthAppended(word, sep, rest);
    assert s[0] == word[0] && s[..|word|] == word;
    assert s[|word|..] == [sep] + rest;
    assert ([sep] + rest)[1..] == rest;
  }

  lemma WordsSkip(space: char, rest: string)
    requires IsSpace(space)
    ensures Words([space] + rest) == Words(rest) && Words("") == []
  {
    assert ([space] + rest)[1..] == rest;
  }

  lemma WordsLast(word: string)
    requires IsWord(word)
    ensures Words(word) == [word]
  {
    assert WordLength(word) == |word|;
    assert word[..|word|] == word && word[|word|..] == "";
  }

  // ----- Prefixes and suffixes -----

  predicate StartsWith(s: string, prefix: string) {
    |prefix| <= |s| && s[..|prefix|] == prefix
  }

  predicate EndsWith(s: string, suffix: string) {
    |suffix| <= |s| && s[|s| - |suffix|..] == suffix
  }

  function StripPrefix(s: string, prefix: string): Option<string> {
    if StartsWith(s, prefix) then Some(s[|prefix|..]) else None
  }

  function StripSuffix(s: string, suffix: string): Option<string> {
    if EndsWith(s, suffix) then Some(s[..|s| - |suffix|]) else None
  }

  /** What follows the prefix in the last item that has it. */
  function LastWith(items: seq<string>, prefix: string): Option<string> {
    if items == [] then None
    else
      var last := items[|items| - 1];
      if StartsWith(last, prefix) then Some(last[|prefix|..]) else LastWith(items[..|items| - 1], prefix)
  }

  lemma LastWithStep(items: seq<string>, i: nat, prefix: string)
    requires i < |items|
    ensures LastWith(items[..i + 1], prefix)
         == if StartsWith(items[i], prefix) then Some(items[i][|prefix|..]) else LastWith(items[..i], prefix)
  {
    assert items[..i + 1][..i] == items[..i];
  }

  lemma {:induction false} LastWithIsLast(items: seq<string>, prefix: string)
    ensures LastWith(items, prefix).None? <==> forall i :: 0 <= i < |items| ==> !StartsWith(items[i], prefix)
    ensures LastWith(items, prefix).Some? ==>
              exists i :: 0 <= i < |items| && items[i] == prefix + LastWith(items, prefix).value
                          && forall j :: i < j < |items| ==> !StartsWith(items[j], prefix)
  {
    if items != [] {
      var n := |items| - 1;
      if StartsWith(items[n], prefix) {
        assert items[n] == prefix + items[n][|prefix|..];
      } else {
        LastWithIsLast(items[..n], prefix);
      }
    }
  }

  /** What the last item with this prefix says after it. */
  ghost predicate LastValue(items: seq<string>, prefix: string, value: string) {
    exists i ::
      && 0 <= i < |items| && items[i] == prefix + value
      && forall j :: i < j < |items| ==> !StartsWith(items[j], prefix)
  }

  ghost predicate NoValue(items: seq<string>, prefix: string) {
    forall i :: 0 <= i < |items| ==> !StartsWith(items[i], prefix)
  }

  lemma LastWithMeans(items: seq<string>, prefix: string)
    ensures LastWith(items, prefix).None? <==> NoValue(items, prefix)
    ensures forall value :: LastValue(items, prefix, value) <==> LastWith(items, prefix) == Some(value)
  {
    LastWithIsLast(items, prefix);
    forall value
      ensures LastValue(items, prefix, value) <==> LastWith(items, prefix) == Some(value)
    {
      if LastValue(items, prefix, value) {
        OneLastValue(items, prefix, value);
      }
    }
  }

  lemma OneLastValue(items: seq<string>, prefix: string, value: string)
    requires LastValue(items, prefix, value)
    ensures LastWith(items, prefix) == Some(value)
  {
    LastWithIsLast(items, prefix);
    var i :| 0 <= i < |items| && items[i] == prefix + value
             && forall j :: i < j < |items| ==> !StartsWith(items[j], prefix);
    assert StartsWith(items[i], prefix);
    var found := LastWith(items, prefix).value;
    var k :| 0 <= k < |items| && items[k] == prefix + found
             && forall j :: k < j < |items| ==> !StartsWith(items[j], prefix);
    assert StartsWith(items[k], prefix);
    assert (prefix + value)[|prefix|..] == value && (prefix + found)[|prefix|..] == found;
  }

  // ----- Decimal numbers -----

  predicate IsDigit(c: char) { '0' <= c <= '9' }

  predicate AllDigits(s: string) {
    forall i :: 0 <= i < |s| ==> IsDigit(s[i])
  }

  function DigitValue(c: char): (v: nat)
    requires IsDigit(c)
    ensures v <= 9
  {
    c as int - '0' as int
  }

  function Value(s: string): nat
    requires AllDigits(s)
  {
    if s == "" then 0 else 10 * Value(s[..|s| - 1]) + DigitValue(s[|s| - 1])
  }

  /** `str::parse` for an unsigned type: one leading `+` is allowed, a bare sign is not, and
      a value above the type's maximum is an error. */
  function ParseUnsigned(s: string, max: nat): Option<nat> {
    var digits := if |s| > 1 && s[0] == '+' then s[1..] else s;
    if digits == "" || !AllDigits(digits) then None
    else if Value(digits) > max then None
    else Some(Value(digits))
  }

  function PowerOfTen(n: nat): (p: nat)
    ensures p >= 1
  {
    if n == 0 then 1 else 10 * PowerOfTen(n - 1)
  }

  lemma {:induction false} ValueIsBelowPower(s: string)
    requires AllDigits(s)
    ensures Value(s) < PowerOfTen(|s|)
  {
    if s != "" {
      ValueIsBelowPower(s[..|s| - 1]);
    }
  }

  /** Digits for a number, with leading zeros or a plus sign before them or without. */
  ghost predicate IsNumber(s: string, n: nat) {
    exists digits ::
      digits != "" && AllDigits(digits) && Value(digits) == n && (s == digits || s == "+" + digits)
  }

  lemma ParseUnsignedMeans(s: string, max: nat, n: nat)
    ensures ParseUnsigned(s, max) == Some(n) <==> IsNumber(s, n) && n <= max
  {
    if ParseUnsigned(s, max) == Some(n) {
      var digits := if |s| > 1 && s[0] == '+' then s[1..] else s;
      assert digits == s || s == "+" + digits;
    }
    if IsNumber(s, n) && n <= max {
      var digits :| digits != "" && AllDigits(digits) && Value(digits) == n && (s == digits || s == "+" + digits);
      if s == "+" + digits {
        assert s[1..] == digits;
      } else {
        assert IsDigit(s[0]);
      }
    }
  }

  lemma NumbersAreDigits(s: string, n: nat)
    requires IsNumber(s, n)
    ensures s != "" && forall i :: 0 <= i < |s| ==> IsDigit(s[i]) || s[i] == '+'
  {
  }

  function Decimal(n: nat): (s: string)
    ensures s != "" && AllDigits(s)
  {
    if n < 10 then [('0' as int + n) as char]
    else Decimal(n / 10) + [('0' as int + n % 10) as char]
  }

  lemma {:induction false} ValueOfDecimal(n: nat)
    ensures Value(Decimal(n)) == n
  {
    if n >= 10 {
      ValueOfDecimal(n / 10);
      assert Decimal(n)[..|Decimal(n)| - 1] == Decimal(n / 10);
    } else {
      assert Decimal(n)[..0] == "";
    }
  }

  lemma ParseOfDecimal(n: nat, max: nat)
    requires n <= max
    ensures ParseUnsigned(Decimal(n), max) == Some(n)
    ensures IsWord(Decimal(n))
  {
    ValueOfDecimal(n);
    assert IsDigit(Decimal(n)[0]);
    forall i | 0 <= i < |Decimal(n)|
      ensures !IsSpace(Decimal(n)[i])
    {
      assert IsDigit(Decimal(n)[i]);
    }
  }

  // ----- Hexadecimal -----

  predicate IsHexDigit(c: char) {
    IsDigit(c) || 'a' <= c <= 'f' || 'A' <= c <= 'F'
  }

  predicate AllHex(s: string) {
    forall i :: 0 <= i < |s| ==> IsHexDigit(s[i])
  }

  function LowerChar(c: char): (r: char)
    ensures !('A' <= r <= 'Z')
    ensures IsHexDigit(c) ==> IsHexDigit(r) && !('A' <= r <= 'F')
  {
    if 'A' <= c <= 'Z' then (c as int + 32) as char else c
  }

  /** `to_ascii_lowercase`; `eq_ignore_ascii_case` compares what it gives. */
  function Lower(s: string): (r: string)
    ensures |r| == |s|
  {
    seq(|s|, i requires 0 <= i < |s| => LowerChar(s[i]))
  }

  /** The same up to the case of ASCII letters. */
  predicate SameUpToCase(c: char, d: char) {
    || c == d
    || ('a' <= c <= 'z' && d as int == c as int - 32)
    || ('a' <= d <= 'z' && c as int == d as int - 32)
  }

  lemma LowerMeans(s: string, t: string)
    ensures Lower(s) == Lower(t) <==> |s| == |t| && forall i :: 0 <= i < |s| ==> SameUpToCase(s[i], t[i])
  {
    forall i | 0 <= i < |s| && i < |t|
      ensures LowerChar(s[i]) == LowerChar(t[i]) <==> SameUpToCase(s[i], t[i])
    {
      LowerCharMeans(s[i], t[i]);
    }
    if Lower(s) == Lower(t) {
      forall i | 0 <= i < |s|
        ensures SameUpToCase(s[i], t[i])
      {
        assert Lower(s)[i] == LowerChar(s[i]) && Lower(t)[i] == LowerChar(t[i]);
      }
    }
  }

  lemma LowerCharMeans(c: char, d: char)
    ensures LowerChar(c) == LowerChar(d) <==> SameUpToCase(c, d)
  {
  }

  lemma LowerIsIdempotent(s: string)
    ensures Lower(Lower(s)) == Lower(s)
    ensures AllHex(s) ==> AllHex(Lower(s))
  {
    forall i | 0 <= i < |s|
      ensures Lower(Lower(s))[i] == Lower(s)[i]
    {
      assert Lower(Lower(s))[i] == LowerChar(LowerChar(s[i]));
    }
  }
}
