/** GUIDs: the text in which the layout names them and the sixteen mixed-endian bytes a GPT
    stores (appendix A of the UEFI specification, version 2.10). A character stands for one
    byte of the text. */
module Guids {
  import opened Wrappers
  import opened Text
  import opened Octets
  import opened LittleEndian

  type Guid = b: Bytes | |b| == 16 witness seq(16, i => 0)

  // ----- What a text stands for, position by position -----

  predicate IsDash(i: nat) {
    i == 8 || i == 13 || i == 18 || i == 23
  }

  /** Where in the text stored byte `k` is written: three groups backwards, two forwards. */
  function PairAt(k: nat): (i: nat)
    requires k < 16
    ensures i < 35 && !IsDash(i) && !IsDash(i + 1)
  {
    if k < 4 then 6 - 2 * k
    else if k < 6 then 11 - 2 * (k - 4)
    else if k < 8 then 16 - 2 * (k - 6)
    else if k < 10 then 19 + 2 * (k - 8)
    else 24 + 2 * (k - 10)
  }

  function HexValue(c: char): (v: nat)
    requires IsHexDigit(c)
    ensures v < 16
  {
    if c <= '9' then c as nat - '0' as nat
    else if c <= 'F' then c as nat - 'A' as nat + 10
    else c as nat - 'a' as nat + 10
  }

  /** What `u8::from_str_radix(_, 16)` accepts of two characters: a leading `+` is a sign. */
  predicate IsPair(hi: char, lo: char) {
    (hi == '+' || IsHexDigit(hi)) && IsHexDigit(lo)
  }

  function PairValue(hi: char, lo: char): u8
    requires IsPair(hi, lo)
  {
    ((if hi == '+' then 0 else 16 * HexValue(hi)) + HexValue(lo)) as u8
  }

  predicate Dashed(text: string) {
    |text| == 36 && forall i :: 0 <= i < 36 ==> (text[i] == '-' <==> IsDash(i))
  }

  predicate PairOk(text: string, k: nat)
    requires |text| == 36 && k < 16
  {
    IsPair(text[PairAt(k)], text[PairAt(k) + 1])
  }

  predicate Accepts(text: string) {
    Dashed(text) && forall k :: 0 <= k < 16 ==> PairOk(text, k)
  }

  function Stored(text: string): Option<Guid> {
    if Accepts(text) then
      Some(seq(16, k requires 0 <= k < 16 && PairOk(text, k) =>
                     PairValue(text[PairAt(k)], text[PairAt(k) + 1])))
    else None
  }

  // ----- The groups -----

  /** Where group `g` starts in the text, and the number of bytes before it. */
  function GroupAt(g: nat): nat
    requires g <= 5
  {
    if g == 0 then 0 else if g == 1 then 9 else if g == 2 then 14 else if g == 3 then 19
    else if g == 4 then 24 else 37
  }

  function GroupBytes(g: nat): nat
    requires g < 5
  {
    if g == 0 then 4 else if g < 4 then 2 else 6
  }

  function BytesBefore(g: nat): nat
    requires g <= 5
  {
    if g == 0 then 0 else if g == 1 then 4 else if g == 2 then 6 else if g == 3 then 8
    else if g == 4 then 10 else 16
  }

  predicate FiveGroups(groups: seq<string>) {
    |groups| == 5 && forall g :: 0 <= g < 5 ==> |groups[g]| == 2 * GroupBytes(g)
  }

  lemma GroupsJoin(groups: seq<string>)
    requires FiveGroups(groups)
    ensures Join(groups, '-') == groups[0] + "-" + groups[1] + "-" + groups[2] + "-" + groups[3] + "-" + groups[4]
  {
    var g1, g2, g3, g4 := groups[1..], groups[2..], groups[3..], groups[4..];
    assert g1[1..] == g2 && g2[1..] == g3 && g3[1..] == g4;
    assert Join(g4, '-') == groups[4];
    assert Join(g3, '-') == groups[3] + "-" + groups[4];
    assert Join(g2, '-') == groups[2] + "-" + Join(g3, '-');
    assert Join(g1, '-') == groups[1] + "-" + Join(g2, '-');
  }

  lemma GroupsAreDashed(text: string, groups: seq<string>)
    requires groups == Split(text, '-') && FiveGroups(groups)
    ensures Dashed(text)
    ensures forall g :: 0 <= g < 5 ==> groups[g] == text[GroupAt(g)..GroupAt(g) + 2 * GroupBytes(g)]
  {
    JoinSplit(text, '-');
    GroupsJoin(groups);
    var a, b, c, d, e := groups[0], groups[1], groups[2], groups[3], groups[4];
    assert |a| == 8 && |b| == 4 && |c| == 4 && |d| == 4 && |e| == 12;
    assert text[0..8] == a && text[9..13] == b && text[14..18] == c && text[19..23] == d && text[24..36] == e;
    assert '-' !in a && '-' !in b && '-' !in c && '-' !in d && '-' !in e;
  }

  lemma DashedHasGroups(text: string)
    requires Dashed(text)
    ensures FiveGroups(Split(text, '-'))
  {
    var a, b, c, d, e := text[0..8], text[9..13], text[14..18], text[19..23], text[24..36];
    assert e == text[24..];
    SplitWhole(e, '-');
    assert text[19..] == d + ['-'] + e;
    SplitCons(d, e, '-');
    assert text[14..] == c + ['-'] + text[19..];
    SplitCons(c, text[19..], '-');
    assert text[9..] == b + ['-'] + text[14..];
    SplitCons(b, text[14..], '-');
    assert text == a + ['-'] + text[9..];
    SplitCons(a, text[9..], '-');
  }

  /** Where byte `j` of group `g` is written, once the first three groups are reversed. */
  lemma PairInGroup(g: nat, j: nat)
    requires g < 5 && j < GroupBytes(g)
    ensures BytesBefore(g) + j < 16
    ensures PairAt(BytesBefore(g) + j)
         == GroupAt(g) + 2 * (if g < 3 then GroupBytes(g) - 1 - j else j)
  {
  }

  predicate PairsOk(group: string)
    requires |group| % 2 == 0
  {
    forall j :: 0 <= j < |group| / 2 ==> IsPair(group[2 * j], group[2 * j + 1])
  }

  /** The closure that reads one group. */
  method Hex(group: string) returns (r: Option<Bytes>)
    requires |group| % 2 == 0
    ensures r.Some? <==> PairsOk(group)
    ensures r.Some? ==>
              && |r.value| == |group| / 2
              && forall j :: 0 <= j < |r.value| ==> r.value[j] == PairValue(group[2 * j], group[2 * j + 1])
  {
    var bytes: Bytes := [];
    for j := 0 to |group| / 2
      invariant |bytes| == j
      invariant forall i :: 0 <= i < j ==> IsPair(group[2 * i], group[2 * i + 1])
      invariant forall i :: 0 <= i < j ==> bytes[i] == PairValue(group[2 * i], group[2 * i + 1])
    {
      if !IsPair(group[2 * j], group[2 * j + 1]) { return None; }
      bytes := bytes + [PairValue(group[2 * j], group[2 * j + 1])];
    }
    return Some(bytes);
  }

  method Reverse(bytes: Bytes) returns (r: Bytes)
    ensures |r| == |bytes|
    ensures forall j :: 0 <= j < |r| ==> r[j] == bytes[|bytes| - 1 - j]
  {
    r := [];
    for i := 0 to |bytes|
      invariant |r| == i
      invariant forall j :: 0 <= j < i ==> r[j] == bytes[i - 1 - j]
    {
      r := [bytes[i]] + r;
    }
  }

  predicate DoneBefore(text: string, out: Bytes, at: nat) {
    && |text| == 36 && |out| == 16 && at <= 16
    && forall k :: 0 <= k < at ==> PairOk(text, k) && out[k] == PairValue(text[PairAt(k)], text[PairAt(k) + 1])
  }

  lemma OneMoreGroup(text: string, g: nat, group: string, bytes: Bytes, before: Bytes, after: Bytes)
    requires g < 5 && |text| == 36
    requires group == text[GroupAt(g)..GroupAt(g) + 2 * GroupBytes(g)] && PairsOk(group)
    requires |bytes| == GroupBytes(g)
    requires forall j :: 0 <= j < |bytes| ==>
                           var i := if g < 3 then |bytes| - 1 - j else j;
                           bytes[j] == PairValue(group[2 * i], group[2 * i + 1])
    requires DoneBefore(text, before, BytesBefore(g))
    requires |after| == 16 && after[..BytesBefore(g)] == before[..BytesBefore(g)]
    requires after[BytesBefore(g)..BytesBefore(g + 1)] == bytes
    ensures DoneBefore(text, after, BytesBefore(g + 1))
  {
    forall k | 0 <= k < BytesBefore(g + 1)
      ensures PairOk(text, k) && after[k] == PairValue(text[PairAt(k)], text[PairAt(k) + 1])
    {
      if k < BytesBefore(g) {
        assert after[k] == after[..BytesBefore(g)][k];
      } else {
        var j := k - BytesBefore(g);
        PairInGroup(g, j);
        var i := if g < 3 then |bytes| - 1 - j else j;
        assert group[2 * i] == text[PairAt(k)] && group[2 * i + 1] == text[PairAt(k) + 1];
        assert after[k] == bytes[j];
      }
    }
  }

  lemma BadGroup(text: string, g: nat, group: string)
    requires g < 5 && |text| == 36
    requires group == text[GroupAt(g)..GroupAt(g) + 2 * GroupBytes(g)] && !PairsOk(group)
    ensures !Accepts(text)
  {
    var i :| 0 <= i < |group| / 2 && !IsPair(group[2 * i], group[2 * i + 1]);
    var j := if g < 3 then GroupBytes(g) - 1 - i else i;
    PairInGroup(g, j);
    assert !PairOk(text, BytesBefore(g) + j);
  }

  /** `guid_bytes`. */
  method GuidBytes(text: string) returns (r: Option<Guid>)
    ensures r == Stored(text)
  {
    var groups := Split(text, '-');
    var lengths := seq(|groups|, g requires 0 <= g < |groups| => |groups[g]|);
    if Dashed(text) {
      DashedHasGroups(text);
      assert lengths == [8, 4, 4, 4, 12];
    }
    if |groups| != 5 || lengths != [8, 4, 4, 4, 12] { return None; }
    assert lengths[0] == 8 && lengths[1] == 4 && lengths[2] == 4 && lengths[3] == 4 && lengths[4] == 12;
    GroupsAreDashed(text, groups);
    var out := new u8[16](_ => 0);
    var at := 0;
    for index := 0 to 5
      invariant at == BytesBefore(index)
      invariant DoneBefore(text, out[..], at)
    {
      var read := Hex(groups[index]);
      if read.None? {
        BadGroup(text, index, groups[index]);
        return None;
      }
      var bytes := read.value;
      if index < 3 {
        bytes := Reverse(bytes);
      }
      ghost var before := out[..];
      Put(out, at, bytes);
      assert out[..][..at] == before[..at] && out[..][at..at + |bytes|] == bytes;
      OneMoreGroup(text, index, groups[index], bytes, before, out[..]);
      at := at + |bytes|;
    }
    r := Some(out[..]);
    assert r.value == Stored(text).value;
  }

  // ----- What the bytes mean -----

  predicate Digits(s: string) {
    forall i :: 0 <= i < |s| ==> s[i] == '+' || IsHexDigit(s[i])
  }

  /** The number a string of digits spells, most significant first; a `+` counts as zero. */
  function Number(s: string): nat
    requires Digits(s)
  {
    if s == "" then 0
    else 16 * Number(s[..|s| - 1]) + (if s[|s| - 1] == '+' then 0 else HexValue(s[|s| - 1]))
  }

  lemma NumberOfPair(s: string)
    requires |s| >= 2 && Digits(s) && IsPair(s[|s| - 2], s[|s| - 1])
    ensures Number(s) == 0x100 * Number(s[..|s| - 2]) + PairValue(s[|s| - 2], s[|s| - 1]) as nat
  {
    var t := s[..|s| - 1];
    assert t[..|t| - 1] == s[..|s| - 2];
  }

  lemma NumberOfTwoPairs(s: string)
    requires |s| == 4 && IsPair(s[0], s[1]) && IsPair(s[2], s[3])
    ensures Digits(s)
    ensures Number(s) == 0x100 * PairValue(s[0], s[1]) as nat + PairValue(s[2], s[3]) as nat
  {
    NumberOfPair(s);
    assert s[..2][..0] == "";
    NumberOfPair(s[..2]);
  }

  /** A little-endian half word of the stored form is the number its four digits spell. */
  lemma HalfWord(text: string, at: nat, k: nat)
    requires Stored(text).Some? && k < 15 && at <= 32
    requires PairAt(k) == at + 2 && PairAt(k + 1) == at
    ensures Digits(text[at..at + 4])
    ensures Read16(Stored(text).value[k..k + 2]) == Number(text[at..at + 4])
  {
    assert PairOk(text, k) && PairOk(text, k + 1);
    NumberOfTwoPairs(text[at..at + 4]);
  }

  /** The three leading fields are stored as little-endian integers. */
  lemma LeadingFieldsAreLittleEndian(text: string)
    requires Stored(text).Some?
    ensures Digits(text[0..4]) && Digits(text[4..8]) && Digits(text[9..13]) && Digits(text[14..18])
    ensures Read32(Stored(text).value[..4]) == U16 * Number(text[0..4]) + Number(text[4..8])
    ensures Read16(Stored(text).value[4..6]) == Number(text[9..13])
    ensures Read16(Stored(text).value[6..8]) == Number(text[14..18])
  {
    var b := Stored(text).value;
    HalfWord(text, 4, 0);
    HalfWord(text, 0, 2);
    HalfWord(text, 9, 4);
    HalfWord(text, 14, 6);
    assert b[..4][..2] == b[0..2] && b[..4][2..] == b[2..4];
  }

  /** The last two groups are stored byte by byte in the order of the text. */
  lemma TrailingBytesKeepTheirOrder(text: string, j: nat)
    requires Stored(text).Some? && j < 8
    ensures var i := if j < 2 then 19 + 2 * j else 20 + 2 * j;
            IsPair(text[i], text[i + 1]) && Stored(text).value[8 + j] == PairValue(text[i], text[i + 1])
  {
    assert PairOk(text, 8 + j);
  }

  // ----- Writing a GUID as text -----

  function HexDigit(v: nat): (c: char)
    requires v < 16
    ensures IsHexDigit(c) && HexValue(c) == v && !('A' <= c <= 'F')
  {
    if v < 10 then ('0' as int + v) as char else ('a' as int + v - 10) as char
  }

  /** The stored byte written at position `i`. */
  function ByteAt(i: nat): (k: nat)
    requires i < 36 && !IsDash(i)
    ensures k < 16 && (PairAt(k) == i || PairAt(k) + 1 == i)
  {
    if i < 8 then 3 - i / 2
    else if i < 13 then 5 - (i - 9) / 2
    else if i < 18 then 7 - (i - 14) / 2
    else if i < 23 then 8 + (i - 19) / 2
    else 10 + (i - 24) / 2
  }

  function DigitAt(b: Guid, i: nat): (c: char)
    requires i < 36
    ensures c == '-' <==> IsDash(i)
  {
    if IsDash(i) then '-'
    else
      var value := b[ByteAt(i)] as nat;
      HexDigit(if PairAt(ByteAt(i)) == i then value / 16 else value % 16)
  }

  /** The canonical text of a GUID: lower case, least significant byte of each of the first
      three fields last. */
  function Format(b: Guid): (text: string)
    ensures |text| == 36
  {
    seq(36, i requires 0 <= i < 36 => DigitAt(b, i))
  }

  lemma PairBack(k: nat)
    requires k < 16
    ensures ByteAt(PairAt(k)) == k && ByteAt(PairAt(k) + 1) == k
  {
  }

  lemma StoredInvertsFormat(b: Guid)
    ensures Stored(Format(b)) == Some(b)
  {
    var text := Format(b);
    forall k | 0 <= k < 16
      ensures PairOk(text, k) && PairValue(text[PairAt(k)], text[PairAt(k) + 1]) == b[k]
    {
      PairBack(k);
      assert text[PairAt(k)] == DigitAt(b, PairAt(k)) && text[PairAt(k) + 1] == DigitAt(b, PairAt(k) + 1);
    }
    assert Stored(text).value == b;
  }

  predicate IsLowerHex(c: char) {
    IsDigit(c) || 'a' <= c <= 'f'
  }

  predicate Canonical(text: string) {
    Dashed(text) && forall i :: 0 <= i < 36 && !IsDash(i) ==> IsLowerHex(text[i])
  }

  /** Among the accepted texts the canonical ones are exactly those that formatting gives back. */
  lemma FormatInvertsStored(text: string)
    requires Stored(text).Some?
    ensures Format(Stored(text).value) == text <==> Canonical(text)
  {
    var b := Stored(text).value;
    if Canonical(text) {
      forall i | 0 <= i < 36
        ensures Format(b)[i] == text[i]
      {
        if !IsDash(i) { DigitIsGivenBack(text, b, i); }
      }
    } else {
      var i :| 0 <= i < 36 && !IsDash(i) && !IsLowerHex(text[i]);
      DigitIsLower(b, i);
    }
  }

  lemma DigitIsLower(b: Guid, i: nat)
    requires i < 36 && !IsDash(i)
    ensures Format(b)[i] == DigitAt(b, i) && IsLowerHex(DigitAt(b, i))
  {
  }

  lemma DigitIsGivenBack(text: string, b: Guid, i: nat)
    requires Stored(text) == Some(b) && i < 36 && !IsDash(i) && IsLowerHex(text[i])
    ensures Format(b)[i] == text[i]
  {
    var k := ByteAt(i);
    assert PairOk(text, k) && b[k] == PairValue(text[PairAt(k)], text[PairAt(k) + 1]);
    assert Format(b)[i] == DigitAt(b, i);
    PairSplits(text[PairAt(k)], text[PairAt(k) + 1], b[k] as nat);
    LowerDigitIsGivenBack(text[i]);
  }

  lemma PairSplits(high: char, low: char, v: nat)
    requires IsPair(high, low) && v == PairValue(high, low) as nat
    ensures IsHexDigit(high) ==> v / 16 == HexValue(high)
    ensures v % 16 == HexValue(low)
  {
  }

  lemma LowerDigitIsGivenBack(c: char)
    requires IsLowerHex(c)
    ensures HexDigit(HexValue(c)) == c
  {
  }

  /** A canonical text is always accepted. */
  lemma CanonicalIsAccepted(text: string)
    requires Canonical(text)
    ensures Stored(text).Some?
  {
    forall k | 0 <= k < 16
      ensures PairOk(text, k)
    {
      assert IsLowerHex(text[PairAt(k)]) && IsLowerHex(text[PairAt(k) + 1]);
    }
  }

  /** A `+` in the place of any leading zero of a pair changes nothing: the reader accepts
      texts that are not GUIDs. */
  lemma PlusReadsAsZero(text: string, k: nat)
    requires Stored(text).Some? && k < 16 && text[PairAt(k)] == '0'
    ensures Stored(text[PairAt(k) := '+']) == Stored(text)
    ensures !Canonical(text[PairAt(k) := '+'])
  {
    var signed := text[PairAt(k) := '+'];
    forall j | 0 <= j < 16
      ensures PairOk(signed, j)
      ensures PairValue(signed[PairAt(j)], signed[PairAt(j) + 1]) == PairValue(text[PairAt(j)], text[PairAt(j) + 1])
    {
      assert PairOk(text, j);
      PairBack(j);
      PairBack(k);
      assert PairAt(j) + 1 != PairAt(k);
    }
    assert Stored(signed).value == Stored(text).value;
    assert !IsLowerHex(signed[PairAt(k)]);
  }
}
