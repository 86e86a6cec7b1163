/** The dm-verity superblock that `veritysetup format` writes, and the table line made from it. */
module Verity {
  import opened Wrappers
  import opened Text
  import opened Octets
  import opened LittleEndian
  import opened Guids

  const SUPERBLOCK_BYTES: nat := 512
  const SIGNATURE: Bytes := [0x76, 0x65, 0x72, 0x69, 0x74, 0x79, 0x00, 0x00]
  const SUPPORTED_VERSION: nat := 1
  const MAX_SALT: nat := 256

  datatype VerityError =
    | TooShort(got: nat)
    | BadSignature
    | UnsupportedVersion(found: nat)
    | Invalid(field: string, found: nat)

  datatype Superblock = Superblock(dataBlockSize: nat, hashBlockSize: nat, dataBlocks: nat,
                                   algorithm: string, saltHex: string)

  predicate IsPowerOfTwo(n: nat)
    decreases n
  {
    n == 1 || (n > 1 && n % 2 == 0 && IsPowerOfTwo(n / 2))
  }

  // ----- Hexadecimal -----

  /** The leading or the other digit of a byte. */
  function DigitOf(b: u8, second: bool): (c: char)
    ensures IsHexDigit(c) && HexValue(c) == if second then b as nat % 16 else b as nat / 16
  {
    HexDigit(if second then b as nat % 16 else b as nat / 16)
  }

  function HexOf(b: Bytes): (s: string)
    ensures |s| == 2 * |b|
  {
    seq(2 * |b|, i requires 0 <= i < 2 * |b| => DigitOf(b[i / 2], i % 2 == 1))
  }

  /** `to_hex`. */
  method ToHex(b: Bytes) returns (s: string)
    ensures s == HexOf(b)
  {
    s := "";
    for i := 0 to |b|
      invariant |s| == 2 * i
      invariant forall j :: 0 <= j < 2 * i ==> s[j] == DigitOf(b[j / 2], j % 2 == 1)
    {
      s := s + [DigitOf(b[i], false), DigitOf(b[i], true)];
    }
  }

  predicate IsHexPair(s: string, i: nat) {
    2 * i + 1 < |s| && IsHexDigit(s[2 * i]) && IsHexDigit(s[2 * i + 1])
  }

  predicate Paired(s: string) {
    |s| % 2 == 0 && forall i: nat :: i < |s| / 2 ==> IsHexPair(s, i)
  }

  /** The bytes that pairs of digits stand for. */
  function BytesOfHex(s: string): (b: Bytes)
    requires Paired(s)
    ensures |b| == |s| / 2
  {
    seq(|s| / 2, i requires 0 <= i < |s| / 2 && IsHexPair(s, i) =>
                   (16 * HexValue(s[2 * i]) + HexValue(s[2 * i + 1])) as u8)
  }

  /** A text without spaces and nulls. */
  predicate OneField(s: string) {
    ' ' !in s && '\0' !in s
  }

  /** A salt is told from its text, and the text is one field. */
  lemma HexIsInverted(b: Bytes)
    ensures Paired(HexOf(b)) && OneField(HexOf(b))
    ensures BytesOfHex(HexOf(b)) == b
  {
    forall i: nat | i < |b|
      ensures Spells(HexOf(b), i, b[i])
    {
      PairIsInverted(b, i);
    }
    PairsAreOneField(HexOf(b));
    PairsGiveBytes(HexOf(b), b);
  }

  /** The pair at `i` stands for the byte. */
  predicate Spells(s: string, i: nat, v: u8) {
    IsHexPair(s, i) && 16 * HexValue(s[2 * i]) + HexValue(s[2 * i + 1]) == v as nat
  }

  lemma PairsGiveBytes(s: string, b: Bytes)
    requires |s| == 2 * |b| && forall i: nat :: i < |b| ==> Spells(s, i, b[i])
    ensures Paired(s) && BytesOfHex(s) == b
  {
    forall i: nat | i < |b|
      ensures IsHexPair(s, i)
    {
      assert Spells(s, i, b[i]);
    }
  }

  lemma PairsAreOneField(s: string)
    requires Paired(s)
    ensures OneField(s)
  {
    forall k | 0 <= k < |s|
      ensures s[k] != ' ' && s[k] != '\0'
    {
      assert IsHexPair(s, k / 2);
    }
  }

  lemma PairIsInverted(b: Bytes, i: nat)
    requires i < |b|
    ensures Spells(HexOf(b), i, b[i])
  {
    assert HexOf(b)[2 * i] == DigitOf(b[i], false) && HexOf(b)[2 * i + 1] == DigitOf(b[i], true);
  }

  // ----- The superblock -----

  function UntilZero(b: Bytes): (r: Bytes)
    ensures 0 !in r
  {
    if b == [] || b[0] == 0 then [] else [b[0]] + UntilZero(b[1..])
  }

  /** `VeritySuperblock::parse`. */
  function ParseSuperblock(b: Bytes): Result<Superblock, VerityError> {
    if |b| < SUPERBLOCK_BYTES then Err(TooShort(|b|))
    else if b[0..8] != SIGNATURE then Err(BadSignature)
    else if Read32(b[8..12]) != SUPPORTED_VERSION then Err(UnsupportedVersion(Read32(b[8..12])))
    else
      Check(Read32(b[64..68]), Read32(b[68..72]), Read64(b[72..80]), Read16(b[80..82]), UntilZero(b[32..64]),
            b[88..344])
  }

  /** The guards on the fields, in the order the source applies them. */
  function Check(dataBlockSize: nat, hashBlockSize: nat, dataBlocks: nat, saltSize: nat, algorithm: Bytes, salt: Bytes)
    : Result<Superblock, VerityError>
    requires |salt| == MAX_SALT
  {
    if !IsPowerOfTwo(dataBlockSize) then Err(Invalid("data_block_size", dataBlockSize))
    else if !IsPowerOfTwo(hashBlockSize) then Err(Invalid("hash_block_size", hashBlockSize))
    else if dataBlocks == 0 then Err(Invalid("data_blocks", 0))
    else if saltSize > MAX_SALT then Err(Invalid("salt_size", saltSize))
    else if algorithm == [] then Err(Invalid("algorithm", 0))
    else Ok(Superblock(dataBlockSize, hashBlockSize, dataBlocks, Latin1(algorithm), HexOf(salt[..saltSize])))
  }

  // ----- The on-disk format -----

  datatype Format = Format(hashType: nat, uuid: Bytes, algorithm: Bytes, dataBlockSize: nat, hashBlockSize: nat,
                           dataBlocks: nat, salt: Bytes)

  predicate Representable(f: Format) {
    && f.hashType < U32 && |f.uuid| == 16 && |f.algorithm| <= 32 && 0 !in f.algorithm
    && f.dataBlockSize < U32 && f.hashBlockSize < U32 && f.dataBlocks < U64 && |f.salt| <= MAX_SALT
  }

  function Written(f: Format): (b: Bytes)
    requires Representable(f)
    ensures |b| == SUPERBLOCK_BYTES
  {
    SIGNATURE + Le32(1) + Le32(f.hashType) + f.uuid + (f.algorithm + Zeros(32 - |f.algorithm|))
    + (Le32(f.dataBlockSize) + Le32(f.hashBlockSize) + Le64(f.dataBlocks) + Le16(|f.salt|) + Zeros(6)
       + (f.salt + Zeros(256 - |f.salt|)) + Zeros(168))
  }

  lemma FirstSlices(b: Bytes, sig: Bytes, version: Bytes, hashType: Bytes, uuid: Bytes, algorithm: Bytes, tail: Bytes)
    requires |sig| == 8 && |version| == |hashType| == 4 && |uuid| == 16 && |algorithm| == 32
    requires b == sig + version + hashType + uuid + algorithm + tail
    ensures b[0..8] == sig && b[8..12] == version && b[32..64] == algorithm && b[64..] == tail
  {
  }

  lemma LastSlices(b: Bytes, data: Bytes, hash: Bytes, blocks: Bytes, saltSize: Bytes, pad: Bytes, salt: Bytes,
                   rest: Bytes)
    requires |data| == |hash| == 4 && |blocks| == 8 && |saltSize| == 2 && |pad| == 6 && |salt| == 256 && |b| >= 64
    requires b[64..] == data + hash + blocks + saltSize + pad + salt + rest
    ensures b[64..68] == data && b[68..72] == hash && b[72..80] == blocks && b[80..82] == saltSize && b[88..344] == salt
  {
    assert b[64..68] == b[64..][..4] && b[68..72] == b[64..][4..8] && b[72..80] == b[64..][8..16];
    assert b[80..82] == b[64..][16..18] && b[88..344] == b[64..][24..280];
  }

  lemma {:induction false} UntilZeroPadded(b: Bytes, n: nat)
    requires 0 !in b
    ensures UntilZero(b + Zeros(n)) == b
  {
    if b != [] {
      assert (b + Zeros(n))[1..] == b[1..] + Zeros(n);
      UntilZeroPadded(b[1..], n);
      assert (b + Zeros(n))[0] == b[0] && b[0] in b;
    }
  }

  lemma WrittenSlices(f: Format, b: Bytes)
    requires Representable(f) && b == Written(f)
    ensures b[0..8] == SIGNATURE && b[8..12] == Le32(1) && b[32..64] == f.algorithm + Zeros(32 - |f.algorithm|)
    ensures b[64..68] == Le32(f.dataBlockSize) && b[68..72] == Le32(f.hashBlockSize)
    ensures b[72..80] == Le64(f.dataBlocks) && b[80..82] == Le16(|f.salt|)
    ensures b[88..344] == f.salt + Zeros(256 - |f.salt|)
  {
    var version, hashType, algorithm := Le32(1), Le32(f.hashType), f.algorithm + Zeros(32 - |f.algorithm|);
    var data, hash, blocks, size := Le32(f.dataBlockSize), Le32(f.hashBlockSize), Le64(f.dataBlocks), Le16(|f.salt|);
    var salt, rest, pad := f.salt + Zeros(256 - |f.salt|), Zeros(168), Zeros(6);
    var tail := data + hash + blocks + size + pad + salt + rest;
    FirstSlices(b, SIGNATURE, version, hashType, f.uuid, algorithm, tail);
    LastSlices(b, data, hash, blocks, size, pad, salt, rest);
  }

  /** What the format holds is what is read, and it is accepted exactly when both block sizes are
      powers of two, there is a block, and the algorithm has a name. */
  lemma ParseInvertsFormat(f: Format)
    requires Representable(f)
    ensures ParseSuperblock(Written(f)).Ok? <==>
              IsPowerOfTwo(f.dataBlockSize) && IsPowerOfTwo(f.hashBlockSize) && f.dataBlocks > 0 && f.algorithm != []
    ensures ParseSuperblock(Written(f)).Ok? ==>
              ParseSuperblock(Written(f)).value
              == Superblock(f.dataBlockSize, f.hashBlockSize, f.dataBlocks, Latin1(f.algorithm), HexOf(f.salt))
  {
    var b := Written(f);
    WrittenSlices(f, b);
    Read32Inverts(1);
    Read32Inverts(f.dataBlockSize);
    Read32Inverts(f.hashBlockSize);
    Read64Inverts(f.dataBlocks);
    Read16Inverts(|f.salt|);
    UntilZeroPadded(f.algorithm, 32 - |f.algorithm|);
    assert (f.salt + Zeros(256 - |f.salt|))[..|f.salt|] == f.salt;
  }

  function PowerOfTwo(k: nat): nat {
    if k == 0 then 1 else 2 * PowerOfTwo(k - 1)
  }

  lemma {:induction false} ExponentOf(n: nat) returns (k: nat)
    requires IsPowerOfTwo(n)
    ensures n == PowerOfTwo(k)
    decreases n
  {
    if n == 1 {
      k := 0;
    } else {
      var half := ExponentOf(n / 2);
      k := half + 1;
    }
  }

  lemma {:induction false} PowersAre(k: nat)
    ensures PowerOfTwo(k) > 0 && IsPowerOfTwo(PowerOfTwo(k))
  {
    if k > 0 { PowersAre(k - 1); }
  }

  lemma PowersOfTwo(n: nat)
    ensures IsPowerOfTwo(n) <==> exists k: nat :: n == PowerOfTwo(k)
  {
    if IsPowerOfTwo(n) {
      var k := ExponentOf(n);
    }
    forall k: nat | n == PowerOfTwo(k)
      ensures IsPowerOfTwo(n)
    {
      PowersAre(k);
    }
  }

  /** The first eight bytes are the signature and the version after them is one. */
  predicate IsVerity(b: Bytes) {
    |b| >= 512 && b[..8] == [0x76, 0x65, 0x72, 0x69, 0x74, 0x79, 0x00, 0x00] && Read32(b[8..12]) == 1
  }

  /** The number a field that can be refused holds. */
  predicate FieldHolds(b: Bytes, field: string, found: nat)
    requires |b| >= 512
  {
    || (field == "data_block_size" && found == Read32(b[64..68]))
    || (field == "hash_block_size" && found == Read32(b[68..72]))
    || (field == "data_blocks" && found == 0 == Read64(b[72..80]))
    || (field == "salt_size" && found == Read16(b[80..82]) > 256)
    || (field == "algorithm" && found == 0 && b[32] == 0)
  }

  /** Every answer to a superblock, and when it is given. */
  lemma SuperblockAnswers(b: Bytes)
    ensures match ParseSuperblock(b)
            case Err(TooShort(got)) => got == |b| < 512
            case Err(BadSignature) => |b| >= 512 && b[..8] != [0x76, 0x65, 0x72, 0x69, 0x74, 0x79, 0x00, 0x00]
            case Err(UnsupportedVersion(found)) => |b| >= 512 && found == Read32(b[8..12]) != 1
            case Err(Invalid(field, found)) =>
              && IsVerity(b) && FieldHolds(b, field, found)
              && (field == "data_block_size" || field == "hash_block_size" ==> !IsPowerOfTwo(found))
            case Ok(s) =>
              && IsVerity(b) && s.dataBlockSize == Read32(b[64..68]) && s.hashBlockSize == Read32(b[68..72])
              && s.dataBlocks == Read64(b[72..80]) && b[32] != 0
              && Read16(b[80..82]) <= 256 && s.saltHex == HexOf(b[88..88 + Read16(b[80..82])])
  {
    if |b| >= 512 {
      assert b[0..8] == b[..8] && b[32..64][0] == b[32];
      if Read16(b[80..82]) <= 256 { assert b[88..344][..Read16(b[80..82])] == b[88..88 + Read16(b[80..82])]; }
    }
  }

  /** An accepted superblock describes a device the kernel can open. */
  lemma AcceptedIsUsable(b: Bytes)
    requires ParseSuperblock(b).Ok?
    ensures var s := ParseSuperblock(b).value;
            && IsPowerOfTwo(s.dataBlockSize) && IsPowerOfTwo(s.hashBlockSize) && 0 < s.dataBlocks < U64
            && s.dataBlockSize < U32 && s.hashBlockSize < U32
            && s.algorithm != "" && '\0' !in s.algorithm
            && ' ' !in s.saltHex && '\0' !in s.saltHex && |s.saltHex| <= 2 * MAX_SALT
  {
    var algorithm := UntilZero(b[32..64]);
    HexIsInverted(b[88..344][..Read16(b[80..82])]);
    assert forall i :: 0 <= i < |algorithm| ==> algorithm[i] in algorithm && algorithm[i] != 0;
  }

  // ----- The table line -----

  function SaltField(s: Superblock): string {
    if s.saltHex == "" then "-" else s.saltHex
  }

  function Field(first: string, rest: string): string {
    first + " " + rest
  }

  /** `table_line`: the fields with a space between each and the next. */
  function TableLine(s: Superblock, dataDevice: string, hashDevice: string, rootHash: string): string {
    Field("1", Field(dataDevice, Field(hashDevice,
      Field(Decimal(s.dataBlockSize), Field(Decimal(s.hashBlockSize), Field(Decimal(s.dataBlocks),
        Field("1", Field(s.algorithm, Field(rootHash, SaltField(s))))))))))
  }

  /** `sectors`. */
  function Sectors(s: Superblock): nat {
    s.dataBlocks * s.dataBlockSize / 512
  }

  /** The ten arguments of a verity target, in the kernel's order. */
  function Arguments(s: Superblock, dataDevice: string, hashDevice: string, rootHash: string): seq<string> {
    ["1", dataDevice, hashDevice, Decimal(s.dataBlockSize), Decimal(s.hashBlockSize), Decimal(s.dataBlocks), "1",
     s.algorithm, rootHash, if s.saltHex == "" then "-" else s.saltHex]
  }

  lemma SplitField(first: string, rest: string, fields: seq<string>)
    requires OneField(first) && '\0' !in rest && Split(rest, ' ') == fields
    ensures Split(Field(first, rest), ' ') == [first] + fields && '\0' !in Field(first, rest)
  {
    SplitCons(first, rest, ' ');
    assert Field(first, rest) == first + [' '] + rest;
  }

  lemma NumbersAreOneField(n: nat)
    ensures ' ' !in Decimal(n) && '\0' !in Decimal(n)
  {
    assert AllDigits(Decimal(n));
  }

  /** The kernel splits the line into exactly the ten arguments: no field is lost, none shifts. */
  lemma LineSplitsIntoTen(s: Superblock, dataDevice: string, hashDevice: string, rootHash: string)
    requires OneField(dataDevice) && OneField(hashDevice) && OneField(rootHash)
    requires OneField(s.algorithm) && OneField(s.saltHex)
    ensures Split(TableLine(s, dataDevice, hashDevice, rootHash), ' ') == Arguments(s, dataDevice, hashDevice, rootHash)
    ensures '\0' !in TableLine(s, dataDevice, hashDevice, rootHash)
  {
    var f := Arguments(s, dataDevice, hashDevice, rootHash);
    NumbersAreOneField(s.dataBlockSize);
    NumbersAreOneField(s.hashBlockSize);
    NumbersAreOneField(s.dataBlocks);
    SplitsIntoTen(f[0], f[1], f[2], f[3], f[4], f[5], f[6], f[7], f[8], f[9]);
  }

  lemma SplitThree(a: string, b: string, c: string, rest: string, fields: seq<string>)
    requires OneField(a) && OneField(b) && OneField(c) && '\0' !in rest && Split(rest, ' ') == fields
    ensures Split(Field(a, Field(b, Field(c, rest))), ' ') == [a, b, c] + fields
    ensures '\0' !in Field(a, Field(b, Field(c, rest)))
  {
    SplitField(c, rest, fields);
    SplitField(b, Field(c, rest), [c] + fields);
    SplitField(a, Field(b, Field(c, rest)), [b] + ([c] + fields));
    assert [a] + ([b] + ([c] + fields)) == [a, b, c] + fields;
  }

  lemma SplitsIntoTen(a: string, b: string, c: string, d: string, e: string,
                      f: string, g: string, h: string, i: string, j: string)
    requires OneField(a) && OneField(b) && OneField(c) && OneField(d) && OneField(e)
    requires OneField(f) && OneField(g) && OneField(h) && OneField(i) && OneField(j)
    ensures var line := Field(a, Field(b, Field(c, Field(d, Field(e, Field(f, Field(g, Field(h, Field(i, j)))))))));
            Split(line, ' ') == [a, b, c, d, e, f, g, h, i, j] && '\0' !in line
  {
    SplitWhole(j, ' ');
    var last := Field(g, Field(h, Field(i, j)));
    SplitThree(g, h, i, j, [j]);
    var middle := Field(d, Field(e, Field(f, last)));
    SplitThree(d, e, f, last, [g, h, i] + [j]);
    SplitThree(a, b, c, middle, [d, e, f] + ([g, h, i] + [j]));
    assert [a, b, c] + ([d, e, f] + ([g, h, i] + [j])) == [a, b, c, d, e, f, g, h, i, j];
  }
}
