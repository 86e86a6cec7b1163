/** A disk as bytes, the regions of a table written to it, and a reader that knows only sections
    5.2.3, 5.3.2 and 5.3.3 of the UEFI specification, version 2.10. */
module GptReader {
  import opened Wrappers
  import opened Octets
  import opened LittleEndian
  import opened Partition
  import opened Guids
  import opened GptPlan
  import opened GptTable

  // ----- Writing regions -----

  function Offset(r: Region, size: nat): nat {
    r.lba * size
  }

  function End(r: Region, size: nat): nat {
    Offset(r, size) + |r.bytes|
  }

  predicate InBounds(regions: seq<Region>, size: nat, length: nat) {
    forall i :: 0 <= i < |regions| ==> End(regions[i], size) <= length
  }

  predicate Ordered(regions: seq<Region>, size: nat) {
    forall i, j :: 0 <= i < j < |regions| ==> End(regions[i], size) <= Offset(regions[j], size)
  }

  function WriteAll(image: Bytes, regions: seq<Region>, size: nat): (r: Bytes)
    requires InBounds(regions, size, |image|)
    ensures |r| == |image|
  {
    if regions == [] then image
    else
      var n := |regions| - 1;
      Splice(WriteAll(image, regions[..n], size), Offset(regions[n], size), regions[n].bytes)
  }

  lemma SpliceSlices(s: Bytes, at: nat, b: Bytes, lo: nat, hi: nat)
    requires at + |b| <= |s| && lo <= hi <= at
    ensures Splice(s, at, b)[lo..hi] == s[lo..hi]
    ensures Splice(s, at, b)[at..at + |b|] == b
  {
  }

  /** What was written can be read. */
  lemma {:induction false} WrittenIsRead(image: Bytes, regions: seq<Region>, size: nat, i: nat)
    requires InBounds(regions, size, |image|) && Ordered(regions, size) && i < |regions|
    ensures WriteAll(image, regions, size)[Offset(regions[i], size)..End(regions[i], size)] == regions[i].bytes
  {
    var n := |regions| - 1;
    var earlier := WriteAll(image, regions[..n], size);
    if i < n {
      WrittenIsRead(image, regions[..n], size, i);
      SpliceSlices(earlier, Offset(regions[n], size), regions[n].bytes, Offset(regions[i], size),
                   End(regions[i], size));
    } else {
      SpliceSlices(earlier, Offset(regions[n], size), regions[n].bytes, 0, 0);
    }
  }

  /** What lies outside every region is left alone. */
  lemma {:induction false} OthersAreKept(image: Bytes, regions: seq<Region>, size: nat, k: nat)
    requires InBounds(regions, size, |image|) && k < |image|
    requires forall i :: 0 <= i < |regions| ==> k < Offset(regions[i], size) || End(regions[i], size) <= k
    ensures WriteAll(image, regions, size)[k] == image[k]
  {
    if regions != [] {
      var n := |regions| - 1;
      OthersAreKept(image, regions[..n], size, k);
      assert k < Offset(regions[n], size) || End(regions[n], size) <= k;
    }
  }

  // ----- The reader -----

  /** What a header says. */
  datatype Said = Said(diskGuid: Bytes, alternateLba: nat, firstUsable: nat, lastUsable: nat,
                       arrayLba: nat, count: nat, entrySize: nat, entriesSum: nat)

  /** A header that checks out, with the entry array it points at. */
  datatype View = View(said: Said, entries: Bytes)

  /** The header with its checksum field zeroed, over the size the header itself states. */
  function Unsummed(sector: Bytes, headerSize: nat): Bytes
    requires 20 <= headerSize <= |sector|
  {
    sector[..16] + Zeros(4) + sector[20..headerSize]
  }

  /** Section 5.3.2: signature, revision, size, header checksum, reserved bytes, own LBA. */
  predicate ValidHeader(sector: Bytes, lba: nat)
    requires |sector| >= 512
  {
    && sector[0..8] == SIGNATURE
    && Read32(sector[8..12]) == 0x0001_0000
    && var headerSize := Read32(sector[12..16]);
       && 92 <= headerSize <= |sector|
       && Read32(sector[16..20]) == Sum(Unsummed(sector, headerSize))
       && Read32(sector[20..24]) == 0
       && Read64(sector[24..32]) == lba
       && sector[headerSize..] == Zeros(|sector| - headerSize)
  }

  function Sector(image: Bytes, size: nat, lba: nat): (s: Bytes)
    requires (lba + 1) * size <= |image|
    ensures |s| == size
  {
    assert lba * size + size == (lba + 1) * size;
    image[lba * size..lba * size + size]
  }

  function Stretch(image: Bytes, at: nat, length: nat): Option<Bytes> {
    if at + length <= |image| then Some(image[at..at + length]) else None
  }

  function Parse(sector: Bytes): Said
    requires |sector| >= 512
  {
    Said(sector[56..72], Read64(sector[32..40]), Read64(sector[40..48]), Read64(sector[48..56]),
         Read64(sector[72..80]), Read32(sector[80..84]), Read32(sector[84..88]), Read32(sector[88..92]))
  }

  /** The entry array a header points at, if its checksum is the one the header gives. */
  function Follow(image: Bytes, size: nat, said: Said): Option<View> {
    var entries :- Stretch(image, said.arrayLba * size, said.count * said.entrySize);
    if said.entrySize < 128 || said.entriesSum != Sum(entries) then None else Some(View(said, entries))
  }

  /** A header that checks out, read from the sector at `lba`. */
  function ReadHeader(sector: Bytes, lba: nat): Option<Said> {
    if |sector| >= 512 && ValidHeader(sector, lba) then Some(Parse(sector)) else None
  }

  function ReadTableBy(read: (Bytes, nat) -> Option<Said>, image: Bytes, size: nat, lba: nat): Option<View>
    requires (lba + 1) * size <= |image|
  {
    var said :- read(Sector(image, size, lba), lba);
    Follow(image, size, said)
  }

  function ReadTable(image: Bytes, size: nat, lba: nat): Option<View>
    requires (lba + 1) * size <= |image|
  {
    ReadTableBy(ReadHeader, image, size, lba)
  }

  datatype EntryView = EntryView(typeGuid: Bytes, unique: Bytes, firstLba: nat, lastLba: nat,
                                 attributes: nat, name: seq<nat>)

  function UnitsAt(b: Bytes): (u: seq<nat>)
    requires |b| == 72
    ensures |u| == 36
  {
    seq(36, i requires 0 <= i < 36 => Read16(b[2 * i..2 * i + 2]))
  }

  /** A null-terminated string of UTF-16 code units. */
  function UntilNull(u: seq<nat>): seq<nat> {
    if u == [] || u[0] == 0 then [] else [u[0]] + UntilNull(u[1..])
  }

  /** Section 5.3.3. */
  function ReadEntry(b: Bytes): EntryView
    requires |b| >= 128
  {
    EntryView(b[0..16], b[16..32], Read64(b[32..40]), Read64(b[40..48]), Read64(b[48..56]),
              UntilNull(UnitsAt(b[56..128])))
  }

  /** An entry whose type is all zero is not in use. */
  predicate Unused(e: EntryView) {
    e.typeGuid == Zeros(16)
  }

  // ----- Names come back -----

  lemma {:induction false} LeUnitsAt(u: seq<nat>, i: nat)
    requires i < |u|
    ensures LeUnits(u)[2 * i..2 * i + 2] == Le16(u[i])
  {
    var n := |u| - 1;
    if i < n {
      LeUnitsAt(u[..n], i);
      assert LeUnits(u)[2 * i..2 * i + 2] == LeUnits(u[..n])[2 * i..2 * i + 2];
    }
  }

  lemma PrefixAt(b: Bytes, room: nat, at: nat)
    requires at + 2 <= |b|
    ensures (b + Zeros(room))[at..at + 2] == b[at..at + 2]
  {
  }

  lemma ZeroAt(b: Bytes, room: nat, at: nat)
    requires |b| <= at && at + 2 <= |b| + room
    ensures Read16((b + Zeros(room))[at..at + 2]) == 0
  {
  }

  predicate HoldsUnit(b: Bytes, u: seq<nat>, i: nat)
    requires 2 * i + 2 <= |b|
  {
    Read16(b[2 * i..2 * i + 2]) == if i < |u| then u[i] else 0
  }

  lemma UnitAt(u: seq<nat>, coded: Bytes, pair: Bytes, room: nat, i: nat)
    requires |coded| == 2 * |u| && |pair| == 2
    requires i < |u| ==> coded[2 * i..2 * i + 2] == pair && Read16(pair) == u[i]
    requires 2 * i + 2 <= |coded| + room
    ensures HoldsUnit(coded + Zeros(room), u, i)
  {
    if i < |u| {
      PrefixAt(coded, room, 2 * i);
    } else {
      ZeroAt(coded, room, 2 * i);
    }
  }

  lemma UnitsFrom(b: Bytes, u: seq<nat>)
    requires |b| == 72 && |u| <= 36 && forall i :: 0 <= i < 36 ==> HoldsUnit(b, u, i)
    ensures UnitsAt(b) == u + seq(36 - |u|, i => 0)
  {
    forall i | 0 <= i < 36
      ensures UnitsAt(b)[i] == (u + seq(36 - |u|, j => 0))[i]
    {
      assert HoldsUnit(b, u, i);
    }
  }

  lemma UnitInField(u: seq<nat>, coded: Bytes, room: nat, i: nat)
    requires coded == LeUnits(u) && 2 * i + 2 <= |coded| + room
    requires i < |u| ==> u[i] < U16
    ensures HoldsUnit(coded + Zeros(room), u, i)
  {
    if i < |u| {
      LeUnitsAt(u, i);
      Read16Inverts(u[i]);
      UnitAt(u, coded, Le16(u[i]), room, i);
    } else {
      UnitAt(u, coded, [0, 0], room, i);
    }
  }

  lemma UnitsAtNameField(u: seq<nat>, coded: Bytes, b: Bytes)
    requires |u| <= 36 && forall i :: 0 <= i < |u| ==> u[i] < U16
    requires coded == LeUnits(u) && b == coded + Zeros(72 - 2 * |u|)
    ensures UnitsAt(b) == u + seq(36 - |u|, i => 0)
  {
    forall i | 0 <= i < 36
      ensures HoldsUnit(b, u, i)
    {
      UnitInField(u, coded, 72 - 2 * |u|, i);
    }
    UnitsFrom(b, u);
  }

  lemma {:induction false} UntilNullPadded(u: seq<nat>, n: nat)
    ensures UntilNull(u + seq(n, i => 0)) == UntilNull(u)
  {
    var padded := u + seq(n, i => 0);
    if u != [] && u[0] != 0 {
      UntilNullPadded(u[1..], n);
      assert padded[1..] == u[1..] + seq(n, i => 0);
    }
  }

  lemma {:induction false} UntilNullWhole(u: seq<nat>)
    ensures UntilNull(u) == u <==> 0 !in u
    ensures |UntilNull(u)| <= |u|
  {
    if u != [] && u[0] != 0 { UntilNullWhole(u[1..]); }
  }

  /** `char::decode_utf16`. */
  function Decode(u: seq<nat>): Option<string> {
    if u == [] then Some("")
    else if u[0] < 0xD800 || 0xE000 <= u[0] < U16 then
      var rest :- Decode(u[1..]);
      Some([u[0] as char] + rest)
    else if 0xD800 <= u[0] < 0xDC00 && |u| >= 2 && 0xDC00 <= u[1] < 0xE000 then
      var rest :- Decode(u[2..]);
      Some([(U16 + (u[0] - 0xD800) * 0x400 + (u[1] - 0xDC00)) as char] + rest)
    else None
  }

  lemma {:induction false} DecodeInvertsUnits(s: string)
    ensures Decode(Units(s)) == Some(s)
  {
    if s != "" {
      DecodeInvertsUnits(s[1..]);
      var u := Units(s);
      assert u[|UnitsOf(s[0])|..] == Units(s[1..]);
      assert [s[0]] + s[1..] == s;
    }
  }

  lemma {:induction false} NullUnits(s: string)
    ensures 0 in Units(s) <==> '\0' in s
  {
    if s != "" {
      NullUnits(s[1..]);
      assert 0 in UnitsOf(s[0]) <==> s[0] == '\0';
      assert s == [s[0]] + s[1..];
    }
  }

  lemma ReadName(name: string)
    ensures UntilNull(UnitsAt(NameField(name))) == UntilNull(FirstUnits(name))
  {
    var u := FirstUnits(name);
    UnitsAtNameField(u, LeUnits(u), NameField(name));
    UntilNullPadded(u, 36 - |u|);
  }

  /** A name is read back exactly when its UTF-16 form fits in 36 units and has no null. */
  lemma NameReadsBack(name: string)
    ensures Decode(UntilNull(FirstUnits(name))) == Some(name) <==> |Units(name)| <= 36 && '\0' !in name
  {
    var u := FirstUnits(name);
    UntilNullWhole(u);
    NullUnits(name);
    DecodeInvertsUnits(name);
    if Decode(UntilNull(u)) == Some(name) {
      UnitsInvertDecode(UntilNull(u), name);
    }
  }

  lemma {:induction false} UnitsInvertDecode(u: seq<nat>, s: string)
    requires Decode(u) == Some(s)
    ensures Units(s) == u
  {
    if u != [] {
      var k := if u[0] < 0xD800 || 0xE000 <= u[0] then 1 else 2;
      assert s != "";
      assert Decode(u[k..]) == Some(s[1..]) by {
        assert Decode(u[k..]).Some?;
        assert s[1..] == Decode(u[k..]).value;
      }
      UnitsInvertDecode(u[k..], s[1..]);
      assert UnitsOf(s[0]) == u[..k];
    }
  }

  // ----- Headers come back -----

  lemma FrontSlices(s: Bytes, sig: Bytes, rev: Bytes, hs: Bytes, crc: Bytes, tail: Bytes)
    requires |sig| == 8 && |rev| == |hs| == |crc| == 4
    requires s == sig + rev + hs + crc + tail
    ensures s[0..8] == sig && s[8..12] == rev && s[12..16] == hs && s[16..20] == crc && s[20..] == tail
  {
  }

  lemma MiddleSlices(s: Bytes, z: Bytes, my: Bytes, alternate: Bytes, first: Bytes, last: Bytes, tail: Bytes)
    requires |z| == 4 && |my| == |alternate| == |first| == |last| == 8 && |s| >= 20
    requires s[20..] == z + my + alternate + first + last + tail
    ensures s[20..24] == z && s[24..32] == my && s[32..40] == alternate && s[40..48] == first && s[48..56] == last
    ensures s[56..] == tail
  {
    assert s[20..24] == s[20..][..4];
    assert s[24..32] == s[20..][4..12];
    assert s[32..40] == s[20..][12..20];
    assert s[40..48] == s[20..][20..28];
    assert s[48..56] == s[20..][28..36];
    assert s[56..] == s[20..][36..];
  }

  lemma EndSlices(s: Bytes, disk: Bytes, arrayLba: Bytes, count: Bytes, size: Bytes, sum: Bytes, rest: Bytes)
    requires |disk| == 16 && |arrayLba| == 8 && |count| == |size| == |sum| == 4 && |s| >= 56
    requires s[56..] == disk + arrayLba + count + size + sum + rest
    ensures s[56..72] == disk && s[72..80] == arrayLba && s[80..84] == count && s[84..88] == size && s[88..92] == sum
    ensures s[92..] == rest
  {
    assert s[56..72] == s[56..][..16];
    assert s[72..80] == s[56..][16..24];
    assert s[80..84] == s[56..][24..28];
    assert s[84..88] == s[56..][28..32];
    assert s[88..92] == s[56..][32..36];
    assert s[92..] == s[56..][36..];
  }

  predicate Fields64(f: HeaderFields) {
    f.myLba < U64 && f.alternateLba < U64 && f.firstUsable < U64 && f.lastUsable < U64 && f.arrayLba < U64
    && f.entriesSum < U32
  }

  /** Everything the reader takes out of a padded header, as byte strings. */
  lemma HeaderSlices(f: HeaderFields, size: nat, s: Bytes)
    requires size >= 512 && s == Pad(HeaderBytes(f), size)
    ensures s[0..8] == SIGNATURE && s[8..12] == Le32(REVISION) && s[12..16] == Le32(HEADER_SIZE)
    ensures s[16..20] == Le32(HeaderSum(f)) && s[20..24] == Zeros(4)
    ensures s[24..32] == Le64(f.myLba) && s[32..40] == Le64(f.alternateLba)
    ensures s[40..48] == Le64(f.firstUsable) && s[48..56] == Le64(f.lastUsable)
    ensures s[56..72] == f.disk && s[72..80] == Le64(f.arrayLba)
    ensures s[80..84] == Le32(ENTRY_COUNT) && s[84..88] == Le32(ENTRY_SIZE) && s[88..92] == Le32(f.entriesSum)
    ensures s[92..] == Zeros(size - 92)
  {
    var back, pad, crc := HeaderBack(f), Zeros(size - 92), Le32(HeaderSum(f));
    var rev, hs := Le32(REVISION), Le32(HEADER_SIZE);
    assert HeaderFront() == SIGNATURE + rev + hs;
    assert s == SIGNATURE + rev + hs + crc + (back + pad);
    FrontSlices(s, SIGNATURE, rev, hs, crc, back + pad);
    var my, alternate, first, last := Le64(f.myLba), Le64(f.alternateLba), Le64(f.firstUsable), Le64(f.lastUsable);
    var arrayLba, count, es, sum := Le64(f.arrayLba), Le32(ENTRY_COUNT), Le32(ENTRY_SIZE), Le32(f.entriesSum);
    BackSplits(back, pad, my, alternate, first, last, f.disk, arrayLba, count, es, sum);
    MiddleSlices(s, Zeros(4), my, alternate, first, last, f.disk + arrayLba + count + es + sum + pad);
    EndSlices(s, f.disk, arrayLba, count, es, sum, pad);
  }

  lemma BackSplits(back: Bytes, pad: Bytes, my: Bytes, alternate: Bytes, first: Bytes, last: Bytes, disk: Bytes,
                   arrayLba: Bytes, count: Bytes, es: Bytes, sum: Bytes)
    requires back == Zeros(4) + my + alternate + first + last + disk + arrayLba + count + es + sum
    ensures back + pad == Zeros(4) + my + alternate + first + last + (disk + arrayLba + count + es + sum + pad)
  {
  }

  lemma UnsummedHeader(f: HeaderFields, size: nat, s: Bytes)
    requires size >= 512 && s == Pad(HeaderBytes(f), size)
    ensures Unsummed(s, 92) == HeaderWith(Zeros(4), f)
  {
    var front, back, crc, pad := HeaderFront(), HeaderBack(f), Le32(HeaderSum(f)), Zeros(size - 92);
    ZeroTheSum(s, front, crc, back, pad);
  }

  lemma ZeroTheSum(s: Bytes, front: Bytes, crc: Bytes, back: Bytes, pad: Bytes)
    requires |front| == 16 && |crc| == 4 && |back| == 72 && s == front + crc + back + pad
    ensures Unsummed(s, 92) == front + Zeros(4) + back
  {
    assert s[..16] == front && s[20..92] == back;
  }

  lemma ReadZeros()
    ensures Read32(Zeros(4)) == 0
  {
  }

  lemma HeaderIsValid(f: HeaderFields, size: nat, s: Bytes)
    requires size >= 512 && s == Pad(HeaderBytes(f), size) && Fields64(f)
    ensures ValidHeader(s, f.myLba)
  {
    HeaderSlices(f, size, s);
    UnsummedHeader(f, size, s);
    Read32Inverts(REVISION);
    Read32Inverts(HEADER_SIZE);
    Read32Inverts(HeaderSum(f));
    Read64Inverts(f.myLba);
    ReadZeros();
  }

  function SaidBy(f: HeaderFields): Said {
    Said(f.disk, f.alternateLba, f.firstUsable, f.lastUsable, f.arrayLba, ENTRY_COUNT, ENTRY_SIZE, f.entriesSum)
  }

  lemma FieldsReadBack(f: HeaderFields, size: nat, s: Bytes)
    requires size >= 512 && s == Pad(HeaderBytes(f), size) && Fields64(f)
    ensures Parse(s) == SaidBy(f)
  {
    HeaderSlices(f, size, s);
    Read64Inverts(f.alternateLba);
    Read64Inverts(f.firstUsable);
    Read64Inverts(f.lastUsable);
    Read64Inverts(f.arrayLba);
    Read32Inverts(ENTRY_COUNT);
    Read32Inverts(ENTRY_SIZE);
    Read32Inverts(f.entriesSum);
  }

  // ----- The whole table comes back -----

  predicate Shapes(regions: seq<Region>, disk: Disk)
    requires KnownSectorSize(disk.sectorSize)
  {
    && |regions| == 5
    && regions[0].lba == 0 && regions[1].lba == 1 && regions[2].lba == 2
    && regions[3].lba == LastUsable(disk) + 1 && regions[4].lba == disk.sectors - 1
    && |regions[0].bytes| == |regions[1].bytes| == |regions[4].bytes| == disk.sectorSize
    && |regions[2].bytes| == |regions[3].bytes| == ARRAY_BYTES
  }

  lemma RegionsHaveShapes(disk: Disk, id: Identity, entries: Bytes)
    requires KnownSectorSize(disk.sectorSize) && |entries| == ARRAY_BYTES && LastUsable(disk) >= 0
    ensures Shapes(Regions(disk, id, entries), disk)
  {
  }

  lemma ShapesAreOrdered(regions: seq<Region>, disk: Disk)
    requires KnownSectorSize(disk.sectorSize) && Shapes(regions, disk)
    requires LastUsable(disk) >= 2 + ArraySectors(disk.sectorSize)
    ensures InBounds(regions, disk.sectorSize, disk.Bytes()) && Ordered(regions, disk.sectorSize)
  {
  }

  lemma FollowOne(image: Bytes, size: nat, said: Said, entries: Bytes)
    requires said.count == ENTRY_COUNT && said.entrySize == ENTRY_SIZE && said.entriesSum == Sum(entries)
    requires Stretch(image, said.arrayLba * size, ARRAY_BYTES) == Some(entries)
    ensures Follow(image, size, said) == Some(View(said, entries))
  {
    assert said.count * said.entrySize == ARRAY_BYTES;
  }

  lemma HeaderReads(f: HeaderFields, size: nat, s: Bytes)
    requires size >= 512 && s == Pad(HeaderBytes(f), size) && Fields64(f)
    ensures ReadHeader(s, f.myLba) == Some(SaidBy(f))
  {
    HeaderIsValid(f, size, s);
    FieldsReadBack(f, size, s);
  }

  lemma WrittenSector(before: Bytes, regions: seq<Region>, size: nat, i: nat)
    requires InBounds(regions, size, |before|) && Ordered(regions, size)
    requires i < |regions| && |regions[i].bytes| == size
    ensures (regions[i].lba + 1) * size <= |before|
    ensures Sector(WriteAll(before, regions, size), size, regions[i].lba) == regions[i].bytes
  {
    assert End(regions[i], size) <= |before|;
    assert regions[i].lba * size + size == (regions[i].lba + 1) * size;
    WrittenIsRead(before, regions, size, i);
  }

  lemma WrittenStretch(before: Bytes, regions: seq<Region>, size: nat, i: nat)
    requires InBounds(regions, size, |before|) && Ordered(regions, size) && i < |regions|
    ensures Stretch(WriteAll(before, regions, size), regions[i].lba * size, |regions[i].bytes|)
         == Some(regions[i].bytes)
  {
    assert End(regions[i], size) <= |before|;
    WrittenIsRead(before, regions, size, i);
  }

  lemma SectorsFit(disk: Disk)
    requires KnownSectorSize(disk.sectorSize) && disk.Bytes() < U64 && LastUsable(disk) >= 0
    ensures disk.sectors < U64
  {
  }

  /** A header and an entry array that were written are a table that can be read. */
  lemma HeaderLeads(read: (Bytes, nat) -> Option<Said>, before: Bytes, regions: seq<Region>, size: nat, i: nat, j: nat,
                    lba: nat, said: Said)
    requires InBounds(regions, size, |before|) && Ordered(regions, size)
    requires i < |regions| && j < |regions| && regions[i].lba == lba && regions[j].lba == said.arrayLba
    requires |regions[i].bytes| == size && |regions[j].bytes| == ARRAY_BYTES
    requires read(regions[i].bytes, lba) == Some(said)
    requires said.count == ENTRY_COUNT && said.entrySize == ENTRY_SIZE && said.entriesSum == Sum(regions[j].bytes)
    ensures (lba + 1) * size <= |before|
    ensures ReadTableBy(read, WriteAll(before, regions, size), size, lba) == Some(View(said, regions[j].bytes))
  {
    WrittenSector(before, regions, size, i);
    WrittenStretch(before, regions, size, j);
    var image := WriteAll(before, regions, size);
    FollowOne(image, size, said, regions[j].bytes);
    assert Sector(image, size, lba) == regions[i].bytes;
  }

  lemma RegionBytes(disk: Disk, entries: Bytes, primary: HeaderFields, backup: HeaderFields, regions: seq<Region>)
    requires KnownSectorSize(disk.sectorSize) && disk.sectors >= 1
    requires regions == RegionsOf(disk, entries, primary, backup)
    ensures regions[1].bytes == Pad(HeaderBytes(primary), disk.sectorSize)
    ensures regions[4].bytes == Pad(HeaderBytes(backup), disk.sectorSize)
    ensures regions[2].bytes == regions[3].bytes == entries
  {
  }

  lemma HeadersInRegions(disk: Disk, id: Identity, entries: Bytes, regions: seq<Region>)
    requires KnownSectorSize(disk.sectorSize) && LastUsable(disk) >= 0 && disk.Bytes() < U64
    requires |entries| == ARRAY_BYTES && regions == Regions(disk, id, entries)
    ensures ReadHeader(regions[1].bytes, 1) == Some(SaidBy(PrimaryFields(disk, id, Sum(entries))))
    ensures ReadHeader(regions[4].bytes, disk.sectors - 1) == Some(SaidBy(BackupFields(disk, id, Sum(entries))))
    ensures regions[2].bytes == regions[3].bytes == entries
  {
    SectorsFit(disk);
    var primary, backup := PrimaryFields(disk, id, Sum(entries)), BackupFields(disk, id, Sum(entries));
    RegionBytes(disk, entries, primary, backup, regions);
    HeaderReads(primary, disk.sectorSize, regions[1].bytes);
    HeaderReads(backup, disk.sectorSize, regions[4].bytes);
  }

  lemma BothHeadersLead(disk: Disk, id: Identity, entries: Bytes, regions: seq<Region>, before: Bytes)
    requires KnownSectorSize(disk.sectorSize) && LastUsable(disk) >= 2 + ArraySectors(disk.sectorSize)
    requires |entries| == ARRAY_BYTES && regions == Regions(disk, id, entries)
    requires |before| == disk.Bytes() < U64
    ensures InBounds(regions, disk.sectorSize, |before|) && 2 * disk.sectorSize <= |before|
    ensures var image := WriteAll(before, regions, disk.sectorSize);
            && ReadTable(image, disk.sectorSize, 1)
               == Some(View(SaidBy(PrimaryFields(disk, id, Sum(entries))), entries))
            && ReadTable(image, disk.sectorSize, disk.sectors - 1)
               == Some(View(SaidBy(BackupFields(disk, id, Sum(entries))), entries))
  {
    var size := disk.sectorSize;
    RegionsHaveShapes(disk, id, entries);
    ShapesAreOrdered(regions, disk);
    HeadersInRegions(disk, id, entries, regions);
    HeaderLeads(ReadHeader, before, regions, size, 1, 2, 1, SaidBy(PrimaryFields(disk, id, Sum(entries))));
    HeaderLeads(ReadHeader, before, regions, size, 4, 3, disk.sectors - 1,
                SaidBy(BackupFields(disk, id, Sum(entries))));
  }

  // ----- Entries come back -----

  lemma {:induction false} ConcatSlice(blocks: seq<Block>, i: nat)
    requires i < |blocks|
    ensures Concat(blocks)[ENTRY_SIZE * i..ENTRY_SIZE * (i + 1)] == blocks[i]
  {
    var n := |blocks| - 1;
    var earlier := Concat(blocks[..n]);
    if i < n {
      ConcatSlice(blocks[..n], i);
      assert (earlier + blocks[n])[ENTRY_SIZE * i..ENTRY_SIZE * (i + 1)]
          == earlier[ENTRY_SIZE * i..ENTRY_SIZE * (i + 1)];
    }
  }

  function RawEntry(entries: Bytes, i: nat): (b: Bytes)
    requires |entries| == ARRAY_BYTES && i < ENTRY_COUNT
    ensures |b| == 128
  {
    entries[ENTRY_SIZE * i..ENTRY_SIZE * (i + 1)]
  }

  lemma RawEntries(blocks: seq<Block>, i: nat)
    requires |blocks| <= ENTRY_COUNT && i < ENTRY_COUNT
    ensures RawEntry(EntryArray(blocks), i) == if i < |blocks| then blocks[i] else Zeros(128)
  {
    var used, room := Concat(blocks), Zeros(ARRAY_BYTES - ENTRY_SIZE * |blocks|);
    if i < |blocks| {
      ConcatSlice(blocks, i);
      assert (used + room)[ENTRY_SIZE * i..ENTRY_SIZE * (i + 1)] == used[ENTRY_SIZE * i..ENTRY_SIZE * (i + 1)];
    }
  }

  lemma EntrySlices(b: Bytes, typeGuid: Bytes, unique: Bytes, first: Bytes, last: Bytes, attributes: Bytes, name: Bytes)
    requires |typeGuid| == |unique| == 16 && |first| == |last| == |attributes| == 8 && |name| == 72
    requires b == typeGuid + unique + first + last + attributes + name
    ensures b[0..16] == typeGuid && b[16..32] == unique && b[32..40] == first && b[40..48] == last
    ensures b[48..56] == attributes && b[56..128] == name
  {
  }

  lemma EntryReadsBack(p: Placement, typeGuid: Guid, unique: Guid)
    requires p.firstLba < U64 && p.lastLba < U64
    ensures ReadEntry(Entry(p, typeGuid, unique))
         == EntryView(typeGuid, unique, p.firstLba, p.lastLba, 0, UntilNull(FirstUnits(p.spec.name)))
  {
    var first, last, none, name := Le64(p.firstLba), Le64(p.lastLba), Le64(0), NameField(p.spec.name);
    EntrySlices(Entry(p, typeGuid, unique), typeGuid, unique, first, last, none, name);
    Read64Inverts(p.firstLba);
    Read64Inverts(p.lastLba);
    Read64Inverts(0);
    ReadName(p.spec.name);
  }

  // ----- The theorems -----

  /** The entry array of a layout. */
  function ArrayOf(layout: seq<Spec>, disk: Disk, id: Identity): (b: Bytes)
    requires OnlyLastGrows(layout) && |layout| <= ENTRY_COUNT && TableOf(layout, disk, id).Ok?
    ensures |b| == ARRAY_BYTES
  {
    EntryArray(Blocks(PlanOf(layout, disk).value, id.partitions))
  }

  lemma RoomForTheTable(layout: seq<Spec>, disk: Disk)
    requires OnlyLastGrows(layout) && PlanOf(layout, disk).Ok?
    ensures KnownSectorSize(disk.sectorSize) && LastUsable(disk) >= 2 + ArraySectors(disk.sectorSize)
  {
    PlacementIsSound(layout, disk, |layout| - 1);
  }

  lemma TableIs(layout: seq<Spec>, disk: Disk, id: Identity, regions: seq<Region>, entries: Bytes)
    requires OnlyLastGrows(layout) && |layout| <= ENTRY_COUNT && TableOf(layout, disk, id) == Ok(regions)
    requires entries == ArrayOf(layout, disk, id)
    ensures KnownSectorSize(disk.sectorSize) && LastUsable(disk) >= 2 + ArraySectors(disk.sectorSize)
    ensures regions == Regions(disk, id, entries)
  {
    RoomForTheTable(layout, disk);
  }

  /** Whatever the disk held before, the table read from either end of it is valid, names the
      other end, describes the usable area of the plan and leads to the same entry array. */
  lemma BothCopiesReadBack(layout: seq<Spec>, disk: Disk, id: Identity, before: Bytes, regions: seq<Region>,
                           entries: Bytes)
    requires OnlyLastGrows(layout) && |layout| <= ENTRY_COUNT && TableOf(layout, disk, id) == Ok(regions)
    requires entries == ArrayOf(layout, disk, id)
    requires |before| == disk.Bytes() < U64
    ensures InBounds(regions, disk.sectorSize, |before|) && 2 * disk.sectorSize <= |before|
    ensures KnownSectorSize(disk.sectorSize) && LastUsable(disk) >= 0
    ensures var image := WriteAll(before, regions, disk.sectorSize);
            var first, last := 2 + ArraySectors(disk.sectorSize), LastUsable(disk);
            && ReadTable(image, disk.sectorSize, 1)
               == Some(View(Said(id.disk, disk.sectors - 1, first, last, 2, 128, 128, Sum(entries)), entries))
            && ReadTable(image, disk.sectorSize, disk.sectors - 1)
               == Some(View(Said(id.disk, 1, first, last, last + 1, 128, 128, Sum(entries)), entries))
  {
    TableIs(layout, disk, id, regions, entries);
    BothHeadersLead(disk, id, entries, regions, before);
  }

  lemma AllGuidsAreGood(layout: seq<Spec>, disk: Disk, id: Identity, i: nat)
    requires OnlyLastGrows(layout) && |layout| <= ENTRY_COUNT && TableOf(layout, disk, id).Ok? && i < |layout|
    ensures Stored(layout[i].typeGuid) == Some(TypeOf(layout[i]))
  {
    var placements := PlanOf(layout, disk).value;
    assert GoodGuid(placements[i]);
  }

  lemma LbasFit(layout: seq<Spec>, disk: Disk, i: nat)
    requires OnlyLastGrows(layout) && PlanOf(layout, disk).Ok? && i < |layout| && disk.Bytes() < U64
    ensures PlanOf(layout, disk).value[i].firstLba < U64 && PlanOf(layout, disk).value[i].lastLba < U64
  {
    PlacementIsSound(layout, disk, i);
    SectorsFit(disk);
  }

  /** The entry of a partition gives back its placement, both GUIDs and its name. */
  lemma UsedEntryReadsBack(layout: seq<Spec>, disk: Disk, id: Identity, i: nat)
    requires OnlyLastGrows(layout) && |layout| <= ENTRY_COUNT && TableOf(layout, disk, id).Ok?
    requires disk.Bytes() < U64 && i < |layout|
    ensures Stored(layout[i].typeGuid).Some?
    ensures ReadEntry(RawEntry(ArrayOf(layout, disk, id), i))
         == EntryView(Stored(layout[i].typeGuid).value, id.partitions[i], PlanOf(layout, disk).value[i].firstLba,
                      PlanOf(layout, disk).value[i].lastLba, 0, UntilNull(FirstUnits(layout[i].name)))
  {
    var placements := PlanOf(layout, disk).value;
    AllGuidsAreGood(layout, disk, id, i);
    LbasFit(layout, disk, i);
    RawUsed(placements, id.partitions, i);
    EntryReadsBack(placements[i], TypeOf(layout[i]), id.partitions[i]);
  }

  lemma RawUsed(placements: seq<Placement>, uniques: seq<Guid>, i: nat)
    requires i < |placements| <= |uniques| && |placements| <= ENTRY_COUNT
    ensures RawEntry(EntryArray(Blocks(placements, uniques)), i)
         == Entry(placements[i], TypeOf(placements[i].spec), uniques[i])
  {
    RawEntries(Blocks(placements, uniques), i);
  }

  lemma ZeroEntryIsUnused(b: Bytes)
    requires b == Zeros(128)
    ensures Unused(ReadEntry(b))
  {
    assert b[0..16] == Zeros(16);
  }

  lemma RawUnused(placements: seq<Placement>, uniques: seq<Guid>, i: nat)
    requires |placements| <= |uniques| && |placements| <= i < ENTRY_COUNT
    ensures RawEntry(EntryArray(Blocks(placements, uniques)), i) == Zeros(128)
  {
    RawEntries(Blocks(placements, uniques), i);
  }

  /** Every entry past the layout is not in use. */
  lemma OtherEntriesAreUnused(layout: seq<Spec>, disk: Disk, id: Identity, i: nat)
    requires OnlyLastGrows(layout) && |layout| <= ENTRY_COUNT && TableOf(layout, disk, id).Ok?
    requires |layout| <= i < ENTRY_COUNT
    ensures Unused(ReadEntry(RawEntry(ArrayOf(layout, disk, id), i)))
  {
    RawUnused(PlanOf(layout, disk).value, id.partitions, i);
    ZeroEntryIsUnused(RawEntry(ArrayOf(layout, disk, id), i));
  }

  /** No byte of any partition is written. */
  lemma PartitionsAreUntouched(layout: seq<Spec>, disk: Disk, id: Identity, before: Bytes, i: nat, k: nat)
    requires OnlyLastGrows(layout) && |layout| <= ENTRY_COUNT && TableOf(layout, disk, id).Ok?
    requires |before| == disk.Bytes() && i < |layout|
    requires PlanOf(layout, disk).value[i].firstLba * disk.sectorSize <= k
             < (PlanOf(layout, disk).value[i].lastLba + 1) * disk.sectorSize
    ensures InBounds(TableOf(layout, disk, id).value, disk.sectorSize, |before|)
    ensures k < |before| && WriteAll(before, TableOf(layout, disk, id).value, disk.sectorSize)[k] == before[k]
  {
    var regions := TableOf(layout, disk, id).value;
    var p := PlanOf(layout, disk).value[i];
    RoomForTheTable(layout, disk);
    PlacementIsSound(layout, disk, i);
    RegionsHaveShapes(disk, id, ArrayOf(layout, disk, id));
    ShapesAreOrdered(regions, disk);
    UsableIsOutside(regions, disk, p.firstLba, p.lastLba, k);
    OthersAreKept(before, regions, disk.sectorSize, k);
  }

  lemma UsableIsOutside(regions: seq<Region>, disk: Disk, first: nat, last: nat, k: nat)
    requires KnownSectorSize(disk.sectorSize) && Shapes(regions, disk)
    requires 2 + ArraySectors(disk.sectorSize) <= first && last <= LastUsable(disk)
    requires first * disk.sectorSize <= k < (last + 1) * disk.sectorSize
    ensures k < disk.Bytes()
    ensures forall i :: 0 <= i < |regions| ==>
                          k < Offset(regions[i], disk.sectorSize) || End(regions[i], disk.sectorSize) <= k
  {
  }

  /** Two headers that share everything but their place differ in four fields only. */
  lemma HeadersDifferInFourFields(f: HeaderFields, g: HeaderFields, k: nat)
    requires f.(myLba := g.myLba, alternateLba := g.alternateLba, arrayLba := g.arrayLba) == g
    requires k < HEADER_SIZE && HeaderBytes(f)[k] != HeaderBytes(g)[k]
    ensures 16 <= k < 20 || 24 <= k < 40 || 72 <= k < 80
  {
    var s, t := Pad(HeaderBytes(f), 512), Pad(HeaderBytes(g), 512);
    HeaderSlices(f, 512, s);
    HeaderSlices(g, 512, t);
    SameOutside(s, t, k);
  }

  lemma SameOutside(s: Bytes, t: Bytes, k: nat)
    requires |s| == |t| == 512 && k < 92 && s[k] != t[k]
    requires s[0..8] == t[0..8] && s[8..12] == t[8..12] && s[12..16] == t[12..16] && s[20..24] == t[20..24]
    requires s[40..48] == t[40..48] && s[48..56] == t[48..56] && s[56..72] == t[56..72]
    requires s[80..84] == t[80..84] && s[84..88] == t[84..88] && s[88..92] == t[88..92]
    ensures 16 <= k < 20 || 24 <= k < 40 || 72 <= k < 80
  {
    assert forall at, to :: 0 <= at <= k < to <= 512 ==> s[at..to][k - at] == s[k] && t[at..to][k - at] == t[k];
  }

  // ----- The frozen layout -----

  predicate AllLowerHex(s: string) {
    forall i :: 0 <= i < |s| ==> IsLowerHex(s[i])
  }

  lemma CanonicalFromGroups(a: string, b: string, c: string, d: string, e: string)
    requires |a| == 8 && |b| == |c| == |d| == 4 && |e| == 12
    requires AllLowerHex(a) && AllLowerHex(b) && AllLowerHex(c) && AllLowerHex(d) && AllLowerHex(e)
    ensures Canonical(Hyphenated(a, b, c, d, e))
  {
    var text := Hyphenated(a, b, c, d, e);
    forall i | 0 <= i < 36
      ensures text[i] == '-' <==> IsDash(i)
      ensures !IsDash(i) ==> IsLowerHex(text[i])
    {
      if i < 8 { assert text[i] == a[i]; }
      else if 9 <= i < 13 { assert text[i] == b[i - 9]; }
      else if 14 <= i < 18 { assert text[i] == c[i - 14]; }
      else if 19 <= i < 23 { assert text[i] == d[i - 19]; }
      else if 24 <= i { assert text[i] == e[i - 24]; }
    }
  }

  lemma CanonicalGuids()
    ensures Canonical(GUID_ESP) && Canonical(GUID_USR) && Canonical(GUID_USR_VERITY) && Canonical(GUID_VAR)
  {
    CanonicalFromGroups("c12a7328", "f81f", "11d2", "ba4b", "00a0c93ec93b");
    CanonicalFromGroups("8484680c", "9521", "48c6", "9c11", "b0720656f69e");
    CanonicalFromGroups("77ff5f63", "e7b6", "4633", "acf4", "1565b864c0e6");
    CanonicalFromGroups("4d21b016", "b534", "45c2", "a9fb", "5c16e091fd2d");
  }

  lemma {:induction false} ShortAsciiName(name: string)
    requires forall i :: 0 <= i < |name| ==> 0 < name[i] as int < 0x80
    ensures |Units(name)| == |name|
  {
    if name != "" { ShortAsciiName(name[1..]); }
  }

  lemma {:induction false} AsciiHasNoNull(name: string)
    requires forall i :: 0 <= i < |name| ==> 0 < name[i] as int < 0x80
    ensures '\0' !in name
  {
  }

  lemma FrozenNames(i: nat)
    requires i < 6
    ensures |Layout()[i].name| <= 36
    ensures forall k :: 0 <= k < |Layout()[i].name| ==> 0 < Layout()[i].name[k] as int < 0x80
  {
  }

  lemma FrozenGuids(i: nat)
    requires i < 6
    ensures Canonical(Layout()[i].typeGuid)
  {
    CanonicalGuids();
  }

  /** On the frozen layout the table fails only for the size of the disk or of the identity. */
  lemma FrozenTableSucceeds(disk: Disk, id: Identity)
    ensures OnlyLastGrows(Layout())
    ensures TableOf(Layout(), disk, id).Ok? <==> PlanOf(Layout(), disk).Ok? && |id.partitions| == 6
  {
    FrozenLayout();
    if PlanOf(Layout(), disk).Ok? {
      var placements := PlanOf(Layout(), disk).value;
      forall i | 0 <= i < 6
        ensures GoodGuid(placements[i])
      {
        FrozenGuids(i);
        CanonicalIsAccepted(Layout()[i].typeGuid);
      }
    }
  }

  /** The six entries of an installed disk: the reader sees the type GUIDs as the layout writes
      them, the labels, and the planned placements. */
  lemma FrozenEntriesReadBack(disk: Disk, id: Identity, i: nat)
    requires OnlyLastGrows(Layout()) && TableOf(Layout(), disk, id).Ok? && disk.Bytes() < U64 && i < 6
    ensures var e := ReadEntry(RawEntry(ArrayOf(Layout(), disk, id), i));
            && |e.typeGuid| == 16 && Format(e.typeGuid) == Layout()[i].typeGuid
            && e.unique == id.partitions[i]
            && Decode(e.name) == Some(Layout()[i].name)
            && e.firstLba == PlanOf(Layout(), disk).value[i].firstLba
            && e.lastLba == PlanOf(Layout(), disk).value[i].lastLba
  {
    UsedEntryReadsBack(Layout(), disk, id, i);
    FrozenGuids(i);
    FormatInvertsStored(Layout()[i].typeGuid);
    FrozenNames(i);
    ShortAsciiName(Layout()[i].name);
    AsciiHasNoNull(Layout()[i].name);
    NameReadsBack(Layout()[i].name);
  }

  /** The first `n` types are texts that are accepted. */
  predicate AllStored(layout: seq<Spec>, n: nat)
    requires n <= |layout|
  {
    forall j :: 0 <= j < n ==> Stored(layout[j].typeGuid).Some?
  }

  /** Why there is no table, when the disk can be planned. */
  lemma TableRefusals(layout: seq<Spec>, disk: Disk, id: Identity)
    requires OnlyLastGrows(layout) && |layout| <= ENTRY_COUNT && PlanOf(layout, disk).Ok?
    ensures match TableOf(layout, disk, id)
            case Ok(_) => |id.partitions| == |layout| && AllStored(layout, |layout|)
            case Err(error) =>
              if |id.partitions| != |layout| then error == WrongIdentityLength(|id.partitions|, |layout|)
              else exists i :: && 0 <= i < |layout| && error == BadGuid(layout[i].typeGuid)
                               && Stored(layout[i].typeGuid).None? && AllStored(layout, i)
  {
    var placements := PlanOf(layout, disk).value;
    forall i | 0 <= i < |layout|
      ensures GoodGuid(placements[i]) <==> Stored(layout[i].typeGuid).Some?
    {
      assert placements[i].spec == layout[i];
    }
    var bad := FirstBad(placements);
    if bad < |placements| { assert placements[bad].spec == layout[bad]; }
  }

  // ----- An installed disk, in plain values -----

  /** Where the six partitions start, in mebibytes from the start of the disk. */
  lemma FrozenStarts(i: nat)
    requires i < 6
    ensures 1 + SumMib(Layout()[..i]) == [1, 513, 1537, 1569, 2593, 2625][i]
  {
    var layout := Layout();
    assert layout[..0] == [];
    if i > 0 { SumMibStep(layout, 0); }
    if i > 1 { SumMibStep(layout, 1); }
    if i > 2 { SumMibStep(layout, 2); }
    if i > 3 { SumMibStep(layout, 3); }
    if i > 4 { SumMibStep(layout, 4); }
  }

  /** The six types, written out. */
  function TypeTexts(): (texts: seq<string>)
    ensures |texts| == 6
  {
    ["c12a7328" + "-" + "f81f" + "-" + "11d2" + "-" + "ba4b" + "-" + "00a0c93ec93b",
     "8484680c" + "-" + "9521" + "-" + "48c6" + "-" + "9c11" + "-" + "b0720656f69e",
     "77ff5f63" + "-" + "e7b6" + "-" + "4633" + "-" + "acf4" + "-" + "1565b864c0e6",
     "8484680c" + "-" + "9521" + "-" + "48c6" + "-" + "9c11" + "-" + "b0720656f69e",
     "77ff5f63" + "-" + "e7b6" + "-" + "4633" + "-" + "acf4" + "-" + "1565b864c0e6",
     "4d21b016" + "-" + "b534" + "-" + "45c2" + "-" + "a9fb" + "-" + "5c16e091fd2d"]
  }

  lemma FrozenTypes(i: nat)
    requires i < 6
    ensures Layout()[i].typeGuid == TypeTexts()[i]
  {
  }

  lemma FrozenLabels(i: nat)
    requires i < 6
    ensures Layout()[i].name == ["esp", "usr_a", "usr_a_hash", "usr_b", "usr_b_hash", "var"][i]
    ensures i < 5 ==> Layout()[i].sizeMib == Some([512, 1024, 32, 1024, 32][i])
  {
  }

  /** What a reader of either table of an installed disk makes of its first six entries: type, label, the
      place in bytes where each starts and, but for the last, its length; the last ends where the backup
      array begins. */
  lemma InstalledDisk(disk: Disk, id: Identity, before: Bytes, atStart: bool, i: nat)
    requires OnlyLastGrows(Layout()) && TableOf(Layout(), disk, id).Ok? && |before| == disk.Bytes() < U64 && i < 6
    ensures InBounds(TableOf(Layout(), disk, id).value, disk.sectorSize, |before|) && 2 * disk.sectorSize <= |before|
    ensures var image := WriteAll(before, TableOf(Layout(), disk, id).value, disk.sectorSize);
            var table := ReadTable(image, disk.sectorSize, if atStart then 1 else disk.sectors - 1);
            && table.Some? && |table.value.entries| == ARRAY_BYTES
            && SaysPartition(ReadEntry(RawEntry(table.value.entries, i)), disk, id, i)
  {
    var regions, entries := TableOf(Layout(), disk, id).value, ArrayOf(Layout(), disk, id);
    BothCopiesReadBack(Layout(), disk, id, before, regions, entries);
    EntrySays(disk, id, i);
  }

  /** What entry `i` of an installed disk says. */
  ghost predicate SaysPartition(e: EntryView, disk: Disk, id: Identity, i: nat)
    requires i < 6
  {
    && |id.partitions| == 6 && e.unique == id.partitions[i] && e.attributes == 0
    && |e.typeGuid| == 16 && Format(e.typeGuid) == TypeTexts()[i]
    && Decode(e.name) == Some(["esp", "usr_a", "usr_a_hash", "usr_b", "usr_b_hash", "var"][i])
    && e.firstLba * disk.sectorSize == [1, 513, 1537, 1569, 2593, 2625][i] * 1_048_576
    && (i < 5 ==> (e.lastLba + 1 - e.firstLba) * disk.sectorSize == [512, 1024, 32, 1024, 32][i] * 1_048_576)
    && (i == 5 ==> (e.lastLba + 1) * disk.sectorSize == disk.Bytes() - 16_384 - disk.sectorSize)
  }

  lemma EntrySays(disk: Disk, id: Identity, i: nat)
    requires OnlyLastGrows(Layout()) && TableOf(Layout(), disk, id).Ok? && disk.Bytes() < U64 && i < 6
    ensures SaysPartition(ReadEntry(RawEntry(ArrayOf(Layout(), disk, id), i)), disk, id, i)
  {
    FrozenEntriesReadBack(disk, id, i);
    FrozenAttributes(disk, id, i);
    FrozenPlaces(disk, i);
    SaysFrom(ReadEntry(RawEntry(ArrayOf(Layout(), disk, id), i)), PlanOf(Layout(), disk).value[i], disk, id, i);
  }

  lemma FrozenAttributes(disk: Disk, id: Identity, i: nat)
    requires OnlyLastGrows(Layout()) && TableOf(Layout(), disk, id).Ok? && disk.Bytes() < U64 && i < 6
    ensures ReadEntry(RawEntry(ArrayOf(Layout(), disk, id), i)).attributes == 0 && |id.partitions| == 6
  {
    UsedEntryReadsBack(Layout(), disk, id, i);
  }

  ghost predicate Placed(p: Placement, disk: Disk, i: nat)
    requires i < 6
  {
    && p.firstLba * disk.sectorSize == [1, 513, 1537, 1569, 2593, 2625][i] * 1_048_576
    && (i < 5 ==> (p.lastLba + 1 - p.firstLba) * disk.sectorSize == [512, 1024, 32, 1024, 32][i] * 1_048_576)
    && (i == 5 ==> (p.lastLba + 1) * disk.sectorSize == disk.Bytes() - 16_384 - disk.sectorSize)
  }

  lemma SaysFrom(e: EntryView, p: Placement, disk: Disk, id: Identity, i: nat)
    requires i < 6 && |id.partitions| == 6 && e.unique == id.partitions[i] && e.attributes == 0
    requires |e.typeGuid| == 16 && Format(e.typeGuid) == Layout()[i].typeGuid
    requires Decode(e.name) == Some(Layout()[i].name)
    requires e.firstLba == p.firstLba && e.lastLba == p.lastLba && Placed(p, disk, i)
    ensures SaysPartition(e, disk, id, i)
  {
    FrozenTypes(i);
    FrozenLabels(i);
  }

  lemma FrozenPlaces(disk: Disk, i: nat)
    requires OnlyLastGrows(Layout()) && PlanOf(Layout(), disk).Ok? && i < 6
    ensures Placed(PlanOf(Layout(), disk).value[i], disk, i)
  {
    FirstInBytes(Layout(), disk.sectorSize, i);
    FrozenStarts(i);
    FrozenLabels(i);
    PlacementIsSound(Layout(), disk, i);
  }

  /** The protective MBR, as section 5.2.3 describes it. */
  lemma MbrIsProtective(disk: Disk)
    requires disk.sectors >= 1 && disk.sectorSize >= 512
    ensures var b := Mbr(disk);
            && b[446] == 0 && b[450] == 0xEE
            && Read32(b[454..458]) == 1
            && Read32(b[458..462]) == (if disk.sectors <= 0xFFFF_FFFF then disk.sectors - 1 else 0xFFFF_FFFF)
            && b[462..510] == Zeros(48)
            && b[510] == 0x55 && b[511] == 0xAA
  {
    var one, sectors, pad := Le32(1), Le32(MbrSectors(disk)), Zeros(disk.sectorSize - 512);
    Read32Inverts(1);
    Read32Inverts(MbrSectors(disk));
    MbrSlices(Mbr(disk), one, sectors, pad);
  }

  lemma MbrSlices(b: Bytes, one: Bytes, sectors: Bytes, pad: Bytes)
    requires |one| == |sectors| == 4
    requires b == Zeros(446) + MBR_START + one + sectors + Zeros(48) + [0x55, 0xAA] + pad
    ensures b[446] == 0 && b[450] == 0xEE && b[454..458] == one && b[458..462] == sectors
    ensures b[462..510] == Zeros(48) && b[510] == 0x55 && b[511] == 0xAA
  {
  }
}
