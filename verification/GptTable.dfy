/** The bytes of the table: protective MBR, two headers and two copies of the entry array. */
module GptTable {
  import opened Wrappers
  import opened Octets
  import opened LittleEndian
  import opened Partition
  import opened Guids
  import opened GptPlan
  import Crc

  const SIGNATURE: Bytes := [0x45, 0x46, 0x49, 0x20, 0x50, 0x41, 0x52, 0x54]
  const REVISION: nat := 0x0001_0000
  const HEADER_SIZE: nat := 92
  const ARRAY_BYTES: nat := ENTRY_COUNT * ENTRY_SIZE

  datatype Identity = Identity(disk: Guid, partitions: seq<Guid>)

  datatype Region = Region(lba: nat, bytes: Bytes)

  // ----- Checksums -----

  function AsBits(b: Bytes): (s: seq<Crc.byte>)
    ensures |s| == |b|
  {
    seq(|b|, i requires 0 <= i < |b| => b[i] as Crc.byte)
  }

  /** CRC-32 of a byte string, as a number. */
  function Sum(b: Bytes): (n: nat)
    ensures n < U32
  {
    Crc.Checksum(AsBits(b)) as nat
  }

  // ----- Names -----

  /** UTF-16 code units of one character. */
  function UnitsOf(c: char): (u: seq<nat>)
    ensures 1 <= |u| <= 2 && forall i :: 0 <= i < |u| ==> u[i] < U16
  {
    var v := c as nat;
    if v < U16 then [v]
    else [0xD800 + (v - U16) / 0x400 % 0x400, 0xDC00 + (v - U16) % 0x400]
  }

  function Units(s: string): (u: seq<nat>)
    ensures forall i :: 0 <= i < |u| ==> u[i] < U16
  {
    if s == "" then [] else UnitsOf(s[0]) + Units(s[1..])
  }

  function LeUnits(u: seq<nat>): (b: Bytes)
    ensures |b| == 2 * |u|
  {
    if u == [] then [] else LeUnits(u[..|u| - 1]) + Le16(u[|u| - 1])
  }

  function FirstUnits(name: string): (u: seq<nat>)
    ensures |u| <= 36 && forall i :: 0 <= i < |u| ==> u[i] < U16
  {
    var u := Units(name);
    if |u| <= 36 then u else u[..36]
  }

  function NameField(name: string): (b: Bytes)
    ensures |b| == 72
  {
    LeUnits(FirstUnits(name)) + Zeros(72 - 2 * |FirstUnits(name)|)
  }

  // ----- Entries -----

  function Entry(p: Placement, typeGuid: Guid, unique: Guid): (b: Bytes)
    ensures |b| == ENTRY_SIZE
  {
    typeGuid + unique + Le64(p.firstLba) + Le64(p.lastLba) + Le64(0) + NameField(p.spec.name)
  }

  /** Copies `b` into a buffer that is filled up to `at`; `room` zeroed bytes are left there. */
  method Fill(out: array<u8>, at: nat, b: Bytes, ghost pre: Bytes, ghost done: Bytes, ghost room: nat,
              ghost post: Bytes)
    requires out[..] == pre + done + Zeros(room) + post && |b| <= room
    requires at == |pre| + |done|
    modifies out
    ensures out[..] == pre + (done + b) + Zeros(room - |b|) + post
  {
    PutNext(out[..], pre + done, room, post, 0, b);
    Put(out, at, b);
    assert pre + done + Zeros(0) + b == pre + (done + b);
  }

  lemma LeUnitsStep(u: seq<nat>, i: nat)
    requires i < |u|
    ensures LeUnits(u[..i + 1]) == LeUnits(u[..i]) + Le16(u[i])
  {
    assert u[..i + 1][..i] == u[..i];
  }

  /** The loop of `write_entry` that stores the name. */
  method WriteName(out: array<u8>, at: nat, name: string, ghost pre: Bytes, ghost post: Bytes)
    requires |pre| == at && out[..] == pre + Zeros(72) + post
    modifies out
    ensures out[..] == pre + NameField(name) + post
  {
    var units := FirstUnits(name);
    ghost var done: Bytes := [];
    assert pre + done == pre;
    for index := 0 to |units|
      invariant done == LeUnits(units[..index])
      invariant out[..] == pre + done + Zeros(72 - 2 * index) + post
    {
      var unit := Le16(units[index]);
      Fill(out, at + index * 2, unit, pre, done, 72 - 2 * index, post);
      LeUnitsStep(units, index);
      done := done + unit;
    }
    assert units[..|units|] == units;
    assert done + Zeros(72 - 2 * |units|) == NameField(name);
    assert out[..] == pre + (done + Zeros(72 - 2 * |units|)) + post;
  }

  method WriteFixedFields(out: array<u8>, at: nat, typeGuid: Bytes, unique: Bytes, first: Bytes, last: Bytes,
                          attributes: Bytes, ghost pre: Bytes, ghost post: Bytes)
    requires |typeGuid| == |unique| == 16 && |first| == |last| == |attributes| == 8
    requires |pre| == at && out[..] == pre + Zeros(ENTRY_SIZE) + post
    modifies out
    ensures out[..] == pre + (typeGuid + unique + first + last + attributes) + Zeros(72) + post
  {
    assert pre + [] == pre;
    Fill(out, at, typeGuid, pre, [], 128, post);
    assert [] + typeGuid == typeGuid;
    ghost var done := typeGuid;
    Fill(out, at + 16, unique, pre, done, 112, post);
    done := done + unique;
    Fill(out, at + 32, first, pre, done, 96, post);
    done := done + first;
    Fill(out, at + 40, last, pre, done, 88, post);
    done := done + last;
    Fill(out, at + 48, attributes, pre, done, 80, post);
  }

  /** `write_entry`: fills the 128 zeroed bytes at `at`. */
  method WriteEntry(out: array<u8>, at: nat, p: Placement, unique: Guid, ghost pre: Bytes, ghost post: Bytes)
    returns (r: Result<(), GptError>)
    requires |pre| == at && out[..] == pre + Zeros(ENTRY_SIZE) + post
    modifies out
    ensures r == if Stored(p.spec.typeGuid).Some? then Ok(()) else Err(BadGuid(p.spec.typeGuid))
    ensures r.Ok? ==> out[..] == pre + Entry(p, Stored(p.spec.typeGuid).value, unique) + post
  {
    var typeGuid := GuidBytes(p.spec.typeGuid);
    if typeGuid.None? { return Err(BadGuid(p.spec.typeGuid)); }
    ghost var fixed := typeGuid.value + unique + Le64(p.firstLba) + Le64(p.lastLba) + Le64(0);
    WriteFixedFields(out, at, typeGuid.value, unique, Le64(p.firstLba), Le64(p.lastLba), Le64(0), pre, post);
    WriteName(out, at + 56, p.spec.name, pre + fixed, post);
    assert pre + fixed + NameField(p.spec.name) + post == pre + (fixed + NameField(p.spec.name)) + post;
    return Ok(());
  }

  // ----- Headers -----

  datatype HeaderFields = HeaderFields(myLba: nat, alternateLba: nat, firstUsable: nat, lastUsable: nat,
                                       disk: Guid, arrayLba: nat, entriesSum: nat)

  function HeaderFront(): (b: Bytes)
    ensures |b| == 16
  {
    SIGNATURE + Le32(REVISION) + Le32(HEADER_SIZE)
  }

  /** Everything after the header's own checksum. */
  function HeaderBack(f: HeaderFields): (b: Bytes)
    ensures |b| == 72
  {
    Zeros(4) + Le64(f.myLba) + Le64(f.alternateLba) + Le64(f.firstUsable) + Le64(f.lastUsable) + f.disk
    + Le64(f.arrayLba) + Le32(ENTRY_COUNT) + Le32(ENTRY_SIZE) + Le32(f.entriesSum)
  }

  function HeaderWith(crc: Bytes, f: HeaderFields): (b: Bytes)
    requires |crc| == 4
    ensures |b| == HEADER_SIZE
  {
    HeaderFront() + crc + HeaderBack(f)
  }

  /** The checksum of a header is taken with its own field zero. */
  function HeaderSum(f: HeaderFields): (n: nat)
    ensures n < U32
  {
    Sum(HeaderWith(Zeros(4), f))
  }

  function HeaderBytes(f: HeaderFields): (b: Bytes)
    ensures |b| == HEADER_SIZE
  {
    HeaderWith(Le32(HeaderSum(f)), f)
  }

  /** Copies `b` into a buffer filled up to `at` and zero from there on, leaving `gap` bytes. */
  method Extend(out: array<u8>, at: nat, b: Bytes, ghost done: Bytes, ghost gap: nat, ghost room: nat)
    requires out[..] == done + Zeros(room) && gap + |b| <= room
    requires at == |done| + gap
    modifies out
    ensures out[..] == done + Zeros(gap) + b + Zeros(room - gap - |b|)
  {
    assert out[..] == done + Zeros(room) + [];
    PutNext(out[..], done, room, [], gap, b);
    Put(out, at, b);
  }

  method WriteHeaderStart(out: array<u8>, front: Bytes, my: Bytes, alternate: Bytes, first: Bytes, last: Bytes)
    requires |front| == 16 && |my| == |alternate| == |first| == |last| == 8
    requires out[..] == Zeros(HEADER_SIZE)
    modifies out
    ensures out[..] == front + Zeros(8) + my + alternate + first + last + Zeros(36)
  {
    assert [] + Zeros(HEADER_SIZE) == Zeros(HEADER_SIZE);
    Extend(out, 0, front, [], 0, 92);
    assert [] + Zeros(0) + front == front;
    Extend(out, 24, my, front, 8, 76);
    ghost var done := front + Zeros(8) + my;
    Extend(out, 32, alternate, done, 0, 60);
    assert done + Zeros(0) == done;
    done := done + alternate;
    Extend(out, 40, first, done, 0, 52);
    assert done + Zeros(0) == done;
    done := done + first;
    Extend(out, 48, last, done, 0, 44);
    assert done + Zeros(0) == done;
  }

  method WriteHeaderEnd(out: array<u8>, disk: Bytes, arrayLba: Bytes, count: Bytes, size: Bytes, sum: Bytes,
                        ghost done: Bytes)
    requires |disk| == 16 && |arrayLba| == 8 && |count| == |size| == |sum| == 4
    requires |done| == 56 && out[..] == done + Zeros(36)
    modifies out
    ensures out[..] == done + disk + arrayLba + count + size + sum
  {
    ghost var d := done;
    Extend(out, 56, disk, d, 0, 36);
    assert d + Zeros(0) == d;
    d := d + disk;
    Extend(out, 72, arrayLba, d, 0, 20);
    assert d + Zeros(0) == d;
    d := d + arrayLba;
    Extend(out, 80, count, d, 0, 12);
    assert d + Zeros(0) == d;
    d := d + count;
    Extend(out, 84, size, d, 0, 8);
    assert d + Zeros(0) == d;
    d := d + size;
    Extend(out, 88, sum, d, 0, 4);
    assert d + Zeros(0) == d;
    d := d + sum;
    assert d + Zeros(0) == d;
  }

  lemma JoinHeader(front: Bytes, a: Bytes, b: Bytes, c: Bytes, d: Bytes, e: Bytes, f: Bytes, g: Bytes, h: Bytes,
                   i: Bytes)
    ensures front + Zeros(8) + a + b + c + d + e + f + g + h + i
         == front + Zeros(4) + (Zeros(4) + a + b + c + d + e + f + g + h + i)
  {
    assert Zeros(8) == Zeros(4) + Zeros(4);
  }

  /** `crc32` over a buffer. */
  method SumOf(b: Bytes) returns (n: nat)
    ensures n == Sum(b)
  {
    var sum := Crc.Crc32(AsBits(b));
    n := sum as nat;
  }

  lemma SpliceChecksum(front: Bytes, old_: Bytes, new_: Bytes, back: Bytes)
    requires |old_| == |new_|
    ensures Splice(front + old_ + back, |front|, new_) == front + new_ + back
  {
  }

  /** `header`. */
  method Header(f: HeaderFields) returns (r: Bytes)
    ensures r == HeaderBytes(f)
  {
    var out := new u8[HEADER_SIZE](_ => 0);
    assert out[..] == Zeros(HEADER_SIZE);
    var my, alternate, first, last := Le64(f.myLba), Le64(f.alternateLba), Le64(f.firstUsable), Le64(f.lastUsable);
    var arrayLba, count, size, sum := Le64(f.arrayLba), Le32(ENTRY_COUNT), Le32(ENTRY_SIZE), Le32(f.entriesSum);
    WriteHeaderStart(out, HeaderFront(), my, alternate, first, last);
    WriteHeaderEnd(out, f.disk, arrayLba, count, size, sum,
                   HeaderFront() + Zeros(8) + my + alternate + first + last);
    JoinHeader(HeaderFront(), my, alternate, first, last, f.disk, arrayLba, count, size, sum);
    assert out[..] == HeaderWith(Zeros(4), f);
    var crc := SumOf(out[..]);
    SpliceChecksum(HeaderFront(), Zeros(4), Le32(crc), HeaderBack(f));
    Put(out, 16, Le32(crc));
    r := out[..];
  }

  /** `pad`: a header out to a whole sector. */
  function Pad(b: Bytes, size: nat): (r: Bytes)
    requires |b| <= size
    ensures |r| == size
  {
    b + Zeros(size - |b|)
  }

  // ----- Protective MBR -----

  /** The 32-bit size field, saturated. */
  function MbrSectors(disk: Disk): (n: nat)
    requires disk.sectors >= 1
    ensures n < U32
  {
    if disk.sectors - 1 < U32 then disk.sectors - 1 else U32 - 1
  }

  const MBR_START: Bytes := [0x00, 0x00, 0x02, 0x00, 0xEE, 0xFF, 0xFF, 0xFF]

  function Mbr(disk: Disk): (b: Bytes)
    requires disk.sectors >= 1 && disk.sectorSize >= 512
    ensures |b| == disk.sectorSize
  {
    Zeros(446) + MBR_START + Le32(1) + Le32(MbrSectors(disk)) + Zeros(48) + [0x55, 0xAA] + Zeros(disk.sectorSize - 512)
  }

  method WriteMbrStart(out: array<u8>, at: nat)
    requires at + 8 <= out.Length
    modifies out
    ensures out[..] == Splice(old(out[..]), at, MBR_START)
  {
    out[at] := 0x00;
    out[at + 1] := 0x00;
    out[at + 2] := 0x02;
    out[at + 3] := 0x00;
    out[at + 4] := 0xEE;
    out[at + 5] := 0xFF;
    out[at + 6] := 0xFF;
    out[at + 7] := 0xFF;
    assert out[..at] == old(out[..at]);
    assert out[at..at + 8] == MBR_START;
    assert out[at + 8..] == old(out[at + 8..]);
    assert out[..] == out[..at] + out[at..at + 8] + out[at + 8..];
  }

  method WriteMbr(out: array<u8>, one: Bytes, sectors: Bytes)
    requires |one| == |sectors| == 4 && out.Length >= 512 && out[..] == Zeros(out.Length)
    modifies out
    ensures out[..] == Zeros(446) + MBR_START + one + sectors + Zeros(48) + [0x55, 0xAA] + Zeros(out.Length - 512)
  {
    var at := 446;
    ghost var n := out.Length;
    assert [] + Zeros(n) + [] == Zeros(n);
    PutNext(out[..], [], n, [], at, MBR_START);
    WriteMbrStart(out, at);
    ghost var done := Zeros(446) + MBR_START;
    assert out[..] == done + Zeros(n - 454);
    Extend(out, at + 8, one, done, 0, n - 454);
    assert done + Zeros(0) == done;
    done := done + one;
    Extend(out, at + 12, sectors, done, 0, n - 458);
    assert done + Zeros(0) == done;
    done := done + sectors;
    Extend(out, 510, [0x55], done, 48, n - 462);
    done := done + Zeros(48) + [0x55];
    Extend(out, 511, [0xAA], done, 0, n - 511);
    assert done + Zeros(0) + [0xAA] == Zeros(446) + MBR_START + one + sectors + Zeros(48) + [0x55, 0xAA];
  }

  /** `protective_mbr`. */
  method ProtectiveMbr(disk: Disk) returns (b: Bytes)
    requires disk.sectors >= 1 && disk.sectorSize >= 512
    ensures b == Mbr(disk)
  {
    var out := new u8[disk.sectorSize](_ => 0);
    assert out[..] == Zeros(disk.sectorSize);
    var sectors := if disk.sectors - 1 < U32 then disk.sectors - 1 else U32 - 1;
    WriteMbr(out, Le32(1), Le32(sectors));
    b := out[..];
  }

  // ----- The whole table -----

  function TypeOf(spec: Spec): Guid {
    match Stored(spec.typeGuid)
    case Some(b) => b
    case None => Zeros(16)
  }

  type Block = b: Bytes | |b| == 128 witness Zeros(128)

  function EntryAt(placements: seq<Placement>, uniques: seq<Guid>, i: nat): Block
    requires i < |placements| <= |uniques|
  {
    Entry(placements[i], TypeOf(placements[i].spec), uniques[i])
  }

  function Blocks(placements: seq<Placement>, uniques: seq<Guid>): (blocks: seq<Block>)
    requires |placements| <= |uniques|
    ensures |blocks| == |placements|
  {
    seq(|placements|, i requires 0 <= i < |placements| => EntryAt(placements, uniques, i))
  }

  ghost predicate AreBlocks(placements: seq<Placement>, uniques: seq<Guid>, blocks: seq<Block>) {
    && |blocks| == |placements| <= |uniques|
    && forall i {:trigger EntryAt(placements, uniques, i)} ::
         0 <= i < |placements| ==> blocks[i] == EntryAt(placements, uniques, i)
  }

  function Concat(blocks: seq<Block>): (b: Bytes)
    ensures |b| == ENTRY_SIZE * |blocks|
  {
    if blocks == [] then [] else Concat(blocks[..|blocks| - 1]) + blocks[|blocks| - 1]
  }

  /** The entry array: the entries, then zeroed room up to 128 of them. */
  function EntryArray(blocks: seq<Block>): (b: Bytes)
    requires |blocks| <= ENTRY_COUNT
    ensures |b| == ARRAY_BYTES
  {
    Concat(blocks) + Zeros(ARRAY_BYTES - ENTRY_SIZE * |blocks|)
  }

  predicate GoodGuid(p: Placement) {
    Stored(p.spec.typeGuid).Some?
  }

  /** The first placement whose type is not a GUID, or the number of placements. */
  function FirstBad(placements: seq<Placement>): (i: nat)
    ensures i <= |placements|
    ensures i < |placements| ==> !GoodGuid(placements[i])
    ensures forall k :: 0 <= k < i ==> GoodGuid(placements[k])
  {
    if placements == [] then 0
    else if !GoodGuid(placements[0]) then 0
    else 1 + FirstBad(placements[1..])
  }

  function PrimaryFields(disk: Disk, id: Identity, entriesSum: nat): HeaderFields
    requires KnownSectorSize(disk.sectorSize) && LastUsable(disk) >= 0
  {
    HeaderFields(1, disk.sectors - 1, 2 + ArraySectors(disk.sectorSize), LastUsable(disk), id.disk, 2, entriesSum)
  }

  function BackupFields(disk: Disk, id: Identity, entriesSum: nat): HeaderFields
    requires KnownSectorSize(disk.sectorSize) && LastUsable(disk) >= 0
  {
    HeaderFields(disk.sectors - 1, 1, 2 + ArraySectors(disk.sectorSize), LastUsable(disk), id.disk,
                 LastUsable(disk) + 1, entriesSum)
  }

  function Regions(disk: Disk, id: Identity, entries: Bytes): (regions: seq<Region>)
    requires KnownSectorSize(disk.sectorSize) && LastUsable(disk) >= 0
    ensures |regions| == 5
  {
    RegionsWith(disk, id, entries, Sum(entries))
  }

  function RegionsWith(disk: Disk, id: Identity, entries: Bytes, sum: nat): (regions: seq<Region>)
    requires KnownSectorSize(disk.sectorSize) && LastUsable(disk) >= 0
    ensures |regions| == 5
  {
    RegionsOf(disk, entries, PrimaryFields(disk, id, sum), BackupFields(disk, id, sum))
  }

  /** The protective MBR, the primary header and its array, the backup array and its header. */
  function RegionsOf(disk: Disk, entries: Bytes, primary: HeaderFields, backup: HeaderFields): (regions: seq<Region>)
    requires KnownSectorSize(disk.sectorSize) && disk.sectors >= 1
    ensures |regions| == 5
  {
    [Region(0, Mbr(disk)),
     Region(primary.myLba, Pad(HeaderBytes(primary), disk.sectorSize)),
     Region(primary.arrayLba, entries),
     Region(backup.arrayLba, entries),
     Region(backup.myLba, Pad(HeaderBytes(backup), disk.sectorSize))]
  }

  function TableOf(layout: seq<Spec>, disk: Disk, id: Identity): Result<seq<Region>, GptError>
    requires OnlyLastGrows(layout) && |layout| <= ENTRY_COUNT
  {
    if PlanOf(layout, disk).Err? then Err(PlanOf(layout, disk).error)
    else
      var placements := PlanOf(layout, disk).value;
      if |id.partitions| != |placements| then Err(WrongIdentityLength(|id.partitions|, |placements|))
      else if FirstBad(placements) < |placements| then
        Err(BadGuid(placements[FirstBad(placements)].spec.typeGuid))
      else Ok(Regions(disk, id, EntryArray(Blocks(placements, id.partitions))))
  }

  lemma {:induction false} FirstBadIs(placements: seq<Placement>, i: nat)
    requires i < |placements| && !GoodGuid(placements[i])
    requires forall k :: 0 <= k < i ==> GoodGuid(placements[k])
    ensures FirstBad(placements) == i
  {
    if i > 0 { FirstBadIs(placements[1..], i - 1); }
  }

  lemma ConcatStep(blocks: seq<Block>, i: nat)
    requires i < |blocks|
    ensures Concat(blocks[..i + 1]) == Concat(blocks[..i]) + blocks[i]
  {
    assert blocks[..i + 1][..i] == blocks[..i];
  }

  /** One turn of the loop of `table`: the entry at `index` follows those before it. */
  method WriteNext(entries: array<u8>, placements: seq<Placement>, uniques: seq<Guid>, index: nat,
                   ghost blocks: seq<Block>, ghost pre: Bytes, ghost room: nat)
    returns (ok: bool)
    requires index < |placements| && AreBlocks(placements, uniques, blocks)
    requires |pre| == ENTRY_SIZE * index && entries[..] == pre + Zeros(ENTRY_SIZE + room)
    modifies entries
    ensures ok == GoodGuid(placements[index])
    ensures ok ==> entries[..] == pre + blocks[index] + Zeros(room)
  {
    RoomForOne(pre, room);
    assert blocks[index] == EntryAt(placements, uniques, index);
    var written := WriteEntry(entries, index * ENTRY_SIZE, placements[index], uniques[index], pre, Zeros(room));
    ok := written.Ok?;
  }

  /** The loop of `table` over the placements: all of them, or up to the first bad GUID. */
  method WriteEntries(entries: array<u8>, placements: seq<Placement>, uniques: seq<Guid>, ghost blocks: seq<Block>)
    returns (bad: nat)
    requires entries[..] == Zeros(ARRAY_BYTES) && |placements| <= ENTRY_COUNT
    requires AreBlocks(placements, uniques, blocks)
    modifies entries
    ensures bad == FirstBad(placements)
    ensures bad == |placements| ==> entries[..] == EntryArray(blocks)
  {
    ghost var pre: Bytes := [];
    ghost var room := ARRAY_BYTES;
    assert pre + Zeros(room) == Zeros(room);
    for index := 0 to |placements|
      invariant room == ARRAY_BYTES - ENTRY_SIZE * index
      invariant pre == Concat(blocks[..index]) && entries[..] == pre + Zeros(room)
      invariant forall k :: 0 <= k < index ==> GoodGuid(placements[k])
    {
      room := room - ENTRY_SIZE;
      var ok := WriteNext(entries, placements, uniques, index, blocks, pre, room);
      if !ok {
        FirstBadIs(placements, index);
        return index;
      }
      ConcatStep(blocks, index);
      pre := pre + blocks[index];
    }
    assert blocks[..|placements|] == blocks;
    return |placements|;
  }

  lemma RoomForOne(pre: Bytes, room: nat)
    ensures pre + Zeros(ENTRY_SIZE + room) == pre + Zeros(ENTRY_SIZE) + Zeros(room)
  {
  }

  /** The end of `table`: where everything goes once the entries are written. */
  method PlaceRegions(disk: Disk, id: Identity, entries: Bytes, sum: nat) returns (regions: seq<Region>)
    requires KnownSectorSize(disk.sectorSize) && LastUsable(disk) >= 0
    ensures regions == RegionsWith(disk, id, entries, sum)
  {
    var arraySectors := DivCeil(ARRAY_BYTES, disk.sectorSize);
    var primaryArrayLba := 2;
    var backupHeaderLba := disk.sectors - 1;
    var backupArrayLba := backupHeaderLba - arraySectors;
    var firstUsable := 2 + arraySectors;
    var lastUsable := backupArrayLba - 1;
    var primaryFields := HeaderFields(1, backupHeaderLba, firstUsable, lastUsable, id.disk, primaryArrayLba, sum);
    var backupFields := HeaderFields(backupHeaderLba, 1, firstUsable, lastUsable, id.disk, backupArrayLba, sum);
    assert primaryFields == PrimaryFields(disk, id, sum);
    assert backupFields == BackupFields(disk, id, sum);
    regions := FiveRegions(disk, entries, primaryFields, backupFields);
  }

  method FiveRegions(disk: Disk, entries: Bytes, primaryFields: HeaderFields, backupFields: HeaderFields)
    returns (regions: seq<Region>)
    requires KnownSectorSize(disk.sectorSize) && disk.sectors >= 1
    ensures regions == RegionsOf(disk, entries, primaryFields, backupFields)
  {
    var primary := Header(primaryFields);
    var backup := Header(backupFields);
    var mbr := ProtectiveMbr(disk);
    regions := [Region(0, mbr),
                Region(primaryFields.myLba, Pad(primary, disk.sectorSize)),
                Region(primaryFields.arrayLba, entries),
                Region(backupFields.arrayLba, entries),
                Region(backupFields.myLba, Pad(backup, disk.sectorSize))];
  }

  lemma BlocksAre(placements: seq<Placement>, uniques: seq<Guid>)
    requires |placements| <= |uniques|
    ensures AreBlocks(placements, uniques, Blocks(placements, uniques))
  {
  }

  /** `table`. */
  method Table(layout: seq<Spec>, disk: Disk, id: Identity) returns (r: Result<seq<Region>, GptError>)
    requires OnlyLastGrows(layout) && |layout| <= ENTRY_COUNT
    ensures r == TableOf(layout, disk, id)
  {
    var planned := Plan(layout, disk);
    if planned.Err? { return Err(planned.error); }
    var placements := planned.value;
    if |id.partitions| != |placements| {
      return Err(WrongIdentityLength(|id.partitions|, |placements|));
    }
    var buffer := new u8[ARRAY_BYTES](_ => 0);
    assert buffer[..] == Zeros(ARRAY_BYTES);
    ghost var blocks := Blocks(placements, id.partitions);
    BlocksAre(placements, id.partitions);
    var bad := WriteEntries(buffer, placements, id.partitions, blocks);
    if bad < |placements| { return Err(BadGuid(placements[bad].spec.typeGuid)); }
    var entriesSum := SumOf(buffer[..]);
    var regions := PlaceRegions(disk, id, buffer[..], entriesSum);
    return Ok(regions);
  }
}
