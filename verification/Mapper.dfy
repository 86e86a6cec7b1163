/** The device-mapper table-load payload, as `linux/dm-ioctl.h` lays it out on a little-endian
    machine, and a walker that reads it the way the kernel does. */
module Mapper {
  import opened Wrappers
  import opened Text
  import opened Octets
  import opened LittleEndian
  import opened Verity

  const DM_IOCTL_SIZE: nat := 312
  const DM_TARGET_SPEC_SIZE: nat := 40
  const DM_NAME_LEN: nat := 128
  const DM_READONLY_FLAG: nat := 1
  const TYPE_BYTES: nat := 16

  function Align8(n: nat): (r: nat)
    ensures r % 8 == 0 && n <= r < n + 8
  {
    (n + 7) / 8 * 8
  }

  /** `u32::try_from(n).unwrap_or(u32::MAX)`. */
  function Clamp32(n: nat): (r: nat)
    ensures r < U32
  {
    if n < U32 then n else U32 - 1
  }

  // ----- The layout -----

  function HeaderBytes(name: Bytes, dataSize: nat, targets: nat, flags: nat): (b: Bytes)
    requires |name| < DM_NAME_LEN
    ensures |b| == DM_IOCTL_SIZE
  {
    Le32(4) + Le32(0) + Le32(0) + Le32(dataSize) + Le32(DM_IOCTL_SIZE) + Le32(targets) + Zeros(4) + Le32(flags)
    + Zeros(16) + name + Zeros(264 - |name|)
  }

  function SpecBytes(sectors: nat, next: nat, target: Bytes): (b: Bytes)
    requires |target| < TYPE_BYTES
    ensures |b| == DM_TARGET_SPEC_SIZE
  {
    Le64(0) + Le64(sectors) + Zeros(4) + Le32(next) + target + Zeros(TYPE_BYTES - |target|)
  }

  function ParamsLength(params: Bytes): nat {
    Align8(|params| + 1)
  }

  function Total(params: Bytes): nat {
    DM_IOCTL_SIZE + DM_TARGET_SPEC_SIZE + ParamsLength(params)
  }

  /** Header, one target spec, the parameters and `pad` zeroed bytes. */
  function Payload(name: Bytes, sectors: nat, target: Bytes, params: Bytes, pad: nat): (b: Bytes)
    requires |name| < DM_NAME_LEN && |target| < TYPE_BYTES
    ensures |b| == DM_IOCTL_SIZE + DM_TARGET_SPEC_SIZE + |params| + pad
  {
    HeaderBytes(name, Clamp32(DM_IOCTL_SIZE + DM_TARGET_SPEC_SIZE + |params| + pad), 1, DM_READONLY_FLAG)
    + SpecBytes(sectors, Clamp32(DM_TARGET_SPEC_SIZE + |params| + pad), target)
    + params + Zeros(pad)
  }

  function TableLoad(name: Bytes, sectors: nat, target: Bytes, params: Bytes): (b: Bytes)
    requires |name| < DM_NAME_LEN && |target| < TYPE_BYTES
    ensures |b| == Total(params)
  {
    Payload(name, sectors, target, params, ParamsLength(params) - |params|)
  }

  // ----- Filling the buffer -----

  /** Copies `b` into a buffer filled up to `at - gap` and zero from there on. */
  method Extend(out: array<u8>, at: nat, b: Bytes, ghost done: Bytes, ghost gap: nat, ghost room: nat)
    requires out[..] == done + Zeros(room) && gap + |b| <= room
    requires at == |done| + gap
    modifies out
    ensures out[..] == done + Zeros(gap) + b + Zeros(room - gap - |b|)
  {
    assert out[..] == done + Zeros(room) + [];
    PutNext(out[..], done, room, [], gap, b);
    Put(out, at, b);
  }

  method WriteSix(out: array<u8>, a: Bytes, b: Bytes, c: Bytes, d: Bytes, e: Bytes, f: Bytes, ghost room: nat)
    requires |a| == |b| == |c| == |d| == |e| == |f| == 4 && room >= 24 && out[..] == Zeros(room)
    modifies out
    ensures out[..] == a + b + c + d + e + f + Zeros(room - 24)
  {
    assert [] + Zeros(room) == Zeros(room);
    Extend(out, 0, a, [], 0, room);
    ghost var done := a;
    assert [] + Zeros(0) + a == done;
    Extend(out, 4, b, done, 0, room - 4);
    assert done + Zeros(0) == done;
    done := done + b;
    Extend(out, 8, c, done, 0, room - 8);
    assert done + Zeros(0) == done;
    done := done + c;
    Extend(out, 12, d, done, 0, room - 12);
    assert done + Zeros(0) == done;
    done := done + d;
    Extend(out, 16, e, done, 0, room - 16);
    assert done + Zeros(0) == done;
    done := done + e;
    Extend(out, 20, f, done, 0, room - 20);
    assert done + Zeros(0) == done;
  }

  /** `write_header`. */
  method WriteHeader(out: array<u8>, name: Bytes, dataSize: nat, targets: nat, flags: nat, ghost room: nat)
    requires |name| < DM_NAME_LEN && out[..] == Zeros(DM_IOCTL_SIZE + room)
    modifies out
    ensures out[..] == HeaderBytes(name, dataSize, targets, flags) + Zeros(room)
  {
    ghost var n := DM_IOCTL_SIZE + room;
    var major, minor, patch := Le32(4), Le32(0), Le32(0);
    var size, start, count, flag := Le32(dataSize), Le32(DM_IOCTL_SIZE), Le32(targets), Le32(flags);
    WriteSix(out, major, minor, patch, size, start, count, n);
    ghost var done := major + minor + patch + size + start + count;
    Extend(out, 28, flag, done, 4, n - 24);
    done := done + Zeros(4) + flag;
    Extend(out, 48, name, done, 16, n - 32);
    ghost var head := done + Zeros(16) + name;
    assert Zeros(n - 48 - |name|) == Zeros(264 - |name|) + Zeros(room);
    assert head + (Zeros(264 - |name|) + Zeros(room)) == (head + Zeros(264 - |name|)) + Zeros(room);
  }

  method WriteSpec(out: array<u8>, at: nat, start: Bytes, sectors: Bytes, next: Bytes, target: Bytes, ghost done: Bytes,
                   ghost room: nat)
    requires |start| == |sectors| == 8 && |next| == 4 && |target| < TYPE_BYTES
    requires at == |done| && out[..] == done + Zeros(DM_TARGET_SPEC_SIZE + room)
    modifies out
    ensures out[..] == done + (start + sectors + Zeros(4) + next + target + Zeros(TYPE_BYTES - |target|)) + Zeros(room)
  {
    ghost var n := DM_TARGET_SPEC_SIZE + room;
    ghost var d := done;
    Extend(out, at, start, d, 0, n);
    assert d + Zeros(0) == d;
    d := d + start;
    Extend(out, at + 8, sectors, d, 0, n - 8);
    assert d + Zeros(0) == d;
    d := d + sectors;
    Extend(out, at + 20, next, d, 4, n - 16);
    d := d + Zeros(4) + next;
    Extend(out, at + 24, target, d, 0, n - 24);
    assert d + Zeros(0) == d;
    d := d + target;
    assert Zeros(n - 24 - |target|) == Zeros(TYPE_BYTES - |target|) + Zeros(room);
    assert d + (Zeros(TYPE_BYTES - |target|) + Zeros(room))
        == done + (start + sectors + Zeros(4) + next + target + Zeros(TYPE_BYTES - |target|)) + Zeros(room);
  }

  /** `table_load_buffer`. */
  method TableLoadBuffer(name: Bytes, sectors: nat, target: Bytes, params: Bytes) returns (b: Bytes)
    requires |name| < DM_NAME_LEN && |target| < TYPE_BYTES
    ensures b == TableLoad(name, sectors, target, params)
  {
    var paramsOffset := DM_IOCTL_SIZE + DM_TARGET_SPEC_SIZE;
    var paramsLength := Align8(|params| + 1);
    var total := paramsOffset + paramsLength;
    var buffer := new u8[total](_ => 0);
    ghost var room := DM_TARGET_SPEC_SIZE + paramsLength;
    assert buffer[..] == Zeros(DM_IOCTL_SIZE + room);
    WriteHeader(buffer, name, Clamp32(total), 1, DM_READONLY_FLAG, room);
    var next := Clamp32(DM_TARGET_SPEC_SIZE + paramsLength);
    ghost var header := HeaderBytes(name, Clamp32(total), 1, DM_READONLY_FLAG);
    WriteSpec(buffer, DM_IOCTL_SIZE, Le64(0), Le64(sectors), Le32(next), target, header, paramsLength);
    ghost var done := header + SpecBytes(sectors, next, target);
    Extend(buffer, paramsOffset, params, done, 0, paramsLength);
    assert done + Zeros(0) == done;
    b := buffer[..];
  }

  // ----- The kernel's walk -----

  datatype Target = Target(start: nat, length: nat, kind: Bytes, params: Bytes)

  /** The targets a table-load payload holds and where the last one ends. */
  datatype Walked = Walked(targets: seq<Target>, end: nat)

  /** From the target spec at `at`, `count` specs, each found by the `next` of the one before. */
  function WalkTargets(b: Bytes, at: nat, count: nat): Option<Walked>
    decreases count
  {
    if count == 0 then Some(Walked([], at))
    else if at + DM_TARGET_SPEC_SIZE > |b| then None
    else
      var next := Read32(b[at + 20..at + 24]);
      if next < DM_TARGET_SPEC_SIZE || at + next > |b| then None
      else
        var target := Target(Read64(b[at..at + 8]), Read64(b[at + 8..at + 16]), UntilZero(b[at + 24..at + 40]),
                             UntilZero(b[at + DM_TARGET_SPEC_SIZE..at + next]));
        var rest :- WalkTargets(b, at + next, count - 1);
        Some(Walked([target] + rest.targets, rest.end))
  }

  /** The whole payload: version, size, where the data starts, how many targets. */
  function WalkPayload(b: Bytes): Option<Walked> {
    if |b| < DM_IOCTL_SIZE || Read32(b[0..4]) != 4 || Read32(b[12..16]) != |b| then None
    else WalkTargets(b, Read32(b[16..20]), Read32(b[20..24]))
  }

  function NameOf(b: Bytes): Bytes
    requires |b| >= DM_IOCTL_SIZE
  {
    UntilZero(b[48..48 + DM_NAME_LEN])
  }

  // ----- What the walk finds -----

  lemma HeaderSlices(b: Bytes, v0: Bytes, v1: Bytes, v2: Bytes, size: Bytes, start: Bytes, count: Bytes, tail: Bytes)
    requires |v0| == |v1| == |v2| == |size| == |start| == |count| == 4
    requires b == v0 + v1 + v2 + size + start + count + tail
    ensures b[0..4] == v0 && b[12..16] == size && b[16..20] == start && b[20..24] == count && b[24..] == tail
  {
  }

  lemma SpecSlices(s: Bytes, start: Bytes, sectors: Bytes, next: Bytes, target: Bytes, pad: Bytes)
    requires |start| == |sectors| == 8 && |next| == 4 && |target| + |pad| == 16
    requires s == start + sectors + Zeros(4) + next + target + pad
    ensures s[0..8] == start && s[8..16] == sectors && s[20..24] == next && s[24..40] == target + pad
  {
  }

  lemma OneTarget(b: Bytes, sectors: nat, target: Bytes, params: Bytes)
    requires |b| >= DM_IOCTL_SIZE + DM_TARGET_SPEC_SIZE
    requires Read64(b[312..320]) == 0 && Read64(b[320..328]) == sectors && Read32(b[332..336]) == |b| - DM_IOCTL_SIZE
    requires UntilZero(b[336..352]) == target && UntilZero(b[352..]) == params
    ensures WalkTargets(b, DM_IOCTL_SIZE, 1) == Some(Walked([Target(0, sectors, target, params)], |b|))
  {
    var at := DM_IOCTL_SIZE;
    assert b[at + DM_TARGET_SPEC_SIZE..|b|] == b[352..];
    var none: seq<Target> := [];
    assert WalkTargets(b, |b|, 0) == Some(Walked(none, |b|));
    assert [Target(0, sectors, target, params)] + none == [Target(0, sectors, target, params)];
  }

  lemma SpecReads(sectors: nat, next: nat, target: Bytes, spec: Bytes)
    requires |target| < TYPE_BYTES && spec == SpecBytes(sectors, next, target)
    requires sectors < U64 && next < U32 && 0 !in target
    ensures SpecSays(spec, sectors, next, target)
  {
    var start, length, after := Le64(0), Le64(sectors), Le32(next);
    SpecSlices(spec, start, length, after, target, Zeros(TYPE_BYTES - |target|));
    Read64Inverts(0);
    Read64Inverts(sectors);
    Read32Inverts(next);
    UntilZeroPadded(target, TYPE_BYTES - |target|);
  }

  lemma HeaderReads(name: Bytes, size: nat, flags: nat, b: Bytes, rest: Bytes)
    requires |name| < DM_NAME_LEN && size < U32 && b == HeaderBytes(name, size, 1, flags) + rest
    ensures Read32(b[0..4]) == 4 && Read32(b[12..16]) == size && Read32(b[16..20]) == DM_IOCTL_SIZE
            && Read32(b[20..24]) == 1
  {
    var v0, v1, v2, s, start, count := Le32(4), Le32(0), Le32(0), Le32(size), Le32(DM_IOCTL_SIZE), Le32(1);
    var tail := Zeros(4) + Le32(flags) + Zeros(16) + name + Zeros(264 - |name|) + rest;
    HeaderTail(b, v0 + v1 + v2 + s + start + count, Le32(flags), name, Zeros(264 - |name|), rest);
    HeaderSlices(b, v0, v1, v2, s, start, count, tail);
    Read32Inverts(4);
    Read32Inverts(size);
    Read32Inverts(DM_IOCTL_SIZE);
    Read32Inverts(1);
  }

  lemma HeaderTail(b: Bytes, head: Bytes, flags: Bytes, name: Bytes, pad: Bytes, rest: Bytes)
    requires b == head + Zeros(4) + flags + Zeros(16) + name + pad + rest
    ensures b == head + (Zeros(4) + flags + Zeros(16) + name + pad + rest)
  {
  }

  lemma HeaderOfPayload(name: Bytes, sectors: nat, target: Bytes, params: Bytes, pad: nat, b: Bytes)
    requires |name| < DM_NAME_LEN && |target| < TYPE_BYTES && |b| < U32
    requires b == Payload(name, sectors, target, params, pad)
    ensures Read32(b[0..4]) == 4 && Read32(b[12..16]) == |b| && Read32(b[16..20]) == DM_IOCTL_SIZE
            && Read32(b[20..24]) == 1
  {
    var header := HeaderBytes(name, |b|, 1, DM_READONLY_FLAG);
    var spec := SpecBytes(sectors, DM_TARGET_SPEC_SIZE + |params| + pad, target);
    SplitPayload(b, header, spec, params, Zeros(pad));
    HeaderReads(name, |b|, DM_READONLY_FLAG, b, spec + (params + Zeros(pad)));
  }

  lemma PartSlices(b: Bytes, header: Bytes, spec: Bytes, params: Bytes, pad: Bytes)
    requires |header| == DM_IOCTL_SIZE && |spec| == DM_TARGET_SPEC_SIZE && b == header + spec + params + pad
    ensures b[312..320] == spec[0..8] && b[320..328] == spec[8..16] && b[332..336] == spec[20..24]
    ensures b[336..352] == spec[24..40] && b[352..] == params + pad
  {
    assert b[312..352] == spec;
  }

  predicate SpecSays(spec: Bytes, sectors: nat, next: nat, target: Bytes) {
    && |spec| == DM_TARGET_SPEC_SIZE
    && Read64(spec[0..8]) == 0 && Read64(spec[8..16]) == sectors && Read32(spec[20..24]) == next
    && UntilZero(spec[24..40]) == target
  }

  lemma SpecFromParts(b: Bytes, header: Bytes, spec: Bytes, params: Bytes, pad: nat, sectors: nat, next: nat,
                      target: Bytes)
    requires |header| == DM_IOCTL_SIZE && b == header + spec + params + Zeros(pad) && 0 !in params
    requires SpecSays(spec, sectors, next, target)
    ensures |b| >= DM_IOCTL_SIZE + DM_TARGET_SPEC_SIZE
    ensures Read64(b[312..320]) == 0 && Read64(b[320..328]) == sectors && Read32(b[332..336]) == next
    ensures UntilZero(b[336..352]) == target && UntilZero(b[352..]) == params
  {
    PartSlices(b, header, spec, params, Zeros(pad));
    UntilZeroPadded(params, pad);
  }

  lemma SpecOfPayload(name: Bytes, sectors: nat, target: Bytes, params: Bytes, pad: nat, b: Bytes)
    requires |name| < DM_NAME_LEN && |target| < TYPE_BYTES && 0 !in target && 0 !in params
    requires sectors < U64 && |b| < U32 && b == Payload(name, sectors, target, params, pad)
    ensures |b| >= DM_IOCTL_SIZE + DM_TARGET_SPEC_SIZE
    ensures Read64(b[312..320]) == 0 && Read64(b[320..328]) == sectors && Read32(b[332..336]) == |b| - DM_IOCTL_SIZE
    ensures UntilZero(b[336..352]) == target && UntilZero(b[352..]) == params
  {
    var next := |b| - DM_IOCTL_SIZE;
    SpecReads(sectors, next, target, SpecBytes(sectors, next, target));
    SpecFromParts(b, HeaderBytes(name, |b|, 1, DM_READONLY_FLAG), SpecBytes(sectors, next, target), params, pad,
                  sectors, next, target);
  }

  lemma PaddedReadsBack(name: Bytes, sectors: nat, target: Bytes, params: Bytes, pad: nat, b: Bytes)
    requires |name| < DM_NAME_LEN && |target| < TYPE_BYTES && 0 !in target && 0 !in params
    requires sectors < U64 && |b| < U32 && b == Payload(name, sectors, target, params, pad)
    ensures WalkPayload(b) == Some(Walked([Target(0, sectors, target, params)], |b|))
  {
    HeaderOfPayload(name, sectors, target, params, pad, b);
    SpecOfPayload(name, sectors, target, params, pad, b);
    OneTarget(b, sectors, target, params);
  }

  /** The payload ends on a multiple of eight. */
  lemma PayloadIsAligned(params: Bytes)
    ensures Total(params) % 8 == 0
  {
    var padded := ParamsLength(params);
    assert DM_IOCTL_SIZE + DM_TARGET_SPEC_SIZE == 8 * 44;
  }

  /** The payload holds exactly one target: its length, its type and its parameters come back, and
      it ends where the buffer does. */
  lemma PayloadReadsBack(name: Bytes, sectors: nat, target: Bytes, params: Bytes, b: Bytes)
    requires |name| < DM_NAME_LEN && |target| < TYPE_BYTES && 0 !in target && 0 !in params
    requires sectors < U64 && Total(params) < U32 && b == TableLoad(name, sectors, target, params)
    ensures WalkPayload(b) == Some(Walked([Target(0, sectors, target, params)], |b|))
  {
    PaddedReadsBack(name, sectors, target, params, ParamsLength(params) - |params|, b);
  }

  lemma SplitPayload(b: Bytes, header: Bytes, spec: Bytes, params: Bytes, pad: Bytes)
    requires b == header + spec + params + pad
    ensures b == header + spec + (params + pad) && b == header + (spec + (params + pad))
  {
  }

  const VERITY_TYPE: Bytes := [0x76, 0x65, 0x72, 0x69, 0x74, 0x79]

  /** From an accepted superblock to the kernel: for device names and a hash that hold neither space
      nor null, the walker finds one verity target of the superblock's size whose parameter line is
      the ten arguments, ending at the end of the buffer. */
  lemma KernelSeesTheSuperblock(name: Bytes, block: Bytes, s: Superblock, dataDevice: string, hashDevice: string,
                                rootHash: string, line: string, params: Bytes, b: Bytes)
    requires |name| < DM_NAME_LEN && ParseSuperblock(block) == Ok(s)
    requires OneField(dataDevice) && OneField(hashDevice) && OneField(rootHash) && ' ' !in s.algorithm
    requires Sectors(s) < U64 && Total(params) < U32
    requires line == TableLine(s, dataDevice, hashDevice, rootHash) && params == Encode(line)
    requires b == TableLoad(name, Sectors(s), VERITY_TYPE, params)
    ensures WalkPayload(b)
         == Some(Walked([Target(0, s.dataBlocks * s.dataBlockSize / 512, [0x76, 0x65, 0x72, 0x69, 0x74, 0x79], params)],
                        |b|))
    ensures Utf8(params) == Some(line) && Split(line, ' ') == Arguments(s, dataDevice, hashDevice, rootHash)
  {
    var kind: Bytes := [0x76, 0x65, 0x72, 0x69, 0x74, 0x79];
    TenArguments(block, s, dataDevice, hashDevice, rootHash, line, params);
    PayloadReadsBack(name, Sectors(s), kind, params, b);
  }

  /** The parameters are the table line, and it is the ten arguments. */
  lemma TenArguments(block: Bytes, s: Superblock, dataDevice: string, hashDevice: string, rootHash: string,
                     line: string, params: Bytes)
    requires ParseSuperblock(block) == Ok(s)
    requires OneField(dataDevice) && OneField(hashDevice) && OneField(rootHash) && ' ' !in s.algorithm
    requires line == TableLine(s, dataDevice, hashDevice, rootHash) && params == Encode(line)
    ensures Utf8(params) == Some(line) && Split(line, ' ') == Arguments(s, dataDevice, hashDevice, rootHash)
    ensures 0 !in params
  {
    AcceptedIsUsable(block);
    LineSplitsIntoTen(s, dataDevice, hashDevice, rootHash);
    ZeroBytes(line);
    Utf8InvertsEncode(line);
  }

  lemma NameSlice(b: Bytes, head: Bytes, name: Bytes, rest: Bytes)
    requires |head| == 48 && |name| < DM_NAME_LEN && b == head + name + Zeros(264 - |name|) + rest
    ensures b[48..48 + DM_NAME_LEN] == name + Zeros(DM_NAME_LEN - |name|)
  {
  }

  lemma NameInHeader(name: Bytes, header: Bytes, dataSize: nat, targets: nat, flags: nat, rest: Bytes)
    requires |name| < DM_NAME_LEN && header == HeaderBytes(name, dataSize, targets, flags) && 0 !in name
    ensures NameOf(header + rest) == name
  {
    var head := Le32(4) + Le32(0) + Le32(0) + Le32(dataSize) + Le32(DM_IOCTL_SIZE) + Le32(targets) + Zeros(4)
      + Le32(flags) + Zeros(16);
    NameSlice(header + rest, head, name, rest);
    UntilZeroPadded(name, DM_NAME_LEN - |name|);
  }

  lemma FlagsSlice(b: Bytes, head: Bytes, flags: Bytes, rest: Bytes)
    requires |head| == 28 && |flags| == 4 && b == head + flags + rest
    ensures b[28..32] == flags
  {
  }

  lemma FlagsInHeader(name: Bytes, dataSize: nat, targets: nat, flags: nat, header: Bytes, rest: Bytes)
    requires |name| < DM_NAME_LEN && header == HeaderBytes(name, dataSize, targets, flags) && flags < U32
    ensures Read32((header + rest)[28..32]) == flags
  {
    var head := Le32(4) + Le32(0) + Le32(0) + Le32(dataSize) + Le32(DM_IOCTL_SIZE) + Le32(targets) + Zeros(4);
    var flag := Le32(flags);
    FlagsSlice(header + rest, head, flag, Zeros(16) + name + Zeros(264 - |name|) + rest);
    Read32Inverts(flags);
  }

  /** The table is loaded read-only. */
  lemma TableIsReadOnly(name: Bytes, sectors: nat, target: Bytes, params: Bytes, b: Bytes)
    requires |name| < DM_NAME_LEN && |target| < TYPE_BYTES && b == TableLoad(name, sectors, target, params)
    ensures Read32(b[28..32]) == 1
  {
    var size, next := Clamp32(Total(params)), Clamp32(DM_TARGET_SPEC_SIZE + ParamsLength(params));
    var header := HeaderBytes(name, size, 1, DM_READONLY_FLAG);
    var rest := SpecBytes(sectors, next, target) + params + Zeros(ParamsLength(params) - |params|);
    assert b == header + rest;
    FlagsInHeader(name, size, 1, DM_READONLY_FLAG, header, rest);
  }

  /** The kernel reads the name the device was to have, which is the node's name in `/dev/mapper`. */
  lemma NameReadsBack(name: Bytes, sectors: nat, target: Bytes, params: Bytes, b: Bytes)
    requires |name| < DM_NAME_LEN && |target| < TYPE_BYTES && 0 !in name
    requires b == TableLoad(name, sectors, target, params)
    ensures NameOf(b) == name
  {
    var size := Clamp32(Total(params));
    var header := HeaderBytes(name, size, 1, DM_READONLY_FLAG);
    var next := Clamp32(DM_TARGET_SPEC_SIZE + ParamsLength(params));
    NameInHeader(name, header, size, 1, DM_READONLY_FLAG,
                 SpecBytes(sectors, next, target) + params + Zeros(ParamsLength(params) - |params|));
    assert b == header + (SpecBytes(sectors, next, target) + params + Zeros(ParamsLength(params) - |params|));
  }

  // ----- Device numbers -----

  /** The kernel's 32-bit device number, `new_encode_dev`: twelve bits of major, twenty of minor, the
      low eight bits of the minor below the major and the rest above it. */
  function EncodeDev(major: bv32, minor: bv32): bv32 {
    (minor & 0xFF) | (major << 8) | ((minor & !0xFF) << 12)
  }

  function SplitDev(low: bv32): (bv32, bv32) {
    ((low >> 8) & 0xFFF, (low & 0xFF) | ((low >> 12) & 0xFFF_FF00))
  }

  /** Twelve bits of major and twenty of minor survive, and nothing else could have been written. */
  lemma SplitInvertsEncode(major: bv32, minor: bv32)
    requires major < 0x1000 && minor < 0x10_0000
    ensures SplitDev(EncodeDev(major, minor)) == (major, minor)
  {
  }

  lemma EncodeInvertsSplit(low: bv32)
    ensures SplitDev(low).0 < 0x1000 && SplitDev(low).1 < 0x10_0000
    ensures EncodeDev(SplitDev(low).0, SplitDev(low).1) == low
  {
  }

  // A buffer the kernel has filled, as its bits.

  type Raw = seq<bv8>

  /** `u64::to_ne_bytes` on a little-endian machine, for `n == 8`. */
  function ToBytes(field: bv64, n: nat): (b: Raw)
    ensures |b| == n
  {
    if n == 0 then [] else [(field & 0xFF) as bv8] + ToBytes(field >> 8, n - 1)
  }

  /** `u64::from_ne_bytes`. */
  function FromBytes(b: Raw): bv64 {
    if b == [] then 0 else b[0] as bv64 | (FromBytes(b[1..]) << 8)
  }

  /** `device_numbers`. */
  function DeviceNumbers(b: Raw): (bv32, bv32)
    requires |b| >= 48
  {
    SplitDev((FromBytes(b[40..48]) & 0xFFFF_FFFF) as bv32)
  }

  function Shifted(field: bv64, n: nat): bv64
    decreases n
  {
    if n == 0 then field else Shifted(field >> 8, n - 1)
  }

  lemma LowByteBack(field: bv64, low: bv8, rest: bv64)
    requires low == (field & 0xFF) as bv8 && rest == field >> 8
    ensures low as bv64 | (rest << 8) == field
  {
  }

  lemma FromCons(field: bv64, low: bv8, tail: Raw)
    requires low == (field & 0xFF) as bv8 && FromBytes(tail) == field >> 8
    ensures FromBytes([low] + tail) == field
  {
    assert ([low] + tail)[1..] == tail;
    LowByteBack(field, low, FromBytes(tail));
  }

  lemma {:induction false} FieldReadsBack(field: bv64, n: nat)
    requires Shifted(field, n) == 0
    ensures FromBytes(ToBytes(field, n)) == field
    decreases n
  {
    if n > 0 {
      FieldReadsBack(field >> 8, n - 1);
      FromCons(field, (field & 0xFF) as bv8, ToBytes(field >> 8, n - 1));
    }
  }

  lemma NothingAboveEight(field: bv64)
    ensures Shifted(field, 8) == 0
  {
    assert (((((((field >> 8) >> 8) >> 8) >> 8) >> 8) >> 8) >> 8) >> 8 == 0;
  }

  lemma DeviceOfField(b: Raw, field: bv64, low: bv32, device: (bv32, bv32))
    requires |b| >= 48 && b[40..48] == ToBytes(field, 8)
    requires (field & 0xFFFF_FFFF) as bv32 == low && SplitDev(low) == device
    ensures DeviceNumbers(b) == device
  {
    NothingAboveEight(field);
    FieldReadsBack(field, 8);
  }

  /** The pair the kernel wrote is the pair that is read, whatever surrounds it and whatever the upper
      half of the field holds. */
  lemma DeviceNumbersReadBack(b: Raw, field: bv64, dev: bv32, major: bv32, minor: bv32)
    requires major < 0x1000 && minor < 0x10_0000 && dev == EncodeDev(major, minor)
    requires |b| >= 48 && b[40..48] == ToBytes(field, 8) && (field & 0xFFFF_FFFF) as bv32 == dev
    ensures DeviceNumbers(b) == (major, minor)
  {
    SplitInvertsEncode(major, minor);
    DeviceOfField(b, field, dev, (major, minor));
  }
}
