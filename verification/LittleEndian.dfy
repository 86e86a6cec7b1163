/** Fixed-width unsigned integers in little-endian byte order: `to_le_bytes` and `from_le_bytes`. */
module LittleEndian {
  import opened Octets

  const U16: nat := 0x1_0000
  const U32: nat := 0x1_0000_0000
  const U64: nat := 0x1_0000_0000_0000_0000

  function Le16(n: nat): (b: Bytes)
    ensures |b| == 2
  {
    [(n % 0x100) as u8, (n / 0x100 % 0x100) as u8]
  }

  function Le32(n: nat): (b: Bytes)
    ensures |b| == 4
  {
    Le16(n % U16) + Le16(n / U16)
  }

  function Le64(n: nat): (b: Bytes)
    ensures |b| == 8
  {
    Le32(n % U32) + Le32(n / U32)
  }

  function Read16(b: Bytes): (n: nat)
    requires |b| == 2
    ensures n < U16
  {
    b[0] as nat + 0x100 * b[1] as nat
  }

  function Read32(b: Bytes): (n: nat)
    requires |b| == 4
    ensures n < U32
  {
    Read16(b[..2]) + U16 * Read16(b[2..])
  }

  function Read64(b: Bytes): (n: nat)
    requires |b| == 8
    ensures n < U64
  {
    Read32(b[..4]) + U32 * Read32(b[4..])
  }

  lemma Read16Inverts(n: nat)
    requires n < U16
    ensures Read16(Le16(n)) == n
  {
  }

  lemma Read32Inverts(n: nat)
    requires n < U32
    ensures Read32(Le32(n)) == n
  {
    var low, high := Le16(n % U16), Le16(n / U16);
    assert (low + high)[..2] == low && (low + high)[2..] == high;
    Read16Inverts(n % U16);
    Read16Inverts(n / U16);
  }

  lemma Read64Inverts(n: nat)
    requires n < U64
    ensures Read64(Le64(n)) == n
  {
    var low, high := Le32(n % U32), Le32(n / U32);
    assert (low + high)[..4] == low && (low + high)[4..] == high;
    Read32Inverts(n % U32);
    Read32Inverts(n / U32);
  }

  // ----- Filling a zeroed buffer from the left -----

  function Zeros(n: nat): (b: Bytes)
    ensures |b| == n
  {
    seq(n, i => 0)
  }

  function Splice(s: Bytes, at: nat, b: Bytes): (r: Bytes)
    requires at + |b| <= |s|
    ensures |r| == |s|
  {
    s[..at] + b + s[at + |b|..]
  }

  /** `buf[at..at + b.len()].copy_from_slice(b)`. */
  method Put(buf: array<u8>, at: nat, b: Bytes)
    requires at + |b| <= buf.Length
    modifies buf
    ensures buf[..] == Splice(old(buf[..]), at, b)
  {
    forall i | 0 <= i < |b| {
      buf[at + i] := b[i];
    }
  }

  lemma PutNext(s: Bytes, done: Bytes, room: nat, rest: Bytes, gap: nat, b: Bytes)
    requires s == done + Zeros(room) + rest && gap + |b| <= room
    ensures Splice(s, |done| + gap, b) == done + Zeros(gap) + b + Zeros(room - gap - |b|) + rest
  {
  }
}
