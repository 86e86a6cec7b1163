/** The `ar` directory of a package: crates/plexos-plex/src/ar.rs. */
module Archive {
  import opened Wrappers
  import opened Text
  import opened Octets

  const MAGIC: Bytes := [0x21, 0x3C, 0x61, 0x72, 0x63, 0x68, 0x3E, 0x0A]
  const HEADER_LEN: nat := 60
  const SIZE_AT: nat := 48
  const SIZE_WIDTH: nat := 10
  const NAME_WIDTH: nat := 16
  const MAX_MEMBERS: nat := 64

  datatype Member = Member(name: string, size: nat, offset: nat)

  datatype Fault = Truncated | NoName | SizeNotText | SizeNotANumber

  datatype Error =
    | NotAnArchive
    | MalformedHeader(index: nat, fault: Fault)
    | TooManyMembers
    | Io

  function Padded(size: nat): nat {
    size + size % 2
  }

  function TrimSlashes(s: string): string {
    if s != "" && s[|s| - 1] == '/' then TrimSlashes(s[..|s| - 1]) else s
  }

  /** What one header says: the member's name and size. */
  function ReadHeader(header: Bytes): Result<(string, nat), Fault> {
    if |header| != HEADER_LEN then Err(Truncated)
    else
      var name := TrimSlashes(TrimEnd(Latin1(header[..NAME_WIDTH])));
      if name == "" then Err(NoName)
      else
        var text := Utf8(header[SIZE_AT..SIZE_AT + SIZE_WIDTH]);
        if text.None? then Err(SizeNotText)
        else
          var size := ParseUnsigned(Trim(text.value), U64_MAX);
          if size.None? then Err(SizeNotANumber) else Ok((name, size.value))
  }

  type HeaderReader = Bytes -> Result<(string, nat), Fault>

  /** The rest of the walk, from a header boundary. */
  function WalkFrom(read: HeaderReader, file: Bytes, offset: nat, members: seq<Member>): Result<seq<Member>, Error>
    decreases MAX_MEMBERS - |members|
  {
    if offset >= |file| then Ok(members)
    else if offset + HEADER_LEN > |file| then Err(MalformedHeader(|members|, Truncated))
    else if |members| >= MAX_MEMBERS then Err(TooManyMembers)
    else
      match read(file[offset..offset + HEADER_LEN])
      case Err(fault) => Err(MalformedHeader(|members|, fault))
      case Ok((name, size)) =>
        WalkFrom(read, file, offset + HEADER_LEN + Padded(size), members + [Member(name, size, offset + HEADER_LEN)])
  }

  function WalkAll(read: HeaderReader, file: Bytes): Result<seq<Member>, Error> {
    if |file| < |MAGIC| || file[..|MAGIC|] != MAGIC then Err(NotAnArchive)
    else WalkFrom(read, file, |MAGIC|, [])
  }

  function DirectoryOf(file: Bytes): Result<seq<Member>, Error> {
    WalkAll(ReadHeader, file)
  }

  // ----- The walker, over a file that may give fewer bytes than asked for -----

  class Source {
    const file: Bytes
    /** Whether reading may fail for a reason other than the file's end. */
    const faulty: bool
    var position: nat

    constructor (file: Bytes, faulty: bool)
      ensures this.file == file && this.faulty == faulty && position == 0
    {
      this.file := file;
      this.faulty := faulty;
      position := 0;
    }

    /** At least one byte when there is one and room for one; `None` is an error. */
    method Read(room: nat) returns (chunk: Option<Bytes>)
      modifies this
      ensures chunk.None? ==> faulty && position == old(position)
      ensures chunk.Some? ==>
                && |chunk.value| <= room && position == old(position) + |chunk.value|
                && (chunk.value == [] <==> room == 0 || old(position) >= |file|)
                && (chunk.value != [] ==> position <= |file| && chunk.value == file[old(position)..position])
    {
      var fails: bool :| true;
      if faulty && fails {
        return None;
      }
      if room == 0 || position >= |file| {
        return Some([]);
      }
      var n: nat :| 1 <= n <= room && position + n <= |file|;
      chunk := Some(file[position..position + n]);
      position := position + n;
    }

    /** Reads until the buffer is full or the file ends. */
    method Fill(length: nat) returns (buffer: Option<Bytes>)
      modifies this
      ensures buffer.None? ==> faulty
      ensures buffer.Some? ==>
                && position == old(position) + |buffer.value| && |buffer.value| <= length
                && (|buffer.value| < length ==> position >= |file|)
                && (buffer.value != [] ==> position <= |file| && buffer.value == file[old(position)..position])
    {
      var filled: Bytes := [];
      while |filled| < length
        invariant |filled| <= length && position == old(position) + |filled|
        invariant filled != [] ==> position <= |file| && filled == file[old(position)..position]
        decreases length - |filled|
      {
        var chunk := Read(length - |filled|);
        if chunk.None? {
          return None;
        }
        if chunk.value == [] {
          break;
        }
        filled := filled + chunk.value;
      }
      return Some(filled);
    }

    method Seek(offset: nat)
      modifies this
      ensures position == offset
    {
      position := offset;
    }
  }

  method Directory(source: Source) returns (r: Result<seq<Member>, Error>)
    requires source.position == 0
    modifies source
    ensures (r == Err(Io) && source.faulty) || r == DirectoryOf(source.file)
  {
    r := Walk(source, ReadHeader);
  }

  method Walk(source: Source, read: HeaderReader) returns (r: Result<seq<Member>, Error>)
    requires source.position == 0
    modifies source
    ensures (r == Err(Io) && source.faulty) || r == WalkAll(read, source.file)
  {
    var magic := source.Fill(|MAGIC|);
    if magic.None? {
      return Err(Io);
    }
    if magic.value != MAGIC {
      return Err(NotAnArchive);
    }
    var members: seq<Member> := [];
    var offset: nat := |MAGIC|;
    while true
      invariant |members| <= MAX_MEMBERS && source.position == offset
      invariant WalkFrom(read, source.file, offset, members) == WalkAll(read, source.file)
      decreases MAX_MEMBERS - |members|
    {
      var header := source.Fill(HEADER_LEN);
      if header.None? {
        return Err(Io);
      }
      if |header.value| == 0 {
        break;
      }
      if |header.value| < HEADER_LEN {
        return Err(MalformedHeader(|members|, Truncated));
      }
      offset := offset + HEADER_LEN;
      if |members| >= MAX_MEMBERS {
        return Err(TooManyMembers);
      }
      var said := read(header.value);
      if said.Err? {
        return Err(MalformedHeader(|members|, said.error));
      }
      var (name, size) := said.value;
      members := members + [Member(name, size, offset)];
      offset := offset + Padded(size);
      source.Seek(offset);
    }
    return Ok(members);
  }
}
