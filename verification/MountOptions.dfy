/** Mount options: the split between the bits of the flags word and the text a file system reads. */
module MountOptions {
  import opened Wrappers
  import opened Text

  type flags = bv64

  /** Option names that are bits, first match first. */
  type Table = seq<(string, flags)>

  const RDONLY: flags := 1
  const NOSUID: flags := 2
  const NODEV: flags := 4
  const NOEXEC: flags := 8
  const NOATIME: flags := 1024
  const BIND: flags := 4096
  const RELATIME: flags := 0x20_0000

  /** Two of the names stand for the absence of other bits. */
  function FlagOptions(): Table {
    [("ro", RDONLY), ("rw", 0), ("defaults", 0), ("nosuid", NOSUID), ("nodev", NODEV), ("noexec", NOEXEC),
     ("noatime", NOATIME), ("relatime", RELATIME), ("bind", BIND)]
  }

  function Lookup(table: Table, option: string): Option<flags>
    decreases |table|
  {
    if table == [] then None
    else if table[0].0 == option then Some(table[0].1)
    else Lookup(table[1..], option)
  }

  function AddBit(bits: flags, found: Option<flags>): flags {
    match found
    case Some(bit) => bits | bit
    case None => bits
  }

  function Bits(table: Table, fields: seq<string>): flags
    decreases |fields|
  {
    if fields == [] then 0
    else AddBit(Bits(table, fields[..|fields| - 1]), Lookup(table, fields[|fields| - 1]))
  }

  /** The fields that are neither empty nor bits, in order. */
  function Data(table: Table, fields: seq<string>): seq<string>
    decreases |fields|
  {
    if fields == [] then []
    else
      var last := fields[|fields| - 1];
      var earlier := Data(table, fields[..|fields| - 1]);
      if last == "" || Lookup(table, last).Some? then earlier else earlier + [last]
  }

  function JoinAll(parts: seq<string>): string {
    if parts == [] then "" else Join(parts, ',')
  }

  /** `parse_options`, over a table in which the empty string is not an option. */
  method ParseOptions(table: Table, options: string) returns (bits: flags, data: string)
    requires Lookup(table, "").None?
    ensures bits == Bits(table, Split(options, ','))
    ensures data == JoinAll(Data(table, Split(options, ',')))
  {
    var fields := Split(options, ',');
    bits := 0;
    var texts: seq<string> := [];
    for i := 0 to |fields|
      invariant bits == Bits(table, fields[..i]) && texts == Data(table, fields[..i])
    {
      assert fields[..i + 1][..i] == fields[..i];
      if fields[i] != "" {
        var found := Lookup(table, fields[i]);
        if found.Some? {
          bits := AddBit(bits, found);
        } else {
          texts := texts + [fields[i]];
        }
      }
    }
    assert fields[..|fields|] == fields;
    data := JoinAll(texts);
  }

  // ----- What the bits mean -----

  predicate Has(bits: flags, bit: flags) {
    bits & bit != 0
  }

  lemma Distribute(a: flags, b: flags, bit: flags)
    ensures (a | b) & bit == (a & bit) | (b & bit)
  {
  }

  lemma NonZeroOr(x: flags, y: flags, z: flags)
    requires z == x | y
    ensures z != 0 <==> x != 0 || y != 0
  {
    if x == 0 { assert x | y == y; }
    OrIsZero(x, y);
  }

  lemma OrIsZero(x: flags, y: flags)
    ensures x | y == 0 <==> x == 0 && y == 0
  {
  }

  lemma OrHas(a: flags, b: flags, bit: flags)
    ensures Has(a | b, bit) <==> Has(a, bit) || Has(b, bit)
  {
    Distribute(a, b, bit);
    NonZeroOr(a & bit, b & bit, (a | b) & bit);
  }

  lemma NothingHas(bit: flags)
    ensures !Has(0, bit)
  {
  }

  lemma AddBitHas(bits: flags, found: Option<flags>, bit: flags)
    ensures Has(AddBit(bits, found), bit) <==> Has(bits, bit) || (found.Some? && Has(found.value, bit))
  {
    match found {
      case Some(b) =>
        OrHas(bits, b, bit);
        assert AddBit(bits, found) == bits | b;
      case None =>
    }
  }

  /** The bit is set by this option of the table and no other. */
  ghost predicate Names(table: Table, option: string, bit: flags) {
    forall other :: Lookup(table, other).Some? && Has(Lookup(table, other).value, bit) <==> other == option
  }

  /** A bit of the flags word is set exactly when its option is among the fields: no option that is
      a bit is lost to the text, and no text sets a bit. */
  lemma {:induction false} BitsAreTheOptions(table: Table, fields: seq<string>, option: string, bit: flags)
    requires Names(table, option, bit)
    ensures Has(Bits(table, fields), bit) <==> option in fields
    decreases |fields|
  {
    if fields == [] {
      NothingHas(bit);
    } else {
      var n := |fields| - 1;
      BitsAreTheOptions(table, fields[..n], option, bit);
      assert fields == fields[..n] + [fields[n]];
      AddBitHas(Bits(table, fields[..n]), Lookup(table, fields[n]), bit);
    }
  }

  /** The text is the other non-empty fields, each as often as it was given. */
  lemma {:induction false} DataIsTheRest(table: Table, fields: seq<string>, option: string)
    ensures multiset(Data(table, fields))[option]
         == if option == "" || Lookup(table, option).Some? then 0 else multiset(fields)[option]
    decreases |fields|
  {
    if fields != [] {
      var n := |fields| - 1;
      DataIsTheRest(table, fields[..n], option);
      assert fields == fields[..n] + [fields[n]];
    }
  }

  /** The fields keep their order, and each alone is kept unless it is empty or an option that is a bit. */
  lemma {:induction false} DataKeepsOrder(table: Table, before: seq<string>, after: seq<string>)
    ensures Data(table, before + after) == Data(table, before) + Data(table, after)
    decreases |after|
  {
    if after == [] {
      assert before + after == before;
    } else {
      var n := |after| - 1;
      assert (before + after)[..|before + after| - 1] == before + after[..n];
      DataKeepsOrder(table, before, after[..n]);
    }
  }

  lemma DataOfOne(table: Table, field: string)
    ensures Data(table, [field]) == if field == "" || Lookup(table, field).Some? then [] else [field]
  {
    assert [field][..0] == [];
  }

  lemma {:induction false} DataIsWithin(table: Table, fields: seq<string>, c: char)
    requires forall i :: 0 <= i < |fields| ==> c !in fields[i]
    ensures forall i :: 0 <= i < |Data(table, fields)| ==> c !in Data(table, fields)[i]
    decreases |fields|
  {
    if fields != [] { DataIsWithin(table, fields[..|fields| - 1], c); }
  }

  /** The text a file system is given splits into exactly the fields that are left, and is empty when there
      are none. */
  lemma TextHoldsTheRest(table: Table, options: string)
    ensures var rest := Data(table, Split(options, ','));
            if rest == [] then JoinAll(rest) == "" else Split(JoinAll(rest), ',') == rest
  {
    JoinSplit(options, ',');
    var rest := Data(table, Split(options, ','));
    DataIsWithin(table, Split(options, ','), ',');
    if rest != [] { SplitJoin(rest, ','); }
  }

  // ----- The table -----

  lemma LookupStep(table: Table, option: string)
    requires table != []
    ensures Lookup(table, option) == if table[0].0 == option then Some(table[0].1) else Lookup(table[1..], option)
  {
  }

  lemma LookupAppend(first: Table, rest: Table, option: string)
    ensures Lookup(first + rest, option)
         == if Lookup(first, option).Some? then Lookup(first, option) else Lookup(rest, option)
    decreases |first|
  {
    if first == [] {
      assert first + rest == rest;
    } else {
      assert (first + rest)[1..] == first[1..] + rest;
      LookupAppend(first[1..], rest, option);
    }
  }

  lemma LookupThree(a: (string, flags), b: (string, flags), c: (string, flags), option: string)
    ensures Lookup([a, b, c], option)
         == if option == a.0 then Some(a.1) else if option == b.0 then Some(b.1) else if option == c.0 then Some(c.1)
            else None
  {
    assert [a, b, c][1..] == [b, c] && [b, c][1..] == [c] && [c][1..] == [];
    LookupStep([a, b, c], option);
    LookupStep([b, c], option);
    LookupStep([c], option);
  }

  /** The nine names of the table, and nothing else. */
  lemma LookupInTable(option: string)
    ensures Lookup(FlagOptions(), option)
         == if option == "ro" then Some(1) else if option == "rw" then Some(0)
            else if option == "defaults" then Some(0)
            else if option == "nosuid" then Some(2) else if option == "nodev" then Some(4)
            else if option == "noexec" then Some(8)
            else if option == "noatime" then Some(1024) else if option == "relatime" then Some(0x20_0000)
            else if option == "bind" then Some(4096) else None
  {
    var a: Table := [("ro", RDONLY), ("rw", 0), ("defaults", 0)];
    var b: Table := [("nosuid", NOSUID), ("nodev", NODEV), ("noexec", NOEXEC)];
    var c: Table := [("noatime", NOATIME), ("relatime", RELATIME), ("bind", BIND)];
    assert FlagOptions() == a + (b + c);
    LookupAppend(a, b + c, option);
    LookupAppend(b, c, option);
    LookupThree(a[0], a[1], a[2], option);
    LookupThree(b[0], b[1], b[2], option);
    LookupThree(c[0], c[1], c[2], option);
  }

  lemma BitsAreSeparate()
    ensures !Has(RDONLY, NOSUID) && !Has(RDONLY, NODEV) && !Has(NOSUID, RDONLY) && !Has(NOSUID, NODEV)
    ensures !Has(NODEV, RDONLY) && !Has(NODEV, NOSUID)
    ensures forall bit: flags :: bit in {RDONLY, NOSUID, NODEV} ==>
              && Has(bit, bit) && !Has(NOEXEC, bit) && !Has(NOATIME, bit)
              && !Has(RELATIME, bit) && !Has(BIND, bit) && !Has(0, bit)
  {
  }

  lemma TableNames(option: string, bit: flags)
    requires || (option == "ro" && bit == RDONLY) || (option == "nosuid" && bit == NOSUID)
             || (option == "nodev" && bit == NODEV)
    ensures Names(FlagOptions(), option, bit)
  {
    BitsAreSeparate();
    forall other
      ensures Lookup(FlagOptions(), other).Some? && Has(Lookup(FlagOptions(), other).value, bit) <==> other == option
    {
      LookupInTable(other);
    }
  }

  // ----- The option strings the boot relies on -----

  function BitsOf(options: string): flags {
    Bits(FlagOptions(), Split(options, ','))
  }

  lemma ThreeFields(a: string, b: string, c: string)
    requires ',' !in a && ',' !in b && ',' !in c
    ensures Split(a + "," + b + "," + c, ',') == [a, b, c]
  {
    SplitWhole(c, ',');
    SplitCons(b, c, ',');
    SplitCons(a, b + [','] + c, ',');
    assert a + "," + b + "," + c == a + [','] + (b + [','] + c);
  }

  lemma OptionDecides(options: string, option: string, bit: flags)
    requires || (option == "ro" && bit == RDONLY) || (option == "nosuid" && bit == NOSUID)
             || (option == "nodev" && bit == NODEV)
    ensures Has(BitsOf(options), bit) <==> option in Split(options, ',')
  {
    TableNames(option, bit);
    BitsAreTheOptions(FlagOptions(), Split(options, ','), option, bit);
  }

  /** `/usr` is read-only, without devices and without set-user-id. */
  lemma UsrOptions()
    ensures Has(BitsOf("ro,nodev,nosuid"), RDONLY)
    ensures Has(BitsOf("ro,nodev,nosuid"), NODEV) && Has(BitsOf("ro,nodev,nosuid"), NOSUID)
  {
    ThreeFields("ro", "nodev", "nosuid");
    assert "ro" + "," + "nodev" + "," + "nosuid" == "ro,nodev,nosuid";
    OptionDecides("ro,nodev,nosuid", "ro", RDONLY);
    OptionDecides("ro,nodev,nosuid", "nodev", NODEV);
    OptionDecides("ro,nodev,nosuid", "nosuid", NOSUID);
  }

  /** `/var` is writable, without devices and without set-user-id. */
  lemma VarOptions()
    ensures !Has(BitsOf("rw,nosuid,nodev"), RDONLY)
    ensures Has(BitsOf("rw,nosuid,nodev"), NODEV) && Has(BitsOf("rw,nosuid,nodev"), NOSUID)
  {
    ThreeFields("rw", "nosuid", "nodev");
    assert "rw" + "," + "nosuid" + "," + "nodev" == "rw,nosuid,nodev";
    OptionDecides("rw,nosuid,nodev", "ro", RDONLY);
    OptionDecides("rw,nosuid,nodev", "nodev", NODEV);
    OptionDecides("rw,nosuid,nodev", "nosuid", NOSUID);
  }
}
