/** Where each partition lands: the placement arithmetic of the GPT writer. */
module GptPlan {
  import opened Wrappers
  import opened Text
  import opened Partition

  const ENTRY_SIZE: nat := 128
  const ENTRY_COUNT: nat := 128
  const MIB: nat := 1024 * 1024
  const MINIMUM_VAR_BYTES: nat := 8 * 1024 * MIB

  datatype Disk = Disk(sectors: nat, sectorSize: nat) {
    function Bytes(): nat { sectors * sectorSize }
  }

  datatype GptError =
    | SectorSize(size: nat)
    | TooSmall(capacity: nat, needed: nat)
    | WrongIdentityLength(given: nat, wanted: nat)
    | BadGuid(text: string)

  datatype Placement = Placement(spec: Spec, firstLba: nat, lastLba: nat)

  function DivCeil(a: nat, b: nat): nat
    requires b > 0
  {
    (a + b - 1) / b
  }

  predicate KnownSectorSize(size: nat) {
    size == 512 || size == 4096
  }

  // ----- The closed form -----

  /** Sectors to a mebibyte, and sectors to the entry array. */
  function Alignment(size: nat): (r: nat)
    requires KnownSectorSize(size)
    ensures r * size == MIB
  {
    if size == 512 then 2048 else 256
  }

  function ArraySectors(size: nat): (r: nat)
    requires KnownSectorSize(size)
    ensures r * size == ENTRY_COUNT * ENTRY_SIZE
  {
    if size == 512 then 32 else 4
  }

  function LastUsable(disk: Disk): int
    requires KnownSectorSize(disk.sectorSize)
  {
    disk.sectors - ArraySectors(disk.sectorSize) - 2
  }

  /** The first partition starts one mebibyte in and each follows the one before it. */
  function FirstOf(layout: seq<Spec>, size: nat, i: nat): nat
    requires KnownSectorSize(size) && i <= |layout|
  {
    Alignment(size) * (1 + SumMib(layout[..i]))
  }

  /** One mebibyte for the front, the fixed partitions, the smallest `/var`, and the backup
      table. */
  predicate Fits(layout: seq<Spec>, disk: Disk)
    requires KnownSectorSize(disk.sectorSize)
  {
    disk.Bytes() >= (1 + SumMib(layout)) * MIB + MINIMUM_VAR_BYTES
                    + (ArraySectors(disk.sectorSize) + 1) * disk.sectorSize
  }

  function PlacementOf(layout: seq<Spec>, disk: Disk, i: nat): Placement
    requires KnownSectorSize(disk.sectorSize) && i < |layout| && LastUsable(disk) >= 0
    requires Mib(layout[i]) > 0 || layout[i].sizeMib.None?
  {
    Placement(layout[i], FirstOf(layout, disk.sectorSize, i),
              if layout[i].sizeMib.None? then LastUsable(disk)
              else FirstOf(layout, disk.sectorSize, i) + Alignment(disk.sectorSize) * Mib(layout[i]) - 1)
  }

  function PlanOf(layout: seq<Spec>, disk: Disk): Result<seq<Placement>, GptError>
    requires OnlyLastGrows(layout)
  {
    if !KnownSectorSize(disk.sectorSize) then Err(SectorSize(disk.sectorSize))
    else if LastUsable(disk) < 0 then Err(TooSmall(disk.Bytes(), MINIMUM_VAR_BYTES))
    else if !Fits(layout, disk) then
      Err(TooSmall(disk.Bytes(), SumMib(layout) * MIB + MINIMUM_VAR_BYTES))
    else
      Ok(seq(|layout|, i requires 0 <= i < |layout| => PlacementOf(layout, disk, i)))
  }

  lemma Scale(a: nat, n: nat, size: nat)
    requires KnownSectorSize(size)
    ensures a * n * size == (a * size) * n
  {
  }

  lemma FirstInBytes(layout: seq<Spec>, size: nat, i: nat)
    requires KnownSectorSize(size) && i <= |layout|
    ensures FirstOf(layout, size, i) * size == (1 + SumMib(layout[..i])) * MIB
  {
    Scale(Alignment(size), 1 + SumMib(layout[..i]), size);
  }

  lemma FirstStep(layout: seq<Spec>, size: nat, i: nat)
    requires KnownSectorSize(size) && i < |layout|
    ensures FirstOf(layout, size, i + 1) == FirstOf(layout, size, i) + Alignment(size) * Mib(layout[i])
  {
    SumMibStep(layout, i);
  }

  /** A boundary past the usable area means the layout does not fit. */
  lemma OverrunMeansTooSmall(layout: seq<Spec>, disk: Disk, i: nat)
    requires KnownSectorSize(disk.sectorSize) && i <= |layout|
    requires FirstOf(layout, disk.sectorSize, i) > LastUsable(disk) + 1
    ensures !Fits(layout, disk)
  {
    FirstInBytes(layout, disk.sectorSize, i);
    SumMibGrows(layout, i, |layout|);
    assert layout[..|layout|] == layout;
  }

  /** What is left for the last partition decides the rest. */
  lemma RemainderDecides(layout: seq<Spec>, disk: Disk)
    requires OnlyLastGrows(layout) && KnownSectorSize(disk.sectorSize)
    ensures Fits(layout, disk) <==>
              (LastUsable(disk) + 1 - FirstOf(layout, disk.sectorSize, |layout| - 1)) * disk.sectorSize
              >= MINIMUM_VAR_BYTES
  {
    var n := |layout| - 1;
    FirstInBytes(layout, disk.sectorSize, n);
    SumMibStep(layout, n);
    assert layout[..|layout|] == layout;
  }

  /** `fixed_bytes`. */
  method FixedBytes(layout: seq<Spec>) returns (sum: nat)
    ensures sum == SumMib(layout) * MIB
  {
    sum := 0;
    for i := 0 to |layout|
      invariant sum == SumMib(layout[..i]) * MIB
    {
      SumMibStep(layout, i);
      if layout[i].sizeMib.Some? {
        sum := sum + layout[i].sizeMib.value * MIB;
      }
    }
    assert layout[..|layout|] == layout;
  }

  lemma SectorsOf(mib: nat, size: nat)
    requires KnownSectorSize(size)
    ensures mib * MIB / size == Alignment(size) * mib
  {
  }

  lemma AlreadyAligned(a: nat, n: nat)
    requires a == 2048 || a == 256
    ensures DivCeil(a * n, a) * a == a * n
  {
  }

  /** A partition of a whole number of mebibytes leaves the cursor aligned: rounding up is idle. */
  lemma CursorStep(layout: seq<Spec>, size: nat, i: nat)
    requires KnownSectorSize(size) && i < |layout| && layout[i].sizeMib.Some?
    ensures layout[i].sizeMib.value * MIB / size == Alignment(size) * Mib(layout[i])
    ensures var next := FirstOf(layout, size, i) + layout[i].sizeMib.value * MIB / size;
            next == FirstOf(layout, size, i + 1) && DivCeil(next, Alignment(size)) * Alignment(size) == next
  {
    FirstStep(layout, size, i);
    SectorsOf(layout[i].sizeMib.value, size);
    AlreadyAligned(Alignment(size), 1 + SumMib(layout[..i + 1]));
  }

  /** Refused at partition `i`: the layout does not fit. */
  lemma RefusedAt(layout: seq<Spec>, disk: Disk, i: nat)
    requires OnlyLastGrows(layout) && KnownSectorSize(disk.sectorSize) && i < |layout| && LastUsable(disk) >= 0
    requires PlacementOf(layout, disk, i).lastLba > LastUsable(disk)
             || PlacementOf(layout, disk, i).firstLba > LastUsable(disk)
    ensures !Fits(layout, disk)
  {
    if i < |layout| - 1 {
      FirstStep(layout, disk.sectorSize, i);
      OverrunMeansTooSmall(layout, disk, i + 1);
    } else {
      RemainderDecides(layout, disk);
    }
  }

  function Start(size: nat): (cursor: nat)
    requires KnownSectorSize(size)
    ensures cursor == Alignment(size)
  {
    DivCeil(2 + ArraySectors(size), Alignment(size)) * Alignment(size)
  }

  /** The loop of `plan`: every placement of the closed form, or nothing when one overruns. */
  method Place(layout: seq<Spec>, disk: Disk, lastUsable: nat, alignment: nat, firstUsable: nat)
    returns (r: Option<seq<Placement>>)
    requires OnlyLastGrows(layout) && KnownSectorSize(disk.sectorSize) && lastUsable == LastUsable(disk)
    requires alignment == Alignment(disk.sectorSize) && firstUsable == 2 + ArraySectors(disk.sectorSize)
    ensures r.None? ==> !Fits(layout, disk)
    ensures r.Some? ==>
              && |r.value| == |layout|
              && forall k :: 0 <= k < |layout| ==> r.value[k] == PlacementOf(layout, disk, k)
  {
    var placements: seq<Placement> := [];
    var cursor := DivCeil(firstUsable, alignment) * alignment;
    assert cursor == Start(disk.sectorSize);
    assert layout[..0] == [];
    for i := 0 to |layout|
      invariant cursor == FirstOf(layout, disk.sectorSize, i) || (i == |layout| && layout[i - 1].sizeMib.None?)
      invariant |placements| == i
      invariant forall k :: 0 <= k < i ==> placements[k] == PlacementOf(layout, disk, k)
    {
      var spec := layout[i];
      var firstLba := cursor;
      var lastLba := lastUsable;
      if spec.sizeMib.Some? {
        CursorStep(layout, disk.sectorSize, i);
        var sectors := spec.sizeMib.value * MIB / disk.sectorSize;
        lastLba := firstLba + sectors - 1;
        cursor := DivCeil(lastLba + 1, alignment) * alignment;
      }
      var placement := Placement(spec, firstLba, lastLba);
      assert placement == PlacementOf(layout, disk, i);
      if lastLba > lastUsable || firstLba > lastUsable {
        RefusedAt(layout, disk, i);
        return None;
      }
      placements := placements + [placement];
    }
    return Some(placements);
  }

  /** `plan`. */
  method Plan(layout: seq<Spec>, disk: Disk) returns (r: Result<seq<Placement>, GptError>)
    requires OnlyLastGrows(layout)
    ensures r == PlanOf(layout, disk)
  {
    var size := disk.sectorSize;
    if size != 512 && size != 4096 { return Err(SectorSize(size)); }
    var arraySectors := DivCeil(ENTRY_COUNT * ENTRY_SIZE, size);
    var alignment := MIB / size;
    assert arraySectors == ArraySectors(size) && alignment == Alignment(size);
    if disk.sectors < arraySectors + 2 {
      return Err(TooSmall(disk.Bytes(), MINIMUM_VAR_BYTES));
    }
    var fixed := FixedBytes(layout);
    var placed := Place(layout, disk, disk.sectors - (arraySectors + 2), alignment, 2 + arraySectors);
    if placed.None? {
      return Err(TooSmall(disk.Bytes(), fixed + MINIMUM_VAR_BYTES));
    }
    var placements := placed.value;
    RemainderDecides(layout, disk);
    var last := placements[|placements| - 1];
    assert last == PlacementOf(layout, disk, |layout| - 1);
    if (last.lastLba - last.firstLba + 1) * size < MINIMUM_VAR_BYTES {
      return Err(TooSmall(disk.Bytes(), fixed + MINIMUM_VAR_BYTES));
    }
    assert placements == seq(|layout|, i requires 0 <= i < |layout| => PlacementOf(layout, disk, i));
    return Ok(placements);
  }

  // ----- What a plan promises -----

  predicate Aligned(p: Placement, size: nat)
    requires KnownSectorSize(size)
  {
    p.firstLba % Alignment(size) == 0
  }

  /** Inside the usable area that a GPT header describes: past the primary array, before the
      backup one. */
  predicate Usable(p: Placement, disk: Disk)
    requires KnownSectorSize(disk.sectorSize)
  {
    2 + ArraySectors(disk.sectorSize) <= p.firstLba <= p.lastLba <= LastUsable(disk)
  }

  function SizeInBytes(p: Placement, size: nat): int {
    (p.lastLba - p.firstLba + 1) * size
  }

  lemma AlignedProduct(a: nat, n: nat)
    requires a == 2048 || a == 256
    ensures (a * n) % a == 0
  {
  }

  lemma FirstGrows(layout: seq<Spec>, size: nat, i: nat, j: nat)
    requires KnownSectorSize(size) && i <= j <= |layout|
    ensures FirstOf(layout, size, i) <= FirstOf(layout, size, j)
  {
    SumMibGrows(layout, i, j);
    var a, m, n := Alignment(size), 1 + SumMib(layout[..i]), 1 + SumMib(layout[..j]);
    assert a * m <= a * n;
  }

  lemma SizedBytes(a: nat, mib: nat, size: nat)
    requires KnownSectorSize(size) && a == Alignment(size)
    ensures (a * mib) * size == mib * MIB
  {
  }

  /** Every placement is aligned, inside the usable area and of exactly the size asked for; the
      last one ends where the usable area does and is no smaller than the minimum. */
  lemma PlacementIsSound(layout: seq<Spec>, disk: Disk, i: nat)
    requires OnlyLastGrows(layout) && PlanOf(layout, disk).Ok? && i < |layout|
    ensures |PlanOf(layout, disk).value| == |layout|
    ensures var p := PlanOf(layout, disk).value[i];
            && p.spec == layout[i]
            && Aligned(p, disk.sectorSize)
            && Usable(p, disk)
            && (i < |layout| - 1 ==> SizeInBytes(p, disk.sectorSize) == layout[i].sizeMib.value * MIB)
            && (i == |layout| - 1 ==>
                  && p.lastLba == LastUsable(disk)
                  && SizeInBytes(p, disk.sectorSize) >= MINIMUM_VAR_BYTES)
  {
    var size, n := disk.sectorSize, |layout| - 1;
    var p := PlacementOf(layout, disk, i);
    AlignedProduct(Alignment(size), 1 + SumMib(layout[..i]));
    RemainderDecides(layout, disk);
    FirstGrows(layout, size, i, n);
    assert FirstOf(layout, size, 0) == Alignment(size) by { assert layout[..0] == []; }
    FirstGrows(layout, size, 0, i);
    if i < n {
      FirstStep(layout, size, i);
      FirstGrows(layout, size, i + 1, n);
      SizedBytes(Alignment(size), Mib(layout[i]), size);
    }
  }

  /** Placements come in the order of the layout and do not overlap. */
  lemma PlacementsAreDisjoint(layout: seq<Spec>, disk: Disk, i: nat, j: nat)
    requires OnlyLastGrows(layout) && PlanOf(layout, disk).Ok? && i < j < |layout|
    ensures PlanOf(layout, disk).value[i].lastLba < PlanOf(layout, disk).value[j].firstLba
  {
    FirstStep(layout, disk.sectorSize, i);
    FirstGrows(layout, disk.sectorSize, i + 1, j);
  }

  /** No gap is left between one partition and the next. */
  lemma PlacementsAreContiguous(layout: seq<Spec>, disk: Disk, i: nat)
    requires OnlyLastGrows(layout) && PlanOf(layout, disk).Ok? && i + 1 < |layout|
    ensures PlanOf(layout, disk).value[i].lastLba + 1 == PlanOf(layout, disk).value[i + 1].firstLba
  {
    FirstStep(layout, disk.sectorSize, i);
  }

  /** Exactly which disks take the frozen layout, and which error the others get. */
  lemma FrozenLayoutFits(disk: Disk)
    ensures OnlyLastGrows(Layout())
    ensures PlanOf(Layout(), disk).Ok? <==>
              && (disk.sectorSize == 512 || disk.sectorSize == 4096)
              && disk.sectors * disk.sectorSize
                 >= 2625 * MIB + 8 * 1024 * MIB + ENTRY_COUNT * ENTRY_SIZE + disk.sectorSize
    ensures PlanOf(Layout(), disk) == Err(SectorSize(disk.sectorSize)) <==>
              disk.sectorSize != 512 && disk.sectorSize != 4096
    ensures PlanOf(Layout(), disk).Err? ==>
              || PlanOf(Layout(), disk) == Err(SectorSize(disk.sectorSize))
              || PlanOf(Layout(), disk) == Err(TooSmall(disk.Bytes(), 8 * 1024 * MIB))
              || PlanOf(Layout(), disk) == Err(TooSmall(disk.Bytes(), 2624 * MIB + 8 * 1024 * MIB))
  {
    FrozenLayout();
  }

  /** The size a refusal reports as needed is not enough: a disk of exactly that many bytes is
      refused too. */
  lemma ReportedNeedIsNotEnough(disk: Disk)
    requires KnownSectorSize(disk.sectorSize) && disk.Bytes() == 2624 * MIB + MINIMUM_VAR_BYTES
    ensures OnlyLastGrows(Layout())
    ensures PlanOf(Layout(), disk) == Err(TooSmall(disk.Bytes(), disk.Bytes()))
  {
    FrozenLayoutFits(disk);
    FrozenLayout();
  }

  /** A larger disk with sectors of the same size is never refused where a smaller one fits. */
  lemma LargerDiskFits(layout: seq<Spec>, small: Disk, large: Disk)
    requires OnlyLastGrows(layout) && PlanOf(layout, small).Ok?
    requires small.sectorSize == large.sectorSize && small.sectors <= large.sectors
    ensures PlanOf(layout, large).Ok?
    ensures forall i :: 0 <= i < |layout| - 1 ==>
                          PlanOf(layout, large).value[i] == PlanOf(layout, small).value[i]
  {
  }
}
