/** The frozen on-disk layout: which partitions exist, in which order, and how large they are. */
module Partition {
  import opened Wrappers

  /** `sizeMib` is absent for the partition that takes the remainder of the disk. */
  datatype Spec = Spec(name: string, typeGuid: string, sizeMib: Option<nat>)

  datatype Slot = A | B

  function UsrLabel(slot: Slot): string {
    if slot.A? then "usr_a" else "usr_b"
  }

  function VerityLabel(slot: Slot): string {
    if slot.A? then "usr_a_hash" else "usr_b_hash"
  }

  /** A GUID as text, group by group. */
  function Hyphenated(a: string, b: string, c: string, d: string, e: string): string {
    a + "-" + b + "-" + c + "-" + d + "-" + e
  }

  const LABEL_ESP := "esp"
  const LABEL_VAR := "var"
  const GUID_ESP := Hyphenated("c12a7328", "f81f", "11d2", "ba4b", "00a0c93ec93b")
  const GUID_USR := Hyphenated("8484680c", "9521", "48c6", "9c11", "b0720656f69e")
  const GUID_USR_VERITY := Hyphenated("77ff5f63", "e7b6", "4633", "acf4", "1565b864c0e6")
  const GUID_VAR := Hyphenated("4d21b016", "b534", "45c2", "a9fb", "5c16e091fd2d")

  function Layout(): (layout: seq<Spec>)
    ensures |layout| == 6
  {
    [Spec(LABEL_ESP, GUID_ESP, Some(512)),
     Spec(UsrLabel(A), GUID_USR, Some(1024)),
     Spec(VerityLabel(A), GUID_USR_VERITY, Some(32)),
     Spec(UsrLabel(B), GUID_USR, Some(1024)),
     Spec(VerityLabel(B), GUID_USR_VERITY, Some(32)),
     Spec(LABEL_VAR, GUID_VAR, None)]
  }

  /** Every partition has a positive size but the last, which has none. */
  predicate OnlyLastGrows(layout: seq<Spec>) {
    && 1 <= |layout|
    && layout[|layout| - 1].sizeMib.None?
    && forall i :: 0 <= i < |layout| - 1 ==> layout[i].sizeMib.Some? && layout[i].sizeMib.value > 0
  }

  function Mib(spec: Spec): nat {
    if spec.sizeMib.Some? then spec.sizeMib.value else 0
  }

  function SumMib(layout: seq<Spec>): nat {
    if layout == [] then 0 else SumMib(layout[..|layout| - 1]) + Mib(layout[|layout| - 1])
  }

  lemma SumMibStep(layout: seq<Spec>, i: nat)
    requires i < |layout|
    ensures SumMib(layout[..i + 1]) == SumMib(layout[..i]) + Mib(layout[i])
  {
    assert layout[..i + 1][..i] == layout[..i];
  }

  lemma {:induction false} SumMibGrows(layout: seq<Spec>, i: nat, j: nat)
    requires i <= j <= |layout|
    ensures SumMib(layout[..i]) <= SumMib(layout[..j])
  {
    if i < j {
      SumMibGrows(layout, i, j - 1);
      SumMibStep(layout, j - 1);
    }
  }

  /** Six partitions in this order, of these sizes, the last one growing. */
  lemma FrozenLayout()
    ensures OnlyLastGrows(Layout())
    ensures SumMib(Layout()) == 2624
    ensures forall i :: 0 <= i < 6 ==>
              && Layout()[i].name == ["esp", "usr_a", "usr_a_hash", "usr_b", "usr_b_hash", "var"][i]
              && Layout()[i].sizeMib == [Some(512), Some(1024), Some(32), Some(1024), Some(32), None][i]
  {
    var layout := Layout();
    SumMibStep(layout, 0);
    SumMibStep(layout, 1);
    SumMibStep(layout, 2);
    SumMibStep(layout, 3);
    SumMibStep(layout, 4);
    SumMibStep(layout, 5);
    assert layout[..6] == layout;
  }
}
