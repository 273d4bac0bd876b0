/** A concrete binding: three highlighted runs around a plain one. */
module SlotExamples {
  import opened Wrappers
  import opened FieldRules
  import opened SlotBinding

  /** The three highlighted runs read "A", "B" and "C"; the plain run,
      whose text is also "A", is not touched, and neither is a second text
      node of a slot. */
  lemma ThreeSlots(rs: seq<Run>, d: Data)
    requires rs == [Run(Some("yellow"), ["x"]), Run(None, ["A"]), Run(Some("yellow"), ["y", "z"]), Run(Some("yellow"), ["w"])]
    requires d == Data("A", "B", "C", "", "")
    ensures Bound(rs, d) == [Run(Some("yellow"), ["A"]), Run(None, ["A"]), Run(Some("yellow"), ["B", "z"]), Run(Some("yellow"), ["C"])]
  {
    ThreeSlotPositions(rs);
    FirstSlot(rs, d);
    SecondSlot(rs, d);
    ThirdSlot(rs, d);
    PlainRun(rs, d);
  }

  lemma FirstSlot(rs: seq<Run>, d: Data)
    requires rs == [Run(Some("yellow"), ["x"]), Run(None, ["A"]), Run(Some("yellow"), ["y", "z"]), Run(Some("yellow"), ["w"])]
    requires d == Data("A", "B", "C", "", "")
    requires SlotPositions(rs) == [0, 2, 3]
    ensures Bound(rs, d)[0] == Run(Some("yellow"), ["A"])
  {
    BoundSlot(rs, d, 0);
  }

  lemma SecondSlot(rs: seq<Run>, d: Data)
    requires rs == [Run(Some("yellow"), ["x"]), Run(None, ["A"]), Run(Some("yellow"), ["y", "z"]), Run(Some("yellow"), ["w"])]
    requires d == Data("A", "B", "C", "", "")
    requires SlotPositions(rs) == [0, 2, 3]
    ensures Bound(rs, d)[2] == Run(Some("yellow"), ["B", "z"])
  {
    BoundSlot(rs, d, 1);
    assert ["B"] + ["y", "z"][1..] == ["B", "z"];
  }

  lemma ThirdSlot(rs: seq<Run>, d: Data)
    requires rs == [Run(Some("yellow"), ["x"]), Run(None, ["A"]), Run(Some("yellow"), ["y", "z"]), Run(Some("yellow"), ["w"])]
    requires d == Data("A", "B", "C", "", "")
    requires SlotPositions(rs) == [0, 2, 3]
    ensures Bound(rs, d)[3] == Run(Some("yellow"), ["C"])
  {
    BoundSlot(rs, d, 2);
  }

  lemma PlainRun(rs: seq<Run>, d: Data)
    requires rs == [Run(Some("yellow"), ["x"]), Run(None, ["A"]), Run(Some("yellow"), ["y", "z"]), Run(Some("yellow"), ["w"])]
    requires d == Data("A", "B", "C", "", "")
    requires SlotPositions(rs) == [0, 2, 3]
    ensures Bound(rs, d)[1] == Run(None, ["A"])
  {
    BoundLeavesOthers(rs, d, 1);
  }

  lemma ThreeSlotPositions(rs: seq<Run>)
    requires rs == [Run(Some("yellow"), ["x"]), Run(None, ["A"]), Run(Some("yellow"), ["y", "z"]), Run(Some("yellow"), ["w"])]
    ensures SlotPositions(rs) == [0, 2, 3]
  {
    assert SlotPositions(rs[..1]) == [0] by {
      assert rs[..1][..0] == [];
    }
    assert SlotPositions(rs[..2]) == [0] by {
      assert rs[..2][..1] == rs[..1];
    }
    assert SlotPositions(rs[..3]) == [0, 2] by {
      assert rs[..3][..2] == rs[..2];
    }
    assert rs[..3] == rs[..|rs| - 1];
  }
}
