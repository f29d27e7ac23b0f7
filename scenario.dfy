/** A worked registration sequence on a fresh directory, showing spill-over
    placement and count propagation through the directory's contracts alone. */
module Scenario {
  import opened MemberModel
  import opened MemberCodes
  import opened TreeSpec
  import opened AuthController

  /** Set up the root, then register A and B, both sponsored by the root on
      its left side. A fills the root's empty left slot; B finds that slot
      taken and spills over under A, so B's parent code is A's code although
      its sponsor code is the root's, and both the root's and A's left
      counts take B into account. */
  method SpillOverUnderFirstLeftChild()
    returns (a: RegisterResult, b: RegisterResult, bParent: string, rootLeft: int, aLeft: int)
    ensures a == Registered("M1001") && b == Registered("M1002")
    ensures bParent == "M1001"
    ensures rootLeft == 2 && aLeft == 1
  {
    var d := new Directory();
    var setup := d.SetupRootMember();
    a := RegisterUnderRoot(d);
    b, bParent := SpillUnderFirstChild(d);
    rootLeft := d.members[0].leftCount;
    aLeft := d.members[1].leftCount;
  }

  /** The first registration under a freshly set-up root, on the left. */
  method RegisterUnderRoot(d: Directory) returns (a: RegisterResult)
    requires d.Valid() && d.members == [RootMember()] && d.counter == 1000
    modifies d
    ensures d.Valid() && a == Registered("M1001") && d.counter == 1001
    ensures |d.members| == 2 && SameRecord(d.members[0], RootMember()) && d.parent[1] == 0
    ensures d.members[1] == NewMember("A", "a@example.com", "1111111111", "M1001", "M1000", "M1000", Left)
  {
    RootAndFirstCodes();
    assert HasCode(d.members, "M1000") by { assert d.members[0].memberCode == "M1000"; }
    a := d.Register("A", "a@example.com", "1111111111", "M1000", "left");
  }

  /** A second left registration under the root, once the root's left slot
      holds A: it lands under A, and the counts along the way grow. */
  method SpillUnderFirstChild(d: Directory) returns (b: RegisterResult, bParent: string)
    requires d.Valid() && d.counter == 1001
    requires |d.members| == 2 && SameRecord(d.members[0], RootMember()) && d.parent[1] == 0
    requires d.members[1] == NewMember("A", "a@example.com", "1111111111", "M1001", "M1000", "M1000", Left)
    modifies d
    ensures b == Registered("M1002") && bParent == "M1001"
    ensures |d.members| == 3 && d.members[0].leftCount == 2 && d.members[1].leftCount == 1
  {
    ghost var t1 := d.members;
    assert PlacedAt(t1, d.parent, 1);
    assert HasCode(t1, "M1000") by { assert t1[0].memberCode == "M1000"; }
    assert SpillTarget(t1, 0, Left) == 1;
    assert !IdentityTaken(t1, "b@example.com", "2222222222") by {
      assert t1[0].email != "b@example.com" && t1[0].mobile != "2222222222";
      assert t1[1].email != "b@example.com" && t1[1].mobile != "2222222222";
    }
    b := d.Register("B", "b@example.com", "2222222222", "M1000", "left");
    ThirdCode();
    bParent := d.members[2].parentCode;
    DownlineOfTwoLevels(d.members, d.parent);
  }

  /** The code issued from counter value 1002. */
  lemma ThirdCode()
    ensures MemberCode(1002) == "M1002"
  {
    assert Decimal(1002) == Decimal(100) + "2";
  }

  /** In a directory of three where 1 hangs left of 0 and 2 left of 1, the
      left counts are 2 and 1. */
  lemma DownlineOfTwoLevels(t: seq<Member>, P: seq<nat>)
    requires |t| == 3 && WellLinked(t, P) && Counted(t, P) && P[1] == 0 && P[2] == 1
    requires t[1].position == Left && t[2].position == Left
    ensures t[0].leftCount == 2 && t[1].leftCount == 1
  {
    assert PlacedAt(t, P, 1) && PlacedAt(t, P, 2);
    assert CountedAt(t, P, 0) && CountedAt(t, P, 1);
    assert !InSubtree(P, 1, 0) && InSubtree(P, 1, 2) && !InSubtree(P, 2, 0) && !InSubtree(P, 2, 1);
    assert Subtree(P, 1) == {1, 2};
    assert Subtree(P, 2) == {2};
  }
}
