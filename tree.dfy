/** The shape of the binary referral tree, stated over the member table `t`
    (ids are indices) and a ghost parent table `P` (`P[j]` is the index of
    the member whose child `j` is). These are the specification functions
    the directory's methods are proved against. */
module TreeSpec {
  import opened MemberModel

  /** Every child reference points forward, to a member created later. */
  ghost predicate LinksForward(t: seq<Member>) {
    forall i :: 0 <= i < |t| ==>
      (t[i].leftMember.Some? ==> i < t[i].leftMember.value < |t|) &&
      (t[i].rightMember.Some? ==> i < t[i].rightMember.value < |t|)
  }

  /** A child reference of member `i` on side `d` names a member whose
      parent is `i` and whose position is `d`. */
  ghost predicate LinkAgrees(t: seq<Member>, P: seq<nat>, i: nat, link: Option<nat>, d: Side)
    requires |P| == |t|
  {
    link.Some? ==> link.value < |t| && P[link.value] == i && t[link.value].position == d
  }

  /** Member `i`'s two child references agree with the children's parents
      and positions. */
  ghost predicate LinksAt(t: seq<Member>, P: seq<nat>, i: nat)
    requires |P| == |t| && i < |t|
  {
    LinkAgrees(t, P, i, t[i].leftMember, Left) && LinkAgrees(t, P, i, t[i].rightMember, Right)
  }

  /** Member `j` (not the root) sits in the slot named by its position under
      a parent created before it. */
  ghost predicate PlacedAt(t: seq<Member>, P: seq<nat>, j: nat)
    requires |P| == |t| && 0 < j < |t|
  {
    P[j] < j && t[j].position != Root && Child(t[P[j]], t[j].position) == Some(j)
  }

  /** The tree's shape: member 0 is the single root; every other member sits
      in the slot named by its position under a parent created before it;
      and every child reference agrees with the child's parent and position. */
  ghost predicate WellLinked(t: seq<Member>, P: seq<nat>) {
    |P| == |t| &&
    LinksForward(t) &&
    (|t| > 0 ==> t[0].position == Root) &&
    (forall j :: 0 < j < |t| ==> PlacedAt(t, P, j)) &&
    (forall i :: 0 <= i < |t| ==> LinksAt(t, P, i))
  }

  /** Exactly one member holds the root position. */
  lemma RootIsUnique(t: seq<Member>, P: seq<nat>, i: nat)
    requires WellLinked(t, P) && i < |t|
    ensures t[i].position == Root <==> i == 0
  {
    if i > 0 {
      assert PlacedAt(t, P, i);
    }
  }

  /** Every member other than the root was placed under an earlier member. */
  lemma ParentsBeforeOf(t: seq<Member>, P: seq<nat>)
    requires WellLinked(t, P)
    ensures ParentsBefore(P)
  {
    forall j | 0 < j < |P|
      ensures P[j] < j
    {
      assert PlacedAt(t, P, j);
    }
  }

  /** The reverse lookup finds exactly the parent: a member that references
      `x` as a child is `x`'s parent, and only the root has no parent. */
  lemma {:induction false} ReverseLookupIsParent(t: seq<Member>, P: seq<nat>, x: nat)
    requires WellLinked(t, P) && x < |t|
    ensures forall i :: 0 <= i < |t| && (t[i].leftMember == Some(x) || t[i].rightMember == Some(x))
              ==> x > 0 && i == P[x]
    ensures x > 0 ==> P[x] < x && (t[P[x]].leftMember == Some(x) || t[P[x]].rightMember == Some(x))
  {
    forall i | 0 <= i < |t| && (t[i].leftMember == Some(x) || t[i].rightMember == Some(x))
      ensures x > 0 && i == P[x]
    {
      assert LinksAt(t, P, i);
    }
    if x > 0 {
      assert PlacedAt(t, P, x);
    }
  }

  // ---------------------------------------------------------------------
  // Subtrees and downline counts

  /** `j` lies in the subtree rooted at `c`: climbing parents from `j`
      reaches `c`. */
  ghost predicate InSubtree(P: seq<nat>, c: nat, j: nat)
    decreases j
  {
    j == c || (0 < j < |P| && P[j] < j && InSubtree(P, c, P[j]))
  }

  /** The members of the subtree rooted at `c`. */
  ghost function Subtree(P: seq<nat>, c: nat): set<nat> {
    set j: nat | j < |P| && InSubtree(P, c, j)
  }

  /** The size of the subtree a child reference points to (0 when null). */
  ghost function SubtreeSize(P: seq<nat>, link: Option<nat>): nat {
    if link.None? then 0 else |Subtree(P, link.value)|
  }

  /** Member `i`'s left and right counts are the sizes of the subtrees
      under its left and right children. */
  ghost predicate CountedAt(t: seq<Member>, P: seq<nat>, i: nat)
    requires i < |t|
  {
    t[i].leftCount == SubtreeSize(P, t[i].leftMember) &&
    t[i].rightCount == SubtreeSize(P, t[i].rightMember)
  }

  /** The downline invariant: every member's left and right counts are the
      sizes of the subtrees under its left and right children. */
  ghost predicate Counted(t: seq<Member>, P: seq<nat>) {
    |P| == |t| && forall i :: 0 <= i < |t| ==> CountedAt(t, P, i)
  }

  /** A subtree holds only members created no earlier than its root. */
  lemma {:induction false} InSubtreeBelow(P: seq<nat>, c: nat, j: nat)
    requires InSubtree(P, c, j)
    ensures c <= j
    decreases j
  {
    if j != c {
      InSubtreeBelow(P, c, P[j]);
    }
  }

  /** Appending a member to the parent table leaves every earlier member's
      ancestry unchanged. */
  lemma {:induction false} InSubtreePrefix(P: seq<nat>, q: nat, c: nat, j: nat)
    requires j < |P|
    ensures InSubtree(P + [q], c, j) == InSubtree(P, c, j)
    decreases j
  {
    if j != c && 0 < j && P[j] < j {
      InSubtreePrefix(P, q, c, P[j]);
    }
  }

  /** Placing a new member under `p` adds it to exactly those existing
      subtrees that contain `p`. */
  lemma SubtreeGrows(P: seq<nat>, p: nat, c: nat)
    requires p < |P| && c < |P|
    ensures Subtree(P + [p], c) == Subtree(P, c) + (if InSubtree(P, c, p) then {|P|} else {})
  {
    var P1 := P + [p];
    forall j: nat | j < |P|
      ensures InSubtree(P1, c, j) == InSubtree(P, c, j)
    {
      InSubtreePrefix(P, p, c, j);
    }
    InSubtreePrefix(P, p, c, p);
    assert InSubtree(P1, c, |P|) == InSubtree(P, c, p);
  }

  /** A newly placed member's subtree is the member alone. */
  lemma SubtreeOfNewcomer(P: seq<nat>, p: nat)
    requires p < |P|
    ensures Subtree(P + [p], |P|) == {|P|}
  {
    forall j: nat | j < |P| && InSubtree(P + [p], |P|, j)
      ensures false
    {
      InSubtreeBelow(P + [p], |P|, j);
    }
  }

  // ---------------------------------------------------------------------
  // Spill-over placement

  /** `b` is reached from `a` by following only side-`d` child links. */
  ghost predicate SameSideChain(t: seq<Member>, d: Side, a: nat, b: nat)
    requires LinksForward(t) && a < |t|
    decreases |t| - a
  {
    a == b || (Child(t[a], d).Some? && SameSideChain(t, d, Child(t[a], d).value, b))
  }

  /** The spill-over target: descend from `i` on side `d` until a member
      whose side-`d` slot is empty. */
  ghost function SpillTarget(t: seq<Member>, i: nat, d: Side): (r: nat)
    requires LinksForward(t) && i < |t|
    ensures i <= r < |t|
    decreases |t| - i
  {
    match Child(t[i], d)
    case None => i
    case Some(c) => SpillTarget(t, c, d)
  }

  /** The spill-over target's slot on the preferred side is empty; when the
      sponsor's own slot is empty, the sponsor is the target. */
  lemma {:induction false} SpillTargetIsEmpty(t: seq<Member>, i: nat, d: Side)
    requires LinksForward(t) && i < |t|
    ensures Child(t[SpillTarget(t, i, d)], d).None?
    ensures Child(t[i], d).None? ==> SpillTarget(t, i, d) == i
    decreases |t| - i
  {
    if Child(t[i], d).Some? {
      SpillTargetIsEmpty(t, Child(t[i], d).value, d);
    }
  }

  /** The spill-over target lies on the sponsor's same-side chain. */
  lemma {:induction false} SpillTargetOnChain(t: seq<Member>, i: nat, d: Side)
    requires LinksForward(t) && i < |t|
    ensures SameSideChain(t, d, i, SpillTarget(t, i, d))
    decreases |t| - i
  {
    if Child(t[i], d).Some? {
      SpillTargetOnChain(t, Child(t[i], d).value, d);
    }
  }

  /** Any member on the same-side chain whose side-`d` slot is empty is the
      spill-over target: the target is the first and only empty slot on the
      chain. */
  lemma {:induction false} SpillTargetIsFirstEmpty(t: seq<Member>, i: nat, d: Side, b: nat)
    requires LinksForward(t) && i < |t|
    requires SameSideChain(t, d, i, b) && b < |t| && Child(t[b], d).None?
    ensures b == SpillTarget(t, i, d)
    decreases |t| - i
  {
    if i != b {
      SpillTargetIsFirstEmpty(t, Child(t[i], d).value, d, b);
    }
  }

  /** Members on a same-side chain are in the subtree of the chain's start,
      so the spill-over target is in the sponsor's downline. */
  lemma {:induction false} SameSideChainInSubtree(t: seq<Member>, P: seq<nat>, d: Side, a: nat, b: nat)
    requires WellLinked(t, P) && a < |t|
    requires SameSideChain(t, d, a, b)
    ensures InSubtree(P, a, b)
    decreases |t| - a
  {
    if a != b {
      var c := Child(t[a], d).value;
      assert LinksAt(t, P, a);
      SameSideChainInSubtree(t, P, d, c, b);
      InSubtreeThrough(P, a, c, b);
    }
  }

  /** If `c` is a child of `a` then the subtree of `c` lies inside that of `a`. */
  lemma {:induction false} InSubtreeThrough(P: seq<nat>, a: nat, c: nat, j: nat)
    requires a < c < |P| && P[c] == a
    requires InSubtree(P, c, j)
    ensures InSubtree(P, a, j)
    decreases j
  {
    if j != c {
      InSubtreeThrough(P, a, c, P[j]);
    }
  }

  // ---------------------------------------------------------------------
  // Upward count propagation

  /** One step of the upward walk: the member visited and the side counted. */
  datatype Step = Step(node: nat, side: Side)

  ghost predicate ParentsBefore(P: seq<nat>) {
    forall j :: 0 < j < |P| ==> P[j] < j
  }

  /** The slot `x` occupies under ancestor `a`, decided the way the walk
      decides it: left when `a`'s left reference is `x`, otherwise right. */
  function SlotUnder(a: Member, x: nat): Side {
    if a.leftMember == Some(x) then Left else Right
  }

  /** The walk from `x`, counting side `s` there, up to the root: at each
      member above, the side counted is the slot the previous member holds. */
  ghost function Climb(t: seq<Member>, P: seq<nat>, x: nat, s: Side): seq<Step>
    requires |t| == |P| && ParentsBefore(P) && x < |P|
    decreases x
  {
    [Step(x, s)] + if x == 0 then [] else Climb(t, P, P[x], SlotUnder(t[P[x]], x))
  }

  /** `m` after the walk: one more on each side for which `(i, side)` was
      visited. */
  function Bump(m: Member, i: nat, path: seq<Step>): Member {
    m.(leftCount := m.leftCount + (if Step(i, Left) in path then 1 else 0),
       rightCount := m.rightCount + (if Step(i, Right) in path then 1 else 0))
  }

  /** `t1` is `t0` with the counts along `path` incremented, nothing else. */
  ghost predicate Tallied(t0: seq<Member>, t1: seq<Member>, path: seq<Step>) {
    |t1| == |t0| && forall i :: 0 <= i < |t0| ==> t1[i] == Bump(t0[i], i, path)
  }

  /** `t` with one more on side `e.side` of member `e.node`: one iteration
      of the walk's update. */
  function Increment(t: seq<Member>, e: Step): (r: seq<Member>)
    ensures |r| == |t|
  {
    if e.node < |t| then
      t[e.node := if e.side == Left then t[e.node].(leftCount := t[e.node].leftCount + 1)
                  else t[e.node].(rightCount := t[e.node].rightCount + 1)]
    else t
  }

  /** `t` after the walk's updates along `path`, applied in order. */
  function ApplyPath(t: seq<Member>, path: seq<Step>): (r: seq<Member>)
    ensures |r| == |t|
    decreases |path|
  {
    if |path| == 0 then t else Increment(ApplyPath(t, path[..|path| - 1]), path[|path| - 1])
  }

  /** Incrementing the side-`d` count of member `x` in place, after the
      updates along `done`, is the update along `done` extended by `(x, d)`. */
  lemma ApplyPathStep(t0: seq<Member>, done: seq<Step>, t: seq<Member>, x: nat, d: Side)
    requires t == ApplyPath(t0, done) && x < |t|
    ensures ApplyPath(t0, done + [Step(x, d)]) ==
      t[x := if d == Left then t[x].(leftCount := t[x].leftCount + 1)
             else t[x].(rightCount := t[x].rightCount + 1)]
  {
    assert (done + [Step(x, d)])[..|done|] == done;
  }

  /** The walk's updates touch counts only: every member keeps its links and
      its position. */
  lemma {:induction false} ApplyPathKeepsLinks(t: seq<Member>, path: seq<Step>, k: nat)
    requires k < |t|
    ensures ApplyPath(t, path)[k].leftMember == t[k].leftMember
    ensures ApplyPath(t, path)[k].rightMember == t[k].rightMember
    ensures ApplyPath(t, path)[k].position == t[k].position
    decreases |path|
  {
    if |path| > 0 {
      ApplyPathKeepsLinks(t, path[..|path| - 1], k);
    }
  }

  /** Counting side `side` at `x`, a step the walk so far has not taken,
      extends the tally by that step. */
  lemma TallyStep(t0: seq<Member>, t: seq<Member>, done: seq<Step>, x: nat, side: Side)
    requires Tallied(t0, t, done) && x < |t0|
    requires Step(x, side) !in done
    ensures Tallied(t0, Increment(t, Step(x, side)), done + [Step(x, side)])
  {
    var t', done' := Increment(t, Step(x, side)), done + [Step(x, side)];
    forall i | 0 <= i < |t0|
      ensures t'[i] == Bump(t0[i], i, done')
    {
      assert Step(i, Left) in done' <==> Step(i, Left) in done || Step(i, Left) == Step(x, side);
      assert Step(i, Right) in done' <==> Step(i, Right) in done || Step(i, Right) == Step(x, side);
    }
  }

  /** Along a path that never repeats a step, applying the updates one by
      one gives exactly the tally: one more per visited side, nothing else. */
  lemma {:induction false} ApplyPathTallies(t: seq<Member>, path: seq<Step>)
    requires forall a, b :: 0 <= a < b < |path| ==> path[a] != path[b]
    ensures Tallied(t, ApplyPath(t, path), path)
    decreases |path|
  {
    if |path| == 0 {
      assert forall i :: 0 <= i < |t| ==> ApplyPath(t, path)[i] == Bump(t[i], i, path);
    } else {
      var done, e := path[..|path| - 1], path[|path| - 1];
      assert path == done + [e];
      ApplyPathTallies(t, done);
      assert e !in done by {
        forall a | 0 <= a < |done|
          ensures done[a] != e
        {
          assert done[a] == path[a];
        }
      }
      if e.node < |t| {
        TallyStep(t, ApplyPath(t, done), done, e.node, e.side);
      } else {
        forall i | 0 <= i < |t|
          ensures ApplyPath(t, path)[i] == Bump(t[i], i, path)
        {
          assert Step(i, Left) in path <==> Step(i, Left) in done;
          assert Step(i, Right) in path <==> Step(i, Right) in done;
        }
      }
    }
  }

  /** One level of the walk: once `x` is counted, what remains of the walk
      is the walk from `x`'s ancestor, or nothing at the root. */
  lemma ClimbAdvances(t: seq<Member>, P: seq<nat>, done: seq<Step>, path: seq<Step>, x: nat, s: Side)
    requires |t| == |P| && ParentsBefore(P) && x < |P|
    requires done + Climb(t, P, x, s) == path
    ensures x == 0 ==> done + [Step(x, s)] == path
    ensures x > 0 ==> (done + [Step(x, s)]) + Climb(t, P, P[x], SlotUnder(t[P[x]], x)) == path
  {
    if x > 0 {
      var rest := Climb(t, P, P[x], SlotUnder(t[P[x]], x));
      assert Climb(t, P, x, s) == [Step(x, s)] + rest;
      assert (done + [Step(x, s)]) + rest == done + ([Step(x, s)] + rest);
    }
  }

  /** The walk climbs strictly: each member it visits lies above the previous
      one, so it never repeats a step. */
  lemma {:induction false} ClimbStrictlyUp(t: seq<Member>, P: seq<nat>, x: nat, s: Side)
    requires |t| == |P| && ParentsBefore(P) && x < |P|
    ensures forall a :: 0 <= a < |Climb(t, P, x, s)| ==> Climb(t, P, x, s)[a].node <= x
    ensures forall a, b :: 0 <= a < b < |Climb(t, P, x, s)| ==>
      Climb(t, P, x, s)[a].node > Climb(t, P, x, s)[b].node
    decreases x
  {
    if x > 0 {
      ClimbStrictlyUp(t, P, P[x], SlotUnder(t[P[x]], x));
    }
  }

  /** Applying the walk's updates one by one gives the tally of the walk. */
  lemma ClimbTallies(t: seq<Member>, P: seq<nat>, x: nat, s: Side)
    requires |t| == |P| && ParentsBefore(P) && x < |P|
    ensures Tallied(t, ApplyPath(t, Climb(t, P, x, s)), Climb(t, P, x, s))
  {
    ClimbStrictlyUp(t, P, x, s);
    ApplyPathTallies(t, Climb(t, P, x, s));
  }

  /** The reverse lookup during the walk (counts already changed, links not)
      answers `x`'s parent and the slot `x` holds there, and answers nothing
      only at the root. */
  lemma AncestorIsParent(t0: seq<Member>, P: seq<nat>, done: seq<Step>, t: seq<Member>, x: nat,
                         a: Option<nat>)
    requires WellLinked(t0, P) && x < |t0| && t == ApplyPath(t0, done)
    requires a.Some? ==> a.value < |t| && (t[a.value].leftMember == Some(x) || t[a.value].rightMember == Some(x))
    requires a.None? ==> forall i :: 0 <= i < |t| ==> t[i].leftMember != Some(x) && t[i].rightMember != Some(x)
    ensures ParentsBefore(P)
    ensures a.Some? ==> x > 0 && a.value == P[x] && SlotUnder(t[a.value], x) == SlotUnder(t0[P[x]], x)
    ensures a.None? ==> x == 0
  {
    ParentsBeforeOf(t0, P);
    ReverseLookupIsParent(t0, P, x);
    if a.Some? {
      ApplyPathKeepsLinks(t0, done, a.value);
    }
    if x > 0 {
      ApplyPathKeepsLinks(t0, done, P[x]);
    }
  }

  /** The walk from `x` visits `(i, d)` exactly when `(i, d)` is the starting
      step or `x` lies in the subtree under `i`'s side-`d` child. */
  lemma {:induction false} ClimbVisits(t: seq<Member>, P: seq<nat>, x: nat, s: Side, i: nat, d: Side)
    requires WellLinked(t, P) && x < |t| && i < |t|
    ensures ParentsBefore(P)
    ensures Step(i, d) in Climb(t, P, x, s) <==>
      (i == x && d == s) || (Child(t[i], d).Some? && InSubtree(P, Child(t[i], d).value, x))
    decreases x
  {
    ParentsBeforeOf(t, P);
    assert LinksAt(t, P, i);
    if x == 0 {
      assert Climb(t, P, x, s) == [Step(x, s)];
    } else {
      var a := P[x];
      var s' := SlotUnder(t[a], x);
      assert PlacedAt(t, P, x);
      assert LinksAt(t, P, a);
      assert s' == t[x].position;
      ClimbVisits(t, P, a, s', i, d);
      assert Climb(t, P, x, s) == [Step(x, s)] + Climb(t, P, a, s');
    }
  }

  /** The walk from `x` ends at the root and visits one member per level:
      `x` and each of its ancestors, so its length is `x`'s depth plus one. */
  lemma {:induction false} ClimbReachesRoot(t: seq<Member>, P: seq<nat>, x: nat, s: Side)
    requires WellLinked(t, P) && x < |t|
    ensures ParentsBefore(P)
    ensures Climb(t, P, x, s)[0] == Step(x, s)
    ensures Climb(t, P, x, s)[|Climb(t, P, x, s)| - 1].node == 0
    ensures |Climb(t, P, x, s)| == Depth(P, x) + 1
    decreases x
  {
    ParentsBeforeOf(t, P);
    if x > 0 {
      ClimbReachesRoot(t, P, P[x], SlotUnder(t[P[x]], x));
    }
  }

  /** The number of parent links from `x` up to the root. */
  ghost function Depth(P: seq<nat>, x: nat): nat
    requires ParentsBefore(P) && x < |P|
    decreases x
  {
    if x == 0 then 0 else 1 + Depth(P, P[x])
  }

  // ---------------------------------------------------------------------
  // One registration

  /** The table after the new record `rec` is created and linked into slot
      `s` of `p`. */
  ghost function Attach(t: seq<Member>, p: nat, s: Side, rec: Member): seq<Member>
    requires p < |t|
  {
    t[p := SetChild(t[p], s, |t|)] + [rec]
  }

  /** Linking a fresh leaf into an empty slot keeps the tree's shape. */
  lemma AttachKeepsShape(t: seq<Member>, P: seq<nat>, p: nat, s: Side, rec: Member)
    requires WellLinked(t, P) && p < |t| && Child(t[p], s).None?
    requires rec.position == s && rec.leftMember.None? && rec.rightMember.None?
    ensures WellLinked(Attach(t, p, s, rec), P + [p])
  {
    var t1, P1 := Attach(t, p, s, rec), P + [p];
    forall i | 0 <= i < |t1|
      ensures (t1[i].leftMember.Some? ==> i < t1[i].leftMember.value < |t1|) &&
              (t1[i].rightMember.Some? ==> i < t1[i].rightMember.value < |t1|)
      ensures LinksAt(t1, P1, i)
    {
      AttachLinksAt(t, P, p, s, rec, i);
    }
    forall j | 0 < j < |t1|
      ensures PlacedAt(t1, P1, j)
    {
      AttachParentAt(t, P, p, s, rec, j);
    }
  }

  /** The members of the linked table: the new record last, the parent
      with its new child, everyone else as before. */
  lemma AttachAt(t: seq<Member>, p: nat, s: Side, rec: Member, k: nat)
    requires p < |t| && k <= |t|
    ensures |Attach(t, p, s, rec)| == |t| + 1
    ensures Attach(t, p, s, rec)[k] ==
      if k == |t| then rec else if k == p then SetChild(t[p], s, |t|) else t[k]
  {
  }

  /** After linking, member `i`'s child references are still forward and
      agree with the children's parents and positions. */
  lemma AttachLinksAt(t: seq<Member>, P: seq<nat>, p: nat, s: Side, rec: Member, i: nat)
    requires WellLinked(t, P) && p < |t| && Child(t[p], s).None?
    requires rec.position == s && rec.leftMember.None? && rec.rightMember.None?
    requires i <= |t|
    ensures var t1 := Attach(t, p, s, rec);
      (t1[i].leftMember.Some? ==> i < t1[i].leftMember.value < |t1|) &&
      (t1[i].rightMember.Some? ==> i < t1[i].rightMember.value < |t1|) &&
      LinksAt(t1, P + [p], i)
  {
    AttachLinkOnSide(t, P, p, s, rec, i, Left);
    AttachLinkOnSide(t, P, p, s, rec, i, Right);
  }

  /** After linking, member `i`'s child reference on side `d` is forward and
      agrees with the child's parent and position. */
  lemma AttachLinkOnSide(t: seq<Member>, P: seq<nat>, p: nat, s: Side, rec: Member, i: nat, d: Side)
    requires WellLinked(t, P) && p < |t| && Child(t[p], s).None?
    requires rec.position == s && rec.leftMember.None? && rec.rightMember.None?
    requires i <= |t|
    ensures var t1 := Attach(t, p, s, rec);
      (Child(t1[i], d).Some? ==> i < Child(t1[i], d).value < |t1|) &&
      LinkAgrees(t1, P + [p], i, Child(t1[i], d), d)
  {
    var t1, P1, n := Attach(t, p, s, rec), P + [p], |t|;
    AttachAt(t, p, s, rec, i);
    AttachAt(t, p, s, rec, n);
    if i < n && Child(t1[i], d).Some? && Child(t1[i], d) != Some(n) {
      assert Child(t1[i], d) == Child(t[i], d);
      var c := Child(t[i], d).value;
      assert LinkAgrees(t, P, i, Child(t[i], d), d) by {
        assert LinksAt(t, P, i);
      }
      assert i < c < n by {
        assert (t[i].leftMember.Some? ==> i < t[i].leftMember.value < |t|) &&
               (t[i].rightMember.Some? ==> i < t[i].rightMember.value < |t|);
      }
      AttachAt(t, p, s, rec, c);
    }
  }

  /** After linking, member `j` still sits in its position's slot under its
      parent. */
  lemma AttachParentAt(t: seq<Member>, P: seq<nat>, p: nat, s: Side, rec: Member, j: nat)
    requires WellLinked(t, P) && p < |t| && Child(t[p], s).None?
    requires rec.position == s && rec.leftMember.None? && rec.rightMember.None?
    requires 0 < j <= |t|
    ensures PlacedAt(Attach(t, p, s, rec), P + [p], j)
  {
    var t1, P1, n := Attach(t, p, s, rec), P + [p], |t|;
    AttachAt(t, p, s, rec, j);
    if j < n {
      assert PlacedAt(t, P, j);
      AttachAt(t, p, s, rec, P[j]);
    } else {
      AttachAt(t, p, s, rec, p);
    }
  }

  /** Incrementing counts never changes the shape. */
  lemma TallyKeepsShape(t0: seq<Member>, t1: seq<Member>, P: seq<nat>, path: seq<Step>)
    requires WellLinked(t0, P) && Tallied(t0, t1, path)
    ensures WellLinked(t1, P)
  {
    forall i | 0 <= i < |t1|
      ensures LinksAt(t1, P, i)
    {
      assert LinksAt(t0, P, i);
    }
    forall j | 0 < j < |t1|
      ensures PlacedAt(t1, P, j)
    {
      assert PlacedAt(t0, P, j);
    }
  }

  /** A registration changes no record: linking and counting touch only
      child references and counts; the new member comes last, untouched by
      the walk, and sits in slot `s` of `p`. */
  lemma RegistrationKeepsRecords(t: seq<Member>, P: seq<nat>, p: nat, s: Side, rec: Member,
                                 t2: seq<Member>)
    requires p < |t| && |P| == |t| && ParentsBefore(P + [p])
    requires Tallied(Attach(t, p, s, rec), t2, Climb(Attach(t, p, s, rec), P + [p], p, s))
    ensures |t2| == |t| + 1
    ensures forall i :: 0 <= i < |t| ==> SameRecord(t2[i], t[i])
    ensures t2[|t|] == rec
    ensures Child(t2[p], s) == Some(|t|)
  {
    var t1, P1 := Attach(t, p, s, rec), P + [p];
    forall i | 0 <= i < |t|
      ensures SameRecord(t2[i], t[i])
    {
      AttachAt(t, p, s, rec, i);
    }
    AttachAt(t, p, s, rec, |t|);
    AttachAt(t, p, s, rec, p);
    ClimbStrictlyUp(t1, P1, p, s);
    var path := Climb(t1, P1, p, s);
    assert Step(|t|, Left) !in path && Step(|t|, Right) !in path by {
      forall a | 0 <= a < |path|
        ensures path[a].node < |t|
      {
      }
    }
  }

  /** The count on side `d` of member `i` is right after a registration:
      the walk from the new member's parent adds one exactly where the new
      member joined the subtree. */
  lemma CountAfterRegistration(t: seq<Member>, P: seq<nat>, p: nat, s: Side, rec: Member,
                               t2: seq<Member>, i: nat, d: Side)
    requires WellLinked(t, P) && Counted(t, P)
    requires p < |t| && Child(t[p], s).None?
    requires rec.position == s && rec.leftMember.None? && rec.rightMember.None?
    requires rec.leftCount == 0 && rec.rightCount == 0
    requires WellLinked(Attach(t, p, s, rec), P + [p]) && ParentsBefore(P + [p])
    requires Tallied(Attach(t, p, s, rec), t2, Climb(Attach(t, p, s, rec), P + [p], p, s))
    requires i <= |t|
    ensures Count(t2[i], d) == SubtreeSize(P + [p], Child(t2[i], d))
  {
    var t1, P1, n := Attach(t, p, s, rec), P + [p], |t|;
    var path := Climb(t1, P1, p, s);
    ClimbVisits(t1, P1, p, s, i, d);
    assert Count(t2[i], d) == Count(t1[i], d) + (if Step(i, d) in path then 1 else 0);
    assert Child(t2[i], d) == Child(t1[i], d);
    if i == n {
      assert Child(t1[i], d).None?;
    } else if i == p && d == s {
      assert CountedAt(t, P, p);
      SubtreeOfNewcomer(P, p);
      assert Child(t1[i], d) == Some(n);
    } else {
      assert Child(t1[i], d) == Child(t[i], d);
      assert CountedAt(t, P, i);
      assert Count(t1[i], d) == Count(t[i], d) == SubtreeSize(P, Child(t[i], d));
      if Child(t[i], d).Some? {
        var c := Child(t[i], d).value;
        assert c < n;
        SubtreeGrows(P, p, c);
        InSubtreePrefix(P, p, c, p);
      }
    }
  }

  /** A registration keeps the tree's shape and the downline invariant:
      after linking the new member into the empty slot and walking the
      counts up from its parent, every count again equals the size of the
      subtree it stands for. */
  lemma RegistrationKeepsCounts(t: seq<Member>, P: seq<nat>, p: nat, s: Side, rec: Member,
                                t2: seq<Member>)
    requires WellLinked(t, P) && Counted(t, P)
    requires p < |t| && Child(t[p], s).None?
    requires rec.position == s && rec.leftMember.None? && rec.rightMember.None?
    requires rec.leftCount == 0 && rec.rightCount == 0
    requires ParentsBefore(P + [p])
    requires Tallied(Attach(t, p, s, rec), t2, Climb(Attach(t, p, s, rec), P + [p], p, s))
    ensures WellLinked(t2, P + [p]) && Counted(t2, P + [p])
  {
    AttachKeepsShape(t, P, p, s, rec);
    TallyKeepsShape(Attach(t, p, s, rec), t2, P + [p], Climb(Attach(t, p, s, rec), P + [p], p, s));
    forall i | 0 <= i < |t2|
      ensures CountedAt(t2, P + [p], i)
    {
      CountAfterRegistration(t, P, p, s, rec, t2, i, Left);
      CountAfterRegistration(t, P, p, s, rec, t2, i, Right);
    }
  }
}
