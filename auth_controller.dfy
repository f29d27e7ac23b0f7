/** The registration engine: spill-over placement, upward count
    propagation, member-code issuing and root set-up, over an in-memory
    member directory. */
module AuthController {
  import opened MemberModel
  import opened MemberCodes
  import opened TreeSpec

  /** What a registration request answers. */
  datatype RegisterResult = Registered(code: string) | InvalidSponsor | DuplicateIdentity

  /** What the root set-up request answers. */
  datatype SetupResult = RootCreated | RootExists

  /** The preferred side as `findEmptySlot` reads the request: `"left"` is
      the left side and anything else the right side. */
  function PreferredSide(position: string): (d: Side)
    ensures d == Left <==> position == "left"
  {
    if position == "left" then Left else Right
  }

  /** Some member has member code `code`. */
  ghost predicate HasCode(t: seq<Member>, code: string) {
    exists i :: 0 <= i < |t| && t[i].memberCode == code
  }

  /** Some member already has this email or this mobile number. */
  ghost predicate IdentityTaken(t: seq<Member>, email: string, mobile: string) {
    exists i :: 0 <= i < |t| && (t[i].email == email || t[i].mobile == mobile)
  }

  /** Member `i` has its required fields and the code issued from counter
      value `issued[i]`, which the counter has reached. */
  ghost predicate CodeAt(t: seq<Member>, issued: seq<nat>, counter: nat, i: nat)
    requires i < |t| == |issued|
  {
    WellFormed(t[i]) && t[i].memberCode == MemberCode(issued[i]) && issued[i] <= counter
  }

  /** Member `j`'s parent code names the member it is placed under, which
      was created before it. */
  ghost predicate ParentCodeAt(t: seq<Member>, P: seq<nat>, j: nat)
    requires j < |t| == |P|
  {
    P[j] < j && t[j].parentCode == t[P[j]].memberCode
  }

  /** The collection's record-level invariant: the schema's unique indexes
      and required fields; member codes issued from strictly increasing
      counter values, none above the counter; the first member holding the
      code of counter value 1000; and each member's parent code naming the
      member it is placed under. */
  ghost predicate Recorded(t: seq<Member>, P: seq<nat>, issued: seq<nat>, counter: nat) {
    |P| == |t| && |issued| == |t| &&
    UniqueKeys(t) &&
    (forall i :: 0 <= i < |t| ==> CodeAt(t, issued, counter, i)) &&
    (forall i, j :: 0 <= i < j < |t| ==> issued[i] < issued[j]) &&
    (|t| > 0 ==> issued[0] == 1000) &&
    (forall j :: 0 < j < |t| ==> ParentCodeAt(t, P, j))
  }

  /** A registration keeps the record-level invariant: the new member's
      code comes from the incremented counter, so it is fresh; its email and
      mobile number are unused; its parent code is its parent's code; and
      every earlier member keeps its record. */
  lemma RecordedAfterRegistration(t: seq<Member>, P: seq<nat>, issued: seq<nat>, counter: nat,
                                  p: nat, rec: Member, t2: seq<Member>)
    requires Recorded(t, P, issued, counter) && p < |t|
    requires rec.memberCode == MemberCode(counter + 1) && WellFormed(rec)
    requires rec.parentCode == t[p].memberCode
    requires !IdentityTaken(t, rec.email, rec.mobile)
    requires |t2| == |t| + 1 && t2[|t|] == rec
    requires forall i :: 0 <= i < |t| ==> SameRecord(t2[i], t[i])
    ensures Recorded(t2, P + [p], issued + [counter + 1], counter + 1)
  {
    var n, P2, issued2, next := |t|, P + [p], issued + [counter + 1], counter + 1;
    forall i | 0 <= i < n
      ensures t2[i].memberCode != rec.memberCode && t2[i].email != rec.email && t2[i].mobile != rec.mobile
    {
      assert CodeAt(t, issued, counter, i);
      MemberCodeInjective(issued[i], counter + 1);
    }
    forall i, j | 0 <= i < j < |t2|
      ensures KeysDistinct(t2[i], t2[j])
    {
      if j < n {
        assert KeysDistinct(t[i], t[j]);
        assert SameRecord(t2[i], t[i]) && SameRecord(t2[j], t[j]);
      }
    }
    forall j | 0 < j < |t2|
      ensures ParentCodeAt(t2, P2, j)
    {
      if j < n {
        assert ParentCodeAt(t, P, j);
        assert SameRecord(t2[j], t[j]) && SameRecord(t2[P[j]], t[P[j]]);
      } else {
        assert SameRecord(t2[p], t[p]);
      }
    }
    forall i | 0 <= i < |t2|
      ensures CodeAt(t2, issued2, next, i)
    {
      if i < n {
        assert CodeAt(t, issued, counter, i);
        assert SameRecord(t2[i], t[i]);
      }
    }
    forall i, j | 0 <= i < j < |t2|
      ensures issued2[i] < issued2[j]
    {
      if j == n {
        assert CodeAt(t, issued, counter, i);
      }
    }
  }

  /** The directory's invariant on values: the tree's shape, the downline
      counts and the record-level invariant. */
  ghost predicate Invariant(t: seq<Member>, P: seq<nat>, issued: seq<nat>, counter: nat) {
    WellLinked(t, P) && Counted(t, P) && Recorded(t, P, issued, counter)
  }

  /** One registration, on values: linking `rec` into the empty slot `s`
      of `p` and walking the counts up from `p` keeps the tree's shape, the
      downline counts and the record-level invariant, with the counter one
      higher; the new member sits last, in slot `s` of `p`. */
  lemma RegistrationKeepsInvariant(t: seq<Member>, P: seq<nat>, issued: seq<nat>, counter: nat,
                                   p: nat, s: Side, sponsor: nat, rec: Member, t2: seq<Member>)
    requires Invariant(t, P, issued, counter)
    requires p < |t| && Child(t[p], s).None? && sponsor < |t| && InSubtree(P, sponsor, p)
    requires rec == NewMember(rec.name, rec.email, rec.mobile, MemberCode(counter + 1),
                              t[sponsor].memberCode, t[p].memberCode, s)
    requires !IdentityTaken(t, rec.email, rec.mobile)
    requires ParentsBefore(P + [p])
    requires Tallied(Attach(t, p, s, rec), t2, Climb(Attach(t, p, s, rec), P + [p], p, s))
    ensures Invariant(t2, P + [p], issued + [counter + 1], counter + 1)
    ensures |t2| == |t| + 1 && t2[|t|] == rec && Child(t2[p], s) == Some(|t|)
    ensures forall i :: 0 <= i < |t| ==> SameRecord(t2[i], t[i])
    ensures InSubtree(P + [p], sponsor, |t|)
  {
    InSubtreePrefix(P, p, sponsor, p);
    RegistrationKeepsCounts(t, P, p, s, rec, t2);
    RegistrationKeepsRecords(t, P, p, s, rec, t2);
    assert CodeAt(t, issued, counter, sponsor) && CodeAt(t, issued, counter, p);
    RecordedAfterRegistration(t, P, issued, counter, p, rec, t2);
  }

  /** The member collection together with the `member_code` sequence
      counter. A member's id is its index in `members`. */
  class Directory {
    var members: seq<Member>
    var counter: nat
    /** `parent[j]`: the id of the member `j` is placed under (0 for the root). */
    ghost var parent: seq<nat>
    /** `issued[j]`: the counter value `j`'s member code was issued from. */
    ghost var issued: seq<nat>

    /** The directory's invariant: the tree's shape, the downline counts and
        the record-level invariant. */
    ghost predicate Valid()
      reads this
    {
      Invariant(members, parent, issued, counter)
    }

    /** An empty directory; the counter holds its schema default. */
    constructor ()
      ensures Valid()
      ensures members == [] && counter == 1000
    {
      members := [];
      counter := 1000;
      parent := [];
      issued := [];
    }

    /** The lookup of a member by member code: the id of the member with
        this code, if any. */
    method FindByCode(code: string) returns (r: Option<nat>)
      ensures r.Some? ==> r.value < |members| && members[r.value].memberCode == code
      ensures r.None? <==> !HasCode(members, code)
    {
      var i := 0;
      while i < |members|
        invariant i <= |members|
        invariant forall k :: 0 <= k < i ==> members[k].memberCode != code
      {
        if members[i].memberCode == code {
          return Some(i);
        }
        i := i + 1;
      }
      return None;
    }

    /** The duplicate check: the id of a member that already has this email
        or this mobile number, if any. */
    method FindByIdentity(email: string, mobile: string) returns (r: Option<nat>)
      ensures r.Some? ==>
        r.value < |members| && (members[r.value].email == email || members[r.value].mobile == mobile)
      ensures r.None? <==> !IdentityTaken(members, email, mobile)
    {
      var i := 0;
      while i < |members|
        invariant i <= |members|
        invariant forall k :: 0 <= k < i ==> members[k].email != email && members[k].mobile != mobile
      {
        if members[i].email == email || members[i].mobile == mobile {
          return Some(i);
        }
        i := i + 1;
      }
      return None;
    }

    /** The reverse lookup of `updateCountsUpwards`: the id of a member whose
        left or right child reference is `x`, if any. */
    method FindAncestor(x: nat) returns (r: Option<nat>)
      ensures r.Some? ==>
        r.value < |members| && (members[r.value].leftMember == Some(x) || members[r.value].rightMember == Some(x))
      ensures r.None? <==> forall i :: 0 <= i < |members| ==>
        members[i].leftMember != Some(x) && members[i].rightMember != Some(x)
    {
      var i := 0;
      while i < |members|
        invariant i <= |members|
        invariant forall k :: 0 <= k < i ==>
          members[k].leftMember != Some(x) && members[k].rightMember != Some(x)
      {
        if members[i].leftMember == Some(x) || members[i].rightMember == Some(x) {
          return Some(i);
        }
        i := i + 1;
      }
      return None;
    }

    /** `getNextMemberCode`: increment the counter by one and issue `M`
        followed by its new value. */
    method NextMemberCode() returns (code: string)
      modifies this`counter
      ensures counter == old(counter) + 1
      ensures code == MemberCode(counter)
    {
      counter := counter + 1;
      code := "M" + Decimal(counter);
    }

    /** `findEmptySlot`: starting at the sponsor, descend on the preferred
        side until a member whose slot on that side is empty. */
    method FindEmptySlot(sponsor: nat, position: string) returns (at: nat, side: Side)
      requires Valid() && sponsor < |members|
      ensures side == PreferredSide(position)
      ensures at < |members| && Child(members[at], side).None?
      ensures at == SpillTarget(members, sponsor, side)
      ensures Child(members[sponsor], side).None? ==> at == sponsor
      ensures SameSideChain(members, side, sponsor, at) && InSubtree(parent, sponsor, at)
    {
      side := PreferredSide(position);
      at := sponsor;
      while Child(members[at], side).Some?
        invariant at < |members|
        invariant SpillTarget(members, at, side) == SpillTarget(members, sponsor, side)
        decreases |members| - at
      {
        at := Child(members[at], side).value;
      }
      SpillTargetOnChain(members, sponsor, side);
      SameSideChainInSubtree(members, parent, side, sponsor, at);
    }

    /** `updateCountsUpwards`: add one to the side-`s` count of `p`, then
        repeatedly move to the member that references the current one as a
        child and add one to the side the current one occupies there, until
        a member with no such ancestor (the root) has been counted. */
    method UpdateCountsUpwards(p: nat, s: Side)
      requires WellLinked(members, parent) && p < |members|
      modifies this`members
      ensures ParentsBefore(parent)
      ensures Tallied(old(members), members, Climb(old(members), parent, p, s))
    {
      ghost var t0, P := members, parent;
      ParentsBeforeOf(t0, P);
      ghost var path := Climb(t0, P, p, s);
      ghost var done: seq<Step> := [];
      var current: Option<nat> := Some(p);
      var side := s;
      while current.Some?
        invariant members == ApplyPath(t0, done)
        invariant current.Some? ==> current.value < |t0| && done + Climb(t0, P, current.value, side) == path
        invariant current.None? ==> done == path
        decreases if current.Some? then current.value + 1 else 0
      {
        var x := current.value;
        ClimbAdvances(t0, P, done, path, x, side);
        ghost var counted := done;
        done := done + [Step(x, side)];
        current, side := CountLevel(x, side, t0, P, counted);
      }
      ClimbTallies(t0, P, p, s);
    }

    /** One iteration of `updateCountsUpwards`: add one to the side-`side`
        count of `x` and look up the member that references `x` as a child,
        with the slot `x` holds there. */
    method CountLevel(x: nat, side: Side, ghost t0: seq<Member>, ghost P: seq<nat>, ghost done: seq<Step>)
      returns (ancestor: Option<nat>, next: Side)
      requires WellLinked(t0, P) && x < |t0| && members == ApplyPath(t0, done)
      modifies this`members
      ensures members == ApplyPath(t0, done + [Step(x, side)])
      ensures ParentsBefore(P)
      ensures ancestor.Some? ==> x > 0 && ancestor.value == P[x] && next == SlotUnder(t0[P[x]], x)
      ensures ancestor.None? ==> x == 0
    {
      ApplyPathStep(t0, done, members, x, side);
      var m := members[x];
      members := members[x := if side == Left then m.(leftCount := m.leftCount + 1)
                              else m.(rightCount := m.rightCount + 1)];
      ghost var t := members;
      ancestor := FindAncestor(x);
      AncestorIsParent(t0, P, done + [Step(x, side)], t, x, ancestor);
      next := side;
      if ancestor.Some? {
        next := SlotUnder(members[ancestor.value], x);
      }
    }

    /** `register`: check the sponsor and the identity fields, place the new
        member by spill-over, issue its code, link it under its parent and
        propagate the downline counts to the root. */
    method Register(name: string, email: string, mobile: string, sponsorCode: string, position: string)
      returns (r: RegisterResult)
      requires Valid()
      modifies this
      ensures Valid()
      ensures r == InvalidSponsor <==> !HasCode(old(members), sponsorCode)
      ensures r == DuplicateIdentity <==>
        HasCode(old(members), sponsorCode) && IdentityTaken(old(members), email, mobile)
      ensures !r.Registered? ==>
        members == old(members) && counter == old(counter) &&
        parent == old(parent) && issued == old(issued)
      ensures r.Registered? ==>
        var n, side := |old(members)|, PreferredSide(position);
        |members| == n + 1 && counter == old(counter) + 1 && r.code == MemberCode(counter) &&
        parent == old(parent) + [parent[n]] && parent[n] < n &&
        (exists k :: 0 <= k < n && old(members)[k].memberCode == sponsorCode &&
          parent[n] == SpillTarget(old(members), k, side) && InSubtree(parent, k, n)) &&
        members[n] == NewMember(name, email, mobile, r.code, sponsorCode,
                                old(members)[parent[n]].memberCode, side) &&
        Child(members[parent[n]], side) == Some(n) &&
        (forall i :: 0 <= i < n ==> SameRecord(members[i], old(members)[i]))
    {
      var sponsor := FindByCode(sponsorCode);
      if sponsor.None? {
        return InvalidSponsor;
      }
      var existing := FindByIdentity(email, mobile);
      if existing.Some? {
        return DuplicateIdentity;
      }
      var at, side := FindEmptySlot(sponsor.value, position);
      ghost var t0, P0, issued0, counter0 := members, parent, issued, counter;
      var code := NextMemberCode();
      var newMember := NewMember(name, email, mobile, code, sponsorCode, members[at].memberCode, side);
      members := members[at := SetChild(members[at], side, |members|)] + [newMember];
      parent := parent + [at];
      issued := issued + [counter];
      AttachKeepsShape(t0, P0, at, side, newMember);
      SpillTargetIsEmpty(t0, sponsor.value, side);
      UpdateCountsUpwards(at, side);
      RegistrationKeepsInvariant(t0, P0, issued0, counter0, at, side, sponsor.value, newMember, members);
      assert t0 == old(members);
      assert 0 <= sponsor.value < |t0| && t0[sponsor.value].memberCode == sponsorCode &&
        parent[|t0|] == SpillTarget(t0, sponsor.value, side) && InSubtree(parent, sponsor.value, |t0|);
      r := Registered(code);
    }

    /** `setupRootMember`: refuse when `M1000` exists; otherwise reset the
        counter to 1000 and create the root `M1000`. */
    method SetupRootMember() returns (r: SetupResult)
      requires Valid()
      modifies this
      ensures Valid()
      ensures r == RootExists <==> HasCode(old(members), "M1000")
      ensures r == RootExists ==>
        members == old(members) && counter == old(counter) &&
        parent == old(parent) && issued == old(issued)
      ensures r == RootCreated ==> old(members) == [] && members == [RootMember()] && counter == 1000
    {
      var root := FindByCode("M1000");
      if root.Some? {
        return RootExists;
      }
      RootAndFirstCodes();
      assert |members| > 0 ==> CodeAt(members, issued, counter, 0);
      counter := 1000;
      members := members + [RootMember()];
      parent := parent + [0];
      issued := issued + [1000];
      r := RootCreated;
    }
  }
}
