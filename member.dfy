/** The member record of the referral tree (the `Member` schema) and the
    constraints the schema puts on one record and on the whole collection. */
module MemberModel {

  datatype Option<T> = None | Some(value: T)

  /** The `position` enum: the slot a member holds under its parent. */
  datatype Position = Left | Right | Root

  /** A slot under a parent: a position other than the root's. */
  type Side = p: Position | p != Root witness Left

  /** One member document. Its id is its index in the directory, so the
      `left_member`/`right_member` references are indices. The password
      and the join date are not modelled. */
  datatype Member = Member(
    name: string,
    email: string,
    mobile: string,
    memberCode: string,
    sponsorCode: string,
    parentCode: string,
    position: Position,
    leftMember: Option<nat>,
    rightMember: Option<nat>,
    leftCount: int,
    rightCount: int)

  /** The child reference on side `d`. */
  function Child(m: Member, d: Side): Option<nat> {
    if d == Left then m.leftMember else m.rightMember
  }

  /** The downline count on side `d`. */
  function Count(m: Member, d: Side): int {
    if d == Left then m.leftCount else m.rightCount
  }

  /** `m` with child `c` placed on side `d`; nothing else changes. */
  function SetChild(m: Member, d: Side, c: nat): (r: Member)
    ensures Child(r, d) == Some(c)
    ensures forall e: Side :: e != d ==> Child(r, e) == Child(m, e)
    ensures r.(leftMember := m.leftMember, rightMember := m.rightMember) == m
  {
    if d == Left then m.(leftMember := Some(c)) else m.(rightMember := Some(c))
  }

  /** A freshly created member: the schema's defaults leave both child
      references null and both counts at zero. */
  function NewMember(name: string, email: string, mobile: string, code: string,
                     sponsorCode: string, parentCode: string, position: Position): (r: Member)
    ensures r.leftMember.None? && r.rightMember.None? && r.leftCount == 0 && r.rightCount == 0
    ensures r.memberCode == code && r.sponsorCode == sponsorCode && r.parentCode == parentCode
    ensures r.position == position
  {
    Member(name, email, mobile, code, sponsorCode, parentCode, position, None, None, 0, 0)
  }

  /** The company root document created once at set-up. */
  function RootMember(): (r: Member)
    ensures r.position == Root && r.memberCode == "M1000"
    ensures r.sponsorCode == "NONE" && r.parentCode == "NONE" && WellFormed(r)
    ensures r.leftMember.None? && r.rightMember.None? && r.leftCount == 0 && r.rightCount == 0
  {
    NewMember("Company Root", "root@company.com", "0000000000", "M1000", "NONE", "NONE", Root)
  }

  /** `a` and `b` hold the same record: they differ at most in their child
      references and downline counts. */
  predicate SameRecord(a: Member, b: Member) {
    a.name == b.name && a.email == b.email && a.mobile == b.mobile &&
    a.memberCode == b.memberCode && a.sponsorCode == b.sponsorCode &&
    a.parentCode == b.parentCode && a.position == b.position
  }

  /** The `required` tree fields are present (a required string may not be
      empty). */
  predicate WellFormed(m: Member) {
    |m.memberCode| > 0 && |m.sponsorCode| > 0 && |m.parentCode| > 0
  }

  /** The schema's three unique indexes: no two members share a member
      code, an email or a mobile number. */
  predicate UniqueKeys(t: seq<Member>) {
    forall i, j :: 0 <= i < j < |t| ==> KeysDistinct(t[i], t[j])
  }

  /** `a` and `b` share no member code, email or mobile number. */
  predicate KeysDistinct(a: Member, b: Member) {
    a.memberCode != b.memberCode && a.email != b.email && a.mobile != b.mobile
  }
}
