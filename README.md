# Binary-tree placement engine of the MLM member directory

This project models the registration engine of a multi-level-marketing
member directory. Every member occupies one slot of a binary tree under
the company root `M1000`:

- A new member names a sponsor (by member code) and a preferred side.
- The engine *spills over*: starting at the sponsor, it descends along
  child links on that same side until it meets a member whose slot on that
  side is empty. The newcomer is attached there.
- The engine issues the newcomer the next member code, `M` followed by the
  incremented value of a sequence counter.
- It then walks from the new parent up to the root, adding one to the left
  or right downline count of every member on the way. At each level the
  side counted is the slot the member below holds under the member above.

The model is in Dafny, in four modules:

- `MemberModel` (`member.dfy`) holds the `Member` record of the schema. It
  has the `left`/`right`/`root` position enum, the child references, the
  two counts and the schema defaults of a new member (`NewMember`: no
  children, both counts 0). It also holds the company root record
  (`RootMember`), the `required` fields (`WellFormed`) and the three unique
  indexes on member code, email and mobile (`UniqueKeys`).
- `MemberCodes` (`member_codes.dfy`) renders a counter value as a member
  code. It proves that the rendering can be read back and that it is
  injective, so distinct counter values give distinct codes.
- `TreeSpec` (`tree.dfy`) is the ghost specification of the tree. It
  contains:
  - `WellLinked`: child references agree with a ghost parent array, the
    root is at id 0, and each member is placed under an earlier one.
  - `Counted`: every count equals the size of the subtree under the child
    on that side.
  - `SpillTarget`: the slot the spill-over search must find.
  - `Climb`: the sequence of (member, side) increments the upward walk
    must perform.
  - `Tallied`: the table with exactly those increments applied.
  - The lemmas that connect these, up to the main one: a registration
    keeps the tree well linked and every count equal to its subtree size.
- `AuthController` (`auth_controller.dfy`) is the controller as an
  imperative `Directory` class:
  - Its fields are a member table `members`, the `member_code` counter,
    and the ghost arrays `parent` and `issued`.
  - Its methods are `FindEmptySlot`, `UpdateCountsUpwards` (with its
    per-level body `CountLevel`), `NextMemberCode`, `Register` and
    `SetupRootMember`, plus the three lookups they issue.
  - Each method is proved against the specification functions. The
    constructor establishes the invariant `Valid`, and `Register` and
    `SetupRootMember` preserve it. `NextMemberCode`, `UpdateCountsUpwards`
    and `CountLevel` are steps inside `Register`. They run while the
    invariant is temporarily broken (the newcomer is linked but not yet
    counted), so they require only what they need, such as a well-linked
    tree.

`Scenario` (`scenario.dfy`) plays the registration sequence that defines
spill-over. It sets up the root, then registers A and B, both with the
root as sponsor and side `left`. Using only the methods' contracts it
proves that:

- A receives `M1001` and B receives `M1002`.
- B's parent code is A's code.
- The root's left count is 2 and A's left count is 1.

A member's id, which is a MongoDB `ObjectId` in the controller, is modelled as
its index in `members`, i.e. its creation order. The reverse lookup in
`updateCountsUpwards` is modelled the way the code does it: a scan for
the member that references the current one as a child (`FindAncestor`).
The position stored on the member is not used for this. `TreeSpec`
proves that this scan finds exactly the member's parent, because a
member is referenced by at most one other member.

## Model

| member | source | states |
|---|---|---|
| MemberModel.NewMember | server/models/Member.js:53-72 | a new member has no left or right child, both counts 0, and the given code, sponsor code, parent code and position |
| MemberModel.RootMember | server/controllers/auth.controller.js:184-193 | the company root holds position `root`, code `M1000`, sponsor and parent code `NONE`, no children and zero counts, and satisfies the required fields |
| MemberModel.SetChild | server/controllers/auth.controller.js:105-109 | linking a child on one side sets that side's reference and leaves the other side and every other field unchanged |
| MemberCodes.Decimal | server/controllers/auth.controller.js:12 | the rendering of the counter value is non-empty, all decimal digits, and has no leading zero |
| MemberCodes.ParseDecimalInverts | server/controllers/auth.controller.js:12 | reading a rendered counter value back gives the value |
| MemberCodes.DecimalInjective | server/controllers/auth.controller.js:12 | two counter values render alike only when they are equal |
| MemberCodes.MemberCodeInjective | server/controllers/auth.controller.js:6-13 | distinct counter values give distinct member codes |
| MemberCodes.RootAndFirstCodes | server/controllers/auth.controller.js:174-178 | counter value 1000 gives the root's literal code `M1000`, and the first code issued after set-up is `M1001` |
| TreeSpec.RootIsUnique | server/models/Member.js:46-50 | in a well-linked tree a member holds the `root` position exactly when it is the first member |
| TreeSpec.ReverseLookupIsParent | server/controllers/auth.controller.js:49-54 | any member that references `x` as a child is `x`'s parent, and every member but the root has its parent referencing it |
| TreeSpec.InSubtreeBelow | server/controllers/auth.controller.js:82-118 | a subtree only holds members registered no earlier than its root |
| TreeSpec.SubtreeGrows | server/controllers/auth.controller.js:82-118 | attaching a newcomer under `p` adds it to exactly the subtrees that contain `p` |
| TreeSpec.SubtreeOfNewcomer | server/controllers/auth.controller.js:93-102 | a newcomer's own subtree is just itself |
| TreeSpec.SpillTargetIsEmpty | server/controllers/auth.controller.js:20-30 | the spill-over target's slot on the preferred side is empty, and the sponsor itself is the target when its slot is empty |
| TreeSpec.SpillTargetOnChain | server/controllers/auth.controller.js:20-30 | the spill-over target is reached from the sponsor by following only preferred-side child links |
| TreeSpec.SpillTargetIsFirstEmpty | server/controllers/auth.controller.js:19-31 | the target is the first member on the sponsor's preferred-side chain with an empty slot on that side; any such member is the target |
| TreeSpec.SameSideChainInSubtree | server/controllers/auth.controller.js:20-30 | a member on the sponsor's same-side chain lies in the sponsor's subtree |
| TreeSpec.ApplyPathStep | server/controllers/auth.controller.js:39-43 | applying one more step of the walk adds one to exactly that member's count on that side |
| TreeSpec.ApplyPathKeepsLinks | server/controllers/auth.controller.js:38-61 | the upward walk changes no child reference and no position |
| TreeSpec.ApplyPathTallies | server/controllers/auth.controller.js:38-61 | applying a walk that visits each (member, side) once adds exactly one to each visited count and changes nothing else |
| TreeSpec.ClimbAdvances | server/controllers/auth.controller.js:56-60 | after counting at `x`, the rest of the walk starts at `x`'s parent with the side `x` holds there, or is empty at the root |
| TreeSpec.ClimbStrictlyUp | server/controllers/auth.controller.js:38-61 | the walk visits members in strictly decreasing creation order, so it visits each at most once and terminates |
| TreeSpec.ClimbTallies | server/controllers/auth.controller.js:38-61 | the walk's updates add one to each count on the path and nothing else |
| TreeSpec.AncestorIsParent | server/controllers/auth.controller.js:49-60 | during the walk the reverse lookup finds the parent, with the side the current member holds there, and finds nothing only at the root |
| TreeSpec.ClimbVisits | server/controllers/auth.controller.js:38-61 | the walk from the parent `p` on side `s` counts (member i, side d) exactly when it is (p, s) or `p` lies in the subtree under i's child on side d |
| TreeSpec.ClimbReachesRoot | server/controllers/auth.controller.js:38-61 | the walk starts with the parent's own count, ends at the root, and has one step per level |
| TreeSpec.AttachKeepsShape | server/controllers/auth.controller.js:93-115 | attaching a fresh member in an empty slot keeps the tree well linked |
| TreeSpec.TallyKeepsShape | server/controllers/auth.controller.js:38-61 | count updates keep the tree well linked |
| TreeSpec.RegistrationKeepsRecords | server/controllers/auth.controller.js:93-118 | after attach and walk, every earlier member keeps its name, contacts, codes and position, the newcomer is the new record, and the parent references it on the chosen side |
| TreeSpec.CountAfterRegistration | server/controllers/auth.controller.js:82-118 | after attach and walk, each member's count on each side equals the size of the subtree under its child there |
| TreeSpec.RegistrationKeepsCounts | server/controllers/auth.controller.js:82-118 | a registration keeps the tree well linked and every left/right count equal to its subtree size |
| AuthController.PreferredSide | server/controllers/auth.controller.js:20-25 | the side is left exactly when the request says `left`; anything else is right |
| AuthController.RecordedAfterRegistration | server/controllers/auth.controller.js:86-102 | appending the newcomer with the next code keeps member codes, emails and mobiles unique, codes issued in increasing counter order, and parent codes naming the actual parent |
| AuthController.RegistrationKeepsInvariant | server/controllers/auth.controller.js:82-118 | one registration preserves the whole directory invariant, and the newcomer lies in the sponsor's subtree |
| AuthController.Directory.constructor | server/models/Counter.js:9-12 | an empty directory whose counter holds the schema default 1000 |
| AuthController.Directory.FindByCode | server/controllers/auth.controller.js:70 | returns a member with the code, and returns none exactly when no member has it |
| AuthController.Directory.FindByIdentity | server/controllers/auth.controller.js:76 | returns a member with the email or the mobile, and returns none exactly when no member has either |
| AuthController.Directory.FindAncestor | server/controllers/auth.controller.js:49-54 | returns a member referencing `x` as left or right child, and returns none exactly when no member does |
| AuthController.Directory.NextMemberCode | server/controllers/auth.controller.js:6-13 | the counter grows by exactly one and the code is `M` followed by its new value |
| AuthController.Directory.FindEmptySlot | server/controllers/auth.controller.js:15-32 | returns the preferred side and the spill-over target: a member on the sponsor's same-side chain, in its subtree, whose slot on that side is empty; the sponsor itself when its own slot is empty |
| AuthController.Directory.UpdateCountsUpwards | server/controllers/auth.controller.js:34-62 | the table afterwards is the table before with exactly one added to each count on the path from the parent to the root |
| AuthController.Directory.CountLevel | server/controllers/auth.controller.js:39-59 | one loop iteration: adds one to the current member's count, and returns its parent with the side it holds there, or none at the root |
| AuthController.Directory.Register | server/controllers/auth.controller.js:65-129 | refuses an unknown sponsor code, then a taken email or mobile, each with no change at all. Otherwise it keeps the invariant and attaches the newcomer at the spill-over target of a member with the sponsor code, with the next code, that sponsor code, the parent's code and the preferred side. The parent references it, and earlier members keep their names, contacts, codes and positions |
| AuthController.Directory.SetupRootMember | server/controllers/auth.controller.js:166-202 | refuses with no change when `M1000` exists; otherwise the directory was empty and now holds only the company root, with the counter at 1000 |
| Scenario.SpillOverUnderFirstLeftChild | server/controllers/auth.controller.js:65-129 | after set-up and two left registrations sponsored by the root: codes `M1001` and `M1002`, the second placed under the first, with left counts 2 at the root and 1 at the first |
| Scenario.ThirdCode | server/controllers/auth.controller.js:6-13 | counter value 1002 gives code `M1002` |
| Scenario.DownlineOfTwoLevels | server/controllers/auth.controller.js:34-62 | in a counted three-member left chain, the left counts are 2 and 1 |

## Left out

- Passwords and bcrypt hashing are foreign calls. The member record has no password field.
- Login, JWT signing and the authentication middleware are not part of this model.
- The downline read of the member controller, the routes and the client are not part of this model.
- The schema validation of `name`, `email` and `mobile` is left out: the required fields and the email regular expression. The model treats every request as valid. In the controller, a registration that fails this validation does so only when `newMember.save()` runs (auth.controller.js:112-115). By then a counter value has been consumed. Because the two saves run together under `Promise.all`, `parent.save()` still persists the parent's new child reference. The parent is left pointing at a member that was never stored. A later spill-over through that slot gets `null` back from `findById` and throws at line 21 or 26. This failure path is not modelled.
- The password's minimum length of 6 is checked against the bcrypt hash, which is always longer, so it never rejects a registration. It is not modelled.
- `joined_at` reads the clock and is not modelled.
- Persistence and concurrency are not modelled. This covers the `Promise.all` double write, a storage failure part-way through a registration, and races between concurrent registrations. Each registration is a sequential in-memory update.
- HTTP status codes and response bodies are left out. The outcomes are the `RegisterResult` and `SetupResult` datatypes; the server-error path is not modelled.
- AuthController.Directory.NextMemberCode: models the counter as an existing field. The upsert that would create a missing counter document on first use is not modelled. The constructor starts the counter at the schema default 1000, and set-up sets it to 1000.
- The counts and the counter value are unbounded integers. The JavaScript code stores them as numbers, which lose precision beyond 2^53. From 10^21 on, the template literal at auth.controller.js:12 would render the counter in exponent notation. Neither limit is modelled.
- Member ids are creation-order indices rather than `ObjectId`s. A member's parent therefore always has a smaller id, and this is what makes both walks terminate in the model.
- The reverse lookup scans the table, as the code does. Reading the side from the position stored on the member would be O(1), but the code does not do that, so it is not modelled.
- AuthController.Directory.UpdateCountsUpwards: requires the tree to be well linked (each member referenced by its parent only). The controller makes no such check, and on a table that violates it the controller's walk may count a different path or not terminate.
