/** The role-assignment engine of `RoleTracker`: three string-keyed maps (occupied,
    assigned, suggested), the set of still-unassigned roles, and the reconciliation pass
    `CalculateUnassignedPartyRoles`. Each operation is a pure function from the tracker
    state (and its inputs) to the next state; events, toasts and logging are dropped. */
module RoleTracker {
  import opened Optional
  import opened Text
  import opened Int32Arith
  import opened RoleIds

  /** An unsigned 32-bit id (`uint`), as world ids and job ids are. */
  type UInt32 = x: nat | x < TwoTo32

  /** A party member as the roster delivers it: display name, home world id and world
      name, class-job id, and the generic category the job resolves to. */
  datatype Member = Member(name: string, worldId: UInt32, worldName: string, jobId: UInt32, role: GenericRole)

  /** One configured static assignment, keyed by "name@WorldName". */
  datatype StaticEntry = StaticEntry(key: string, role: RoleId)

  /** The configuration the tracker reads: the naming convention and the static
      assignments in the configuration dictionary's enumeration order. */
  datatype Settings = Settings(eastern: bool, statics: seq<StaticEntry>)

  datatype Tracker = Tracker(
    occupiedRoles: map<string, RoleId>,
    assignedRoles: map<string, RoleId>,
    suggestedRoles: map<string, RoleId>,
    unassignedRoles: set<RoleId>,
    previousHash: Int32,
    prevEastern: bool)

  /** The state of a freshly constructed tracker: empty collections, hash `0`, Western
      convention. It already satisfies the invariant. */
  function Initial(): (t: Tracker)
    ensures |t.occupiedRoles| == 0 && |t.assignedRoles| == 0 && |t.suggestedRoles| == 0
    ensures t.unassignedRoles == {} && t.previousHash == 0 && !t.prevEastern
    ensures Valid(t)
  {
    Tracker(map[], map[], map[], {}, 0, false)
  }

  /** No two identities occupy the same role. */
  ghost predicate Injective(m: map<string, RoleId>) {
    forall a, b :: a in m && b in m && a != b ==> m[a] != m[b]
  }

  /** What every reachable tracker state satisfies. */
  ghost predicate Valid(t: Tracker) {
    Injective(t.occupiedRoles) && t.unassignedRoles <= AllRoles
  }

  // ---------------------------------------------------------------------------
  // Identities

  /** `PlayerId(name, worldId)`: the canonical key "name@worldId". */
  function PlayerId(name: string, worldId: UInt32): (k: string)
    ensures |k| == |name| + 1 + |Decimal(worldId)|
    ensures k[..|name|] == name && k[|name|] == '@' && k[|name| + 1..] == Decimal(worldId)
  {
    name + "@" + Decimal(worldId)
  }

  /** The key of a roster member; `PlayerId(PartyMember)` renders the same "name@worldId". */
  function MemberId(m: Member): string {
    PlayerId(m.name, m.worldId)
  }

  /** The string a static assignment key is compared with: "name@WorldName". */
  function Description(m: Member): string {
    m.name + "@" + m.worldName
  }

  /** Keys identify players: equal keys mean equal name and equal world id, although the
      name itself may contain '@'. */
  lemma {:induction false} PlayerIdInjective(n1: string, w1: UInt32, n2: string, w2: UInt32)
    requires PlayerId(n1, w1) == PlayerId(n2, w2)
    ensures n1 == n2 && w1 == w2
  {
    var s := PlayerId(n1, w1);
    var d1 := Decimal(w1);
    var d2 := Decimal(w2);
    assert s == n1 + "@" + d1 && s == n2 + "@" + d2;
    LastAtOfKey(n1, d1);
    LastAtOfKey(n2, d2);
    assert d1 == s[|s| - |d1|..] == d2;
    assert n1 == s[..|n1|] == n2;
    DecimalInjective(w1, w2);
  }

  /** The position of the last '@' in `s`, or -1 when there is none. */
  function LastAt(s: string): (p: int)
    ensures -1 <= p < |s|
    decreases |s|
  {
    if |s| == 0 then -1
    else if s[|s| - 1] == '@' then |s| - 1
    else LastAt(s[..|s| - 1])
  }

  /** After "name@" a digit string holds no '@', so the separator is the last '@'. */
  lemma {:induction false} LastAtOfKey(n: string, d: string)
    requires forall i :: 0 <= i < |d| ==> IsDigit(d[i])
    ensures LastAt(n + "@" + d) == |n|
    decreases |d|
  {
    var s := n + "@" + d;
    if |d| > 0 {
      var d' := d[..|d| - 1];
      assert s[..|s| - 1] == n + "@" + d';
      LastAtOfKey(n, d');
    }
  }

  // ---------------------------------------------------------------------------
  // Applicable role pools

  predicate IsDamage(g: GenericRole) {
    g == Melee || g == Ranged
  }

  /** `GetApplicableRolesForGenericRole`: the roles a category may be given, in the order
      fallback tries them. Under the Eastern convention melee and ranged share one pool,
      M1..M8 then R1..R8. A category outside the four gets `[Undefined]`. */
  function ApplicableRoles(g: GenericRole, eastern: bool): (p: seq<RoleId>)
    ensures forall i, j :: 0 <= i < j < |p| ==> p[i] < p[j]
    ensures g == Unknown ==> p == [Undefined]
    ensures g != Unknown ==> Undefined !in p
  {
    match g
    case Tank => BlockRoles(0)
    case Healer => BlockRoles(1)
    case Melee => if eastern then BlockRoles(2) + BlockRoles(3) else BlockRoles(2)
    case Ranged => if eastern then BlockRoles(2) + BlockRoles(3) else BlockRoles(3)
    case Unknown => [Undefined]
  }

  /** Which roles a category may take: its own block, or under the Eastern convention either
      damage block for a damage category. */
  lemma ApplicableRolesMembership(g: GenericRole, eastern: bool, r: RoleId)
    ensures r in ApplicableRoles(g, eastern) <==>
      if g == Unknown then r == Undefined
      else r != Undefined && (CategoryOf(r) == g || (eastern && IsDamage(g) && IsDamage(CategoryOf(r))))
  {
    BlockRolesMembership(0, r);
    BlockRolesMembership(1, r);
    BlockRolesMembership(2, r);
    BlockRolesMembership(3, r);
  }

  /** The pools of the two conventions differ only for the damage categories. */
  lemma ApplicableRolesConventions(g: GenericRole)
    ensures !IsDamage(g) ==> ApplicableRoles(g, true) == ApplicableRoles(g, false)
    ensures IsDamage(g) ==> |ApplicableRoles(g, false)| == RoleCount && |ApplicableRoles(g, true)| == 2 * RoleCount
    ensures ApplicableRoles(Melee, true) == ApplicableRoles(Ranged, true)
  {
  }

  /** The first role of `pool` lying in `free`, or the default `Undefined` when there is none
      (`FirstOrDefault(r => _unassignedRoles.Contains(r))`). */
  function FirstFree(pool: seq<RoleId>, free: set<RoleId>): (r: RoleId)
    ensures (exists j :: 0 <= j < |pool| && pool[j] in free) ==> r in free && EarliestIn(pool, r, free)
    ensures (forall j :: 0 <= j < |pool| ==> pool[j] !in free) ==> r == Undefined
    decreases |pool|
  {
    if |pool| == 0 then Undefined
    else if pool[0] in free then pool[0]
    else
      var r := FirstFree(pool[1..], free);
      assert (exists j :: 0 <= j < |pool| && pool[j] in free) ==> r in free && EarliestIn(pool, r, free) by {
        if exists j :: 0 <= j < |pool| && pool[j] in free {
          var j :| 0 <= j < |pool| && pool[j] in free;
          assert pool[1..][j - 1] in free;
          var i :| 0 <= i < |pool[1..]| && pool[1..][i] == r && forall j :: 0 <= j < i ==> pool[1..][j] !in free;
          assert pool[i + 1] == r;
        }
      }
      r
  }

  /** A role other than `Undefined` that `FirstFree` returns is free and the earliest free one. */
  lemma FirstFreeFound(pool: seq<RoleId>, free: set<RoleId>)
    requires FirstFree(pool, free) != Undefined
    ensures FirstFree(pool, free) in free && EarliestIn(pool, FirstFree(pool, free), free)
  {
  }

  /** `r` occurs in `pool` and every role before it is outside `s`. */
  ghost predicate EarliestIn(pool: seq<RoleId>, r: RoleId, s: set<RoleId>) {
    exists i :: 0 <= i < |pool| && pool[i] == r && forall j :: 0 <= j < i ==> pool[j] !in s
  }

  lemma EarliestInShrink(pool: seq<RoleId>, r: RoleId, s: set<RoleId>, s': set<RoleId>)
    requires EarliestIn(pool, r, s) && s' <= s
    ensures EarliestIn(pool, r, s')
  {
  }

  /** `FindUnassignedRoleForGenericRole`. */
  function FindUnassignedRole(t: Tracker, g: GenericRole, eastern: bool): (r: RoleId)
    ensures r != Undefined ==> r in t.unassignedRoles && r in ApplicableRoles(g, eastern)
    ensures r != Undefined ==> forall x :: x in ApplicableRoles(g, eastern) && x < r ==> x !in t.unassignedRoles
    ensures r == Undefined && g != Unknown ==> forall x :: x in ApplicableRoles(g, eastern) ==> x !in t.unassignedRoles
  {
    var pool := ApplicableRoles(g, eastern);
    var r := FirstFree(pool, t.unassignedRoles);
    assert r != Undefined ==> forall x :: x in pool && x < r ==> x !in t.unassignedRoles by {
      if r != Undefined {
        FirstFreeIsLowest(pool, t.unassignedRoles);
      }
    }
    r
  }

  // ---------------------------------------------------------------------------
  // Queries

  /** `TryGetAssignedRole`: the role assigned to the identity, if any; a null name has none. */
  function TryGetAssignedRole(t: Tracker, name: Option<string>, worldId: UInt32): (r: Option<RoleId>)
    ensures r.Some? <==> name.Some? && PlayerId(name.value, worldId) in t.assignedRoles
    ensures r.Some? ==> r.value == t.assignedRoles[PlayerId(name.value, worldId)]
  {
    match name
    case None => None
    case Some(n) => if PlayerId(n, worldId) in t.assignedRoles then Some(t.assignedRoles[PlayerId(n, worldId)]) else None
  }

  /** `TryGetSuggestedRole`: the role last suggested for the identity, if any. */
  function TryGetSuggestedRole(t: Tracker, name: Option<string>, worldId: UInt32): (r: Option<RoleId>)
    ensures r.Some? <==> name.Some? && PlayerId(name.value, worldId) in t.suggestedRoles
    ensures r.Some? ==> r.value == t.suggestedRoles[PlayerId(name.value, worldId)]
  {
    match name
    case None => None
    case Some(n) => if PlayerId(n, worldId) in t.suggestedRoles then Some(t.suggestedRoles[PlayerId(n, worldId)]) else None
  }

  /** `GetAssignedRoleSet`: every role some identity is assigned to. */
  function AssignedRoleSet(t: Tracker): (r: set<RoleId>)
    ensures forall x :: x in r <==> exists k :: k in t.assignedRoles && t.assignedRoles[k] == x
  {
    t.assignedRoles.Values
  }

  /** The roles `FindUnassignedRole` gives the categories of `cats`, without `Undefined`. */
  function FirstRolesOf(t: Tracker, cats: seq<GenericRole>, eastern: bool): (r: set<RoleId>)
    ensures forall x :: x in r ==> x != Undefined && exists g :: g in cats && x == FindUnassignedRole(t, g, eastern)
    ensures forall g :: g in cats && FindUnassignedRole(t, g, eastern) != Undefined ==> FindUnassignedRole(t, g, eastern) in r
    decreases |cats|
  {
    if |cats| == 0 then {}
    else
      var x := FindUnassignedRole(t, cats[0], eastern);
      var rest := FirstRolesOf(t, cats[1..], eastern);
      assert forall g :: g in cats <==> g == cats[0] || g in cats[1..];
      (if x != Undefined then {x} else {}) + rest
  }

  /** `GetFirstUnassignedRoleSet`: the first unassigned role of every generic category's
      pool (`Enum.GetValues<GenericRole>()`), leaving out categories that have none. */
  function FirstUnassignedRoleSet(t: Tracker, eastern: bool): (r: set<RoleId>)
    ensures r <= t.unassignedRoles
    ensures Undefined !in r
  {
    var r := FirstRolesOf(t, [Tank, Melee, Ranged, Healer, Unknown], eastern);
    forall x | x in r
      ensures x in t.unassignedRoles
    {
      var g :| g in [Tank, Melee, Ranged, Healer, Unknown] && x == FindUnassignedRole(t, g, eastern);
      FirstFreeFound(ApplicableRoles(g, eastern), t.unassignedRoles);
    }
    r
  }

  /** Every role offered is the lowest unassigned role of some category's pool. */
  lemma FirstUnassignedRoleIsLowest(t: Tracker, eastern: bool, x: RoleId)
    requires x in FirstUnassignedRoleSet(t, eastern)
    ensures exists g :: (g != Unknown && x in ApplicableRoles(g, eastern)
      && (forall y :: y in ApplicableRoles(g, eastern) && y < x ==> y !in t.unassignedRoles))
  {
    var cats := [Tank, Melee, Ranged, Healer, Unknown];
    assert x in FirstRolesOf(t, cats, eastern);
    var g :| g in cats && x == FindUnassignedRole(t, g, eastern);
    assert g != Unknown;
    FirstFreeIsLowest(ApplicableRoles(g, eastern), t.unassignedRoles);
  }

  /** Every category with an unassigned role in its pool is represented. */
  lemma FirstUnassignedRoleCovers(t: Tracker, eastern: bool, g: GenericRole, y: RoleId)
    requires g != Unknown && y in ApplicableRoles(g, eastern) && y in t.unassignedRoles
    ensures FindUnassignedRole(t, g, eastern) in FirstUnassignedRoleSet(t, eastern)
    ensures FindUnassignedRole(t, g, eastern) in ApplicableRoles(g, eastern)
  {
    FirstFreeInPool(ApplicableRoles(g, eastern), t.unassignedRoles, y);
    var cats := [Tank, Melee, Ranged, Healer, Unknown];
    assert g in cats;
  }

  /** A pool with a free role yields a free role of the pool. */
  lemma FirstFreeInPool(pool: seq<RoleId>, free: set<RoleId>, y: RoleId)
    requires Undefined !in pool && y in pool && y in free
    ensures FirstFree(pool, free) != Undefined && FirstFree(pool, free) in pool
  {
    var j :| 0 <= j < |pool| && pool[j] == y;
    assert pool[j] in free;
  }

  /** In an ascending pool the first free role is the lowest free one. */
  lemma FirstFreeIsLowest(pool: seq<RoleId>, free: set<RoleId>)
    requires forall i, j :: 0 <= i < j < |pool| ==> pool[i] < pool[j]
    requires FirstFree(pool, free) != Undefined
    ensures FirstFree(pool, free) in pool
    ensures forall y :: y in pool && y < FirstFree(pool, free) ==> y !in free
  {
    var x := FirstFree(pool, free);
    var i :| 0 <= i < |pool| && pool[i] == x && forall j :: 0 <= j < i ==> pool[j] !in free;
    forall y | y in pool && y < x
      ensures y !in free
    {
      var j :| 0 <= j < |pool| && pool[j] == y;
      assert j < i;
    }
  }

  // ---------------------------------------------------------------------------
  // Mutators

  /** `OccupyRole`: a null or empty name changes nothing. Otherwise the previous holder of
      `role` loses its occupation and the identity now occupies `role`. */
  function OccupyRole(t: Tracker, name: Option<string>, worldId: UInt32, role: RoleId): (r: Tracker)
    ensures name.None? || name.value == "" ==> r == t
    ensures name.Some? && name.value != "" ==>
      var id := PlayerId(name.value, worldId);
      && r == t.(occupiedRoles := r.occupiedRoles)
      && id in r.occupiedRoles && r.occupiedRoles[id] == role
      && (forall k :: k in r.occupiedRoles && k != id ==> k in t.occupiedRoles && r.occupiedRoles[k] == t.occupiedRoles[k] != role)
      && (forall k :: k in t.occupiedRoles && k != id && t.occupiedRoles[k] != role ==> k in r.occupiedRoles)
  {
    match name
    case None => t
    case Some(n) =>
      if n == "" then t
      else
        var kept := map k | k in t.occupiedRoles && t.occupiedRoles[k] != role :: t.occupiedRoles[k];
        t.(occupiedRoles := kept[PlayerId(n, worldId) := role])
  }

  /** Occupation stays one identity per role. */
  lemma OccupyRolePreservesValid(t: Tracker, name: Option<string>, worldId: UInt32, role: RoleId)
    requires Valid(t)
    ensures Valid(OccupyRole(t, name, worldId, role))
  {
  }

  /** Claiming a role another identity holds moves the role: {A: role} becomes {B: role}. */
  lemma OccupyRoleEvicts(t: Tracker, a: string, wa: UInt32, b: string, wb: UInt32, role: RoleId)
    requires t.occupiedRoles == map[PlayerId(a, wa) := role]
    requires b != ""
    ensures OccupyRole(t, Some(b), wb, role).occupiedRoles == map[PlayerId(b, wb) := role]
  {
  }

  /** `SuggestRole`: records `role` as the suggestion for the identity. */
  function SuggestRole(t: Tracker, name: string, worldId: UInt32, role: RoleId): (r: Tracker)
    ensures TryGetSuggestedRole(r, Some(name), worldId) == Some(role)
    ensures forall k :: k != PlayerId(name, worldId) ==> (k in r.suggestedRoles <==> k in t.suggestedRoles)
    ensures forall k :: k in t.suggestedRoles && k != PlayerId(name, worldId) ==> r.suggestedRoles[k] == t.suggestedRoles[k]
    ensures r == t.(suggestedRoles := r.suggestedRoles)
  {
    t.(suggestedRoles := t.suggestedRoles[PlayerId(name, worldId) := role])
  }

  /** `ResetOccupations`. */
  function ResetOccupations(t: Tracker): (r: Tracker)
    ensures |r.occupiedRoles| == 0 && r == t.(occupiedRoles := r.occupiedRoles)
  {
    t.(occupiedRoles := map[])
  }

  /** `ResetAssignments`: nobody is assigned and every assignable role is unassigned. */
  function ResetAssignments(t: Tracker): (r: Tracker)
    ensures |r.assignedRoles| == 0
    ensures forall x :: x in r.unassignedRoles <==> x != Undefined
    ensures r == t.(assignedRoles := r.assignedRoles, unassignedRoles := r.unassignedRoles)
  {
    t.(assignedRoles := map[], unassignedRoles := AllRoles)
  }

  // ---------------------------------------------------------------------------
  // Reconciliation

  /** Step 1: every occupation becomes an assignment, with no job or membership check, and
      its role leaves the unassigned set. */
  function CopyOccupations(t: Tracker): (r: Tracker)
    ensures r == t.(assignedRoles := r.assignedRoles, unassignedRoles := r.unassignedRoles)
    ensures forall k :: k in t.occupiedRoles ==> k in r.assignedRoles && r.assignedRoles[k] == t.occupiedRoles[k]
    ensures forall k :: k in r.assignedRoles ==> k in t.assignedRoles || k in t.occupiedRoles
    ensures forall x :: x in r.unassignedRoles <==> x in t.unassignedRoles && x !in t.occupiedRoles.Values
  {
    t.(assignedRoles := t.assignedRoles + t.occupiedRoles, unassignedRoles := t.unassignedRoles - t.occupiedRoles.Values)
  }

  /** One static entry against the roster, in roster order: a member with no assignment yet,
      whose "name@WorldName" equals the key and whose pool holds the role, gets the role.
      The unassigned set is left alone. */
  function ApplyStatic(acc: map<string, RoleId>, e: StaticEntry, roster: seq<Member>, eastern: bool): (r: map<string, RoleId>)
    ensures forall k :: k in acc ==> k in r && r[k] == acc[k]
    decreases |roster|
  {
    if |roster| == 0 then acc
    else
      var m := roster[0];
      var next :=
        if MemberId(m) !in acc && e.key == Description(m) && e.role in ApplicableRoles(m.role, eastern)
        then acc[MemberId(m) := e.role]
        else acc;
      ApplyStatic(next, e, roster[1..], eastern)
  }

  /** Step 2: every static entry in turn. */
  function ApplyStatics(acc: map<string, RoleId>, statics: seq<StaticEntry>, roster: seq<Member>, eastern: bool): (r: map<string, RoleId>)
    ensures forall k :: k in acc ==> k in r && r[k] == acc[k]
    decreases |statics|
  {
    if |statics| == 0 then acc
    else ApplyStatics(ApplyStatic(acc, statics[0], roster, eastern), statics[1..], roster, eastern)
  }

  /** Step 3: each roster member still without a role, in roster order, takes the first role
      of its pool that is still free; a member whose pool has none stays unassigned. Returns
      the assignments and the roles left free. */
  function AssignRest(acc: map<string, RoleId>, free: set<RoleId>, roster: seq<Member>, eastern: bool): (r: (map<string, RoleId>, set<RoleId>))
    ensures forall k :: k in acc ==> k in r.0 && r.0[k] == acc[k]
    ensures r.1 <= free
    decreases |roster|
  {
    if |roster| == 0 then (acc, free)
    else
      var m := roster[0];
      if MemberId(m) in acc then AssignRest(acc, free, roster[1..], eastern)
      else
        var role := FirstFree(ApplicableRoles(m.role, eastern), free);
        if role != Undefined then AssignRest(acc[MemberId(m) := role], free - {role}, roster[1..], eastern)
        else AssignRest(acc, free, roster[1..], eastern)
  }

  /** `CalculateUnassignedPartyRoles`: reset, then occupations, static assignments and
      first-free fallback, in that order. */
  function Recalculate(t: Tracker, roster: seq<Member>, settings: Settings): (r: Tracker)
    ensures r == t.(assignedRoles := r.assignedRoles, unassignedRoles := r.unassignedRoles)
    ensures forall k :: k in t.occupiedRoles ==> k in r.assignedRoles && r.assignedRoles[k] == t.occupiedRoles[k]
    ensures forall x :: x in r.unassignedRoles ==> x != Undefined && x !in t.occupiedRoles.Values
  {
    var t1 := CopyOccupations(ResetAssignments(t));
    var withStatics := ApplyStatics(t1.assignedRoles, settings.statics, roster, settings.eastern);
    var rest := AssignRest(withStatics, t1.unassignedRoles, roster, settings.eastern);
    t1.(assignedRoles := rest.0, unassignedRoles := rest.1)
  }

  // ---------------------------------------------------------------------------
  // What each reconciliation step does

  /** Static entry `e` gives key `k` the role `v`: some roster member has key `k`, its
      "name@WorldName" is the entry's key, and `v` is the entry's role and in its pool. */
  ghost predicate StaticApplies(k: string, v: RoleId, e: StaticEntry, roster: seq<Member>, eastern: bool) {
    exists i :: 0 <= i < |roster| && MemberId(roster[i]) == k && e.key == Description(roster[i])
      && e.role == v && v in ApplicableRoles(roster[i].role, eastern)
  }

  /** One static entry adds a key only for a member it matches. */
  lemma {:induction false} ApplyStaticSound(acc: map<string, RoleId>, e: StaticEntry, roster: seq<Member>, eastern: bool)
    ensures forall k :: k in ApplyStatic(acc, e, roster, eastern) && k !in acc ==>
      StaticApplies(k, ApplyStatic(acc, e, roster, eastern)[k], e, roster, eastern)
    decreases |roster|
  {
    if |roster| > 0 {
      var m := roster[0];
      var hit := MemberId(m) !in acc && e.key == Description(m) && e.role in ApplicableRoles(m.role, eastern);
      var next := if hit then acc[MemberId(m) := e.role] else acc;
      var r := ApplyStatic(acc, e, roster, eastern);
      assert r == ApplyStatic(next, e, roster[1..], eastern);
      ApplyStaticSound(next, e, roster[1..], eastern);
      forall k | k in r && k !in acc
        ensures StaticApplies(k, r[k], e, roster, eastern)
      {
        if k in next {
          assert hit && k == MemberId(roster[0]) && r[k] == e.role;
        } else {
          var i :| 0 <= i < |roster[1..]| && MemberId(roster[1..][i]) == k && e.key == Description(roster[1..][i])
            && e.role == r[k] && r[k] in ApplicableRoles(roster[1..][i].role, eastern);
          assert roster[i + 1] == roster[1..][i];
        }
      }
    }
  }

  /** One static entry reaches every member it matches that has no assignment yet. */
  lemma {:induction false} ApplyStaticComplete(acc: map<string, RoleId>, e: StaticEntry, roster: seq<Member>, eastern: bool)
    ensures forall i ::
      (0 <= i < |roster| && MemberId(roster[i]) !in acc && e.key == Description(roster[i])
       && e.role in ApplicableRoles(roster[i].role, eastern))
      ==> MemberId(roster[i]) in ApplyStatic(acc, e, roster, eastern)
    decreases |roster|
  {
    if |roster| > 0 {
      var m := roster[0];
      var hit := MemberId(m) !in acc && e.key == Description(m) && e.role in ApplicableRoles(m.role, eastern);
      var next := if hit then acc[MemberId(m) := e.role] else acc;
      var r := ApplyStatic(acc, e, roster, eastern);
      assert r == ApplyStatic(next, e, roster[1..], eastern);
      ApplyStaticComplete(next, e, roster[1..], eastern);
      forall i | 0 <= i < |roster| && MemberId(roster[i]) !in acc && e.key == Description(roster[i])
        && e.role in ApplicableRoles(roster[i].role, eastern)
        ensures MemberId(roster[i]) in r
      {
        if i > 0 && MemberId(roster[i]) !in next {
          assert roster[1..][i - 1] == roster[i];
        }
      }
    }
  }

  /** Some static entry gives key `k` the role `v`. */
  ghost predicate StaticJustified(k: string, v: RoleId, statics: seq<StaticEntry>, roster: seq<Member>, eastern: bool) {
    exists j :: 0 <= j < |statics| && StaticApplies(k, v, statics[j], roster, eastern)
  }

  /** Step 2 adds a key only under a matching static entry, and adds every member that has a
      matching entry and no assignment before the step. */
  lemma {:induction false} ApplyStaticsSpec(acc: map<string, RoleId>, statics: seq<StaticEntry>, roster: seq<Member>, eastern: bool)
    ensures forall k :: k in ApplyStatics(acc, statics, roster, eastern) && k !in acc ==>
      StaticJustified(k, ApplyStatics(acc, statics, roster, eastern)[k], statics, roster, eastern)
    ensures forall i, j ::
      (0 <= i < |roster| && 0 <= j < |statics| && MemberId(roster[i]) !in acc
       && statics[j].key == Description(roster[i]) && statics[j].role in ApplicableRoles(roster[i].role, eastern))
      ==> MemberId(roster[i]) in ApplyStatics(acc, statics, roster, eastern)
    decreases |statics|
  {
    if |statics| > 0 {
      var next := ApplyStatic(acc, statics[0], roster, eastern);
      var r := ApplyStatics(acc, statics, roster, eastern);
      assert r == ApplyStatics(next, statics[1..], roster, eastern);
      ApplyStaticSound(acc, statics[0], roster, eastern);
      ApplyStaticComplete(acc, statics[0], roster, eastern);
      ApplyStaticsSpec(next, statics[1..], roster, eastern);
      forall k | k in r && k !in acc
        ensures StaticJustified(k, r[k], statics, roster, eastern)
      {
        if k in next {
          assert StaticApplies(k, r[k], statics[0], roster, eastern);
        } else {
          var j :| 0 <= j < |statics[1..]| && StaticApplies(k, r[k], statics[1..][j], roster, eastern);
          assert statics[j + 1] == statics[1..][j];
        }
      }
      forall i, j | 0 <= i < |roster| && 0 <= j < |statics| && MemberId(roster[i]) !in acc
        && statics[j].key == Description(roster[i]) && statics[j].role in ApplicableRoles(roster[i].role, eastern)
        ensures MemberId(roster[i]) in r
      {
        if j > 0 && MemberId(roster[i]) !in next {
          assert statics[1..][j - 1] == statics[j];
        }
      }
    }
  }

  /** Fallback may have chosen `v` for key `k`: `k` belongs to a roster member and `v` is in
      its pool with every earlier pool role outside `free` (the roles left free at the end). */
  ghost predicate FallbackChose(k: string, v: RoleId, roster: seq<Member>, eastern: bool, free: set<RoleId>) {
    exists i :: 0 <= i < |roster| && MemberId(roster[i]) == k && EarliestIn(ApplicableRoles(roster[i].role, eastern), v, free)
  }

  /** Step 3 hands a member a role only if the role was free and is taken afterwards, and no
      pool role before it is left free at the end. The order among members is stated by
      `AssignRestTurn` and `AssignRestInPoolOrder`. */
  lemma {:induction false} AssignRestChoice(acc: map<string, RoleId>, free: set<RoleId>, roster: seq<Member>, eastern: bool)
    ensures var a, u := AssignRest(acc, free, roster, eastern).0, AssignRest(acc, free, roster, eastern).1;
      forall k :: k in a && k !in acc ==>
        a[k] != Undefined && a[k] in free && a[k] !in u && FallbackChose(k, a[k], roster, eastern, u)
    decreases |roster|
  {
    if |roster| > 0 {
      var m := roster[0];
      var pool := ApplicableRoles(m.role, eastern);
      var res := AssignRest(acc, free, roster, eastern);
      var (a, u) := res;
      var role := FirstFree(pool, free);
      if MemberId(m) !in acc && role != Undefined {
        var acc' := acc[MemberId(m) := role];
        assert res == AssignRest(acc', free - {role}, roster[1..], eastern);
        FirstFreeFound(pool, free);
        AssignRestChoice(acc', free - {role}, roster[1..], eastern);
        EarliestInShrink(pool, role, free, u);
        assert FallbackChose(MemberId(m), role, roster, eastern, u);
        ShiftChosen(acc', a, roster, eastern, u);
      } else {
        assert res == AssignRest(acc, free, roster[1..], eastern);
        AssignRestChoice(acc, free, roster[1..], eastern);
        ShiftChosen(acc, a, roster, eastern, u);
      }
    }
  }

  /** Step 3 never hands the same role to two members. */
  lemma {:induction false} AssignRestDistinct(acc: map<string, RoleId>, free: set<RoleId>, roster: seq<Member>, eastern: bool)
    ensures var a := AssignRest(acc, free, roster, eastern).0;
      forall k1, k2 :: k1 in a && k2 in a && k1 !in acc && k2 !in acc && k1 != k2 ==> a[k1] != a[k2]
    decreases |roster|
  {
    if |roster| > 0 {
      var m := roster[0];
      var role := FirstFree(ApplicableRoles(m.role, eastern), free);
      var a := AssignRest(acc, free, roster, eastern).0;
      if MemberId(m) !in acc && role != Undefined {
        var acc' := acc[MemberId(m) := role];
        var free' := free - {role};
        assert a == AssignRest(acc', free', roster[1..], eastern).0;
        AssignRestDistinct(acc', free', roster[1..], eastern);
        AssignRestChoice(acc', free', roster[1..], eastern);
        forall k1, k2 | k1 in a && k2 in a && k1 !in acc && k2 !in acc && k1 != k2
          ensures a[k1] != a[k2]
        {
          if k1 == MemberId(m) {
            assert a[k2] in free';
          } else if k2 == MemberId(m) {
            assert a[k1] in free';
          }
        }
      } else {
        assert a == AssignRest(acc, free, roster[1..], eastern).0;
        AssignRestDistinct(acc, free, roster[1..], eastern);
      }
    }
  }

  /** Every role step 3 takes out of the free set went to some member it assigned. */
  lemma {:induction false} AssignRestCovers(acc: map<string, RoleId>, free: set<RoleId>, roster: seq<Member>, eastern: bool)
    ensures var a, u := AssignRest(acc, free, roster, eastern).0, AssignRest(acc, free, roster, eastern).1;
      forall x :: x in free && x !in u ==> exists k :: k in a && k !in acc && a[k] == x
    decreases |roster|
  {
    if |roster| > 0 {
      var m := roster[0];
      var role := FirstFree(ApplicableRoles(m.role, eastern), free);
      var res := AssignRest(acc, free, roster, eastern);
      var (a, u) := res;
      if MemberId(m) !in acc && role != Undefined {
        var acc' := acc[MemberId(m) := role];
        assert res == AssignRest(acc', free - {role}, roster[1..], eastern);
        AssignRestCovers(acc', free - {role}, roster[1..], eastern);
        forall x | x in free && x !in u
          ensures exists k :: k in a && k !in acc && a[k] == x
        {
          if x == role {
            assert MemberId(m) in a && a[MemberId(m)] == role;
          } else {
            var k :| k in a && k !in acc' && a[k] == x;
          }
        }
      } else {
        AssignRestCovers(acc, free, roster[1..], eastern);
      }
    }
  }

  /** A roster member step 3 leaves without a role has no role of its pool still free. */
  lemma {:induction false} AssignRestExhausts(acc: map<string, RoleId>, free: set<RoleId>, roster: seq<Member>, eastern: bool)
    ensures var a, u := AssignRest(acc, free, roster, eastern).0, AssignRest(acc, free, roster, eastern).1;
      forall i, x ::
        (0 <= i < |roster| && MemberId(roster[i]) !in a && x in ApplicableRoles(roster[i].role, eastern) && x != Undefined)
        ==> x !in u
    decreases |roster|
  {
    if |roster| > 0 {
      var m := roster[0];
      var pool := ApplicableRoles(m.role, eastern);
      var role := FirstFree(pool, free);
      var res := AssignRest(acc, free, roster, eastern);
      var (a, u) := res;
      var acc' := if MemberId(m) !in acc && role != Undefined then acc[MemberId(m) := role] else acc;
      var free' := if MemberId(m) !in acc && role != Undefined then free - {role} else free;
      assert res == AssignRest(acc', free', roster[1..], eastern);
      AssignRestExhausts(acc', free', roster[1..], eastern);
      forall i, x | 0 <= i < |roster| && MemberId(roster[i]) !in a && x in ApplicableRoles(roster[i].role, eastern)
        && x != Undefined
        ensures x !in u
      {
        if i == 0 {
          assert MemberId(m) !in acc' && role == Undefined;
          var j :| 0 <= j < |pool| && pool[j] == x;
          if x in free {
            FirstFreeFound(pool, free);
            assert false;
          }
        } else {
          assert roster[1..][i - 1] == roster[i];
        }
      }
    }
  }

  lemma AssignRestExhaustsAt(acc: map<string, RoleId>, free: set<RoleId>, roster: seq<Member>, eastern: bool, i: int, x: RoleId)
    requires 0 <= i < |roster| && MemberId(roster[i]) !in AssignRest(acc, free, roster, eastern).0
    requires x in ApplicableRoles(roster[i].role, eastern) && x != Undefined
    ensures x !in AssignRest(acc, free, roster, eastern).1
  {
    AssignRestExhausts(acc, free, roster, eastern);
  }

  /** A fallback choice justified by the roster's tail is justified by the whole roster. */
  lemma ShiftChosen(acc: map<string, RoleId>, a: map<string, RoleId>, roster: seq<Member>, eastern: bool, u: set<RoleId>)
    requires |roster| > 0
    requires forall k :: k in a && k !in acc ==> FallbackChose(k, a[k], roster[1..], eastern, u)
    ensures forall k :: k in a && k !in acc ==> FallbackChose(k, a[k], roster, eastern, u)
  {
    forall k | k in a && k !in acc
      ensures FallbackChose(k, a[k], roster, eastern, u)
    {
      var i :| 0 <= i < |roster[1..]| && MemberId(roster[1..][i]) == k
        && EarliestIn(ApplicableRoles(roster[1..][i].role, eastern), a[k], u);
      assert roster[i + 1] == roster[1..][i];
    }
  }

  /** Step 3 over a roster split in two: the second part continues from the assignments and
      free roles the first part left. */
  lemma {:induction false} AssignRestSplit(acc: map<string, RoleId>, free: set<RoleId>, r1: seq<Member>, r2: seq<Member>, eastern: bool)
    ensures var mid := AssignRest(acc, free, r1, eastern);
      AssignRest(acc, free, r1 + r2, eastern) == AssignRest(mid.0, mid.1, r2, eastern)
    decreases |r1|
  {
    if |r1| == 0 {
      assert r1 + r2 == r2;
    } else {
      assert (r1 + r2)[0] == r1[0];
      assert (r1 + r2)[1..] == r1[1..] + r2;
      var m := r1[0];
      var role := FirstFree(ApplicableRoles(m.role, eastern), free);
      var takes := MemberId(m) !in acc && role != Undefined;
      var acc' := if takes then acc[MemberId(m) := role] else acc;
      var free' := if takes then free - {role} else free;
      assert AssignRest(acc, free, r1 + r2, eastern) == AssignRest(acc', free', r1[1..] + r2, eastern);
      assert AssignRest(acc, free, r1, eastern) == AssignRest(acc', free', r1[1..], eastern);
      AssignRestSplit(acc', free', r1[1..], r2, eastern);
    }
  }

  /** The roles step 3 hands out: the values of the keys it added to `acc`. */
  function Handed(acc: map<string, RoleId>, a: map<string, RoleId>): set<RoleId> {
    set k | k in a && k !in acc :: a[k]
  }

  /** The roles step 3 leaves free are exactly the starting free roles minus those it
      handed out. */
  lemma AssignRestLeftover(acc: map<string, RoleId>, free: set<RoleId>, roster: seq<Member>, eastern: bool)
    ensures var res := AssignRest(acc, free, roster, eastern);
      res.1 == free - Handed(acc, res.0)
  {
    var res := AssignRest(acc, free, roster, eastern);
    AssignRestChoice(acc, free, roster, eastern);
    AssignRestCovers(acc, free, roster, eastern);
  }

  /** Member `i`'s turn, in roster order: unless its key already has a role (from `acc` or
      an earlier member), it takes the first role of its pool among those not handed to
      the members before it, when there is one. */
  lemma AssignRestTurn(acc: map<string, RoleId>, free: set<RoleId>, roster: seq<Member>, eastern: bool, i: int)
    requires 0 <= i < |roster|
    ensures var before := AssignRest(acc, free, roster[..i], eastern).0;
      var a := AssignRest(acc, free, roster, eastern).0;
      var k := MemberId(roster[i]);
      var choice := FirstFree(ApplicableRoles(roster[i].role, eastern), free - Handed(acc, before));
      k !in before && choice != Undefined ==> k in a && a[k] == choice
  {
    var mid := AssignRest(acc, free, roster[..i], eastern);
    AssignRestLeftover(acc, free, roster[..i], eastern);
    assert roster == roster[..i] + roster[i..];
    AssignRestSplit(acc, free, roster[..i], roster[i..], eastern);
    var m := roster[i];
    var role := FirstFree(ApplicableRoles(m.role, eastern), mid.1);
    if MemberId(m) !in mid.0 && role != Undefined {
      assert roster[i..][0] == m;
      assert AssignRest(mid.0, mid.1, roster[i..], eastern)
        == AssignRest(mid.0[MemberId(m) := role], mid.1 - {role}, roster[i..][1..], eastern);
    }
  }

  /** Later prefixes of the roster leave fewer roles free. */
  lemma AssignRestPrefixShrinks(acc: map<string, RoleId>, free: set<RoleId>, roster: seq<Member>, eastern: bool, i: int, j: int)
    requires 0 <= i <= j <= |roster|
    ensures AssignRest(acc, free, roster[..j], eastern).1 <= AssignRest(acc, free, roster[..i], eastern).1
  {
    assert roster[..j] == roster[..i] + roster[i..j];
    AssignRestSplit(acc, free, roster[..i], roster[i..j], eastern);
  }

  /** Member `i` taking role `x` removes `x` from the roles free for everyone after it. */
  lemma AssignRestTakes(acc: map<string, RoleId>, free: set<RoleId>, roster: seq<Member>, eastern: bool, i: int)
    requires 0 <= i < |roster|
    requires MemberId(roster[i]) !in AssignRest(acc, free, roster[..i], eastern).0
    ensures var before := AssignRest(acc, free, roster[..i], eastern).1;
      var x := FirstFree(ApplicableRoles(roster[i].role, eastern), before);
      x != Undefined ==> AssignRest(acc, free, roster[..i + 1], eastern).1 == before - {x}
  {
    var mid := AssignRest(acc, free, roster[..i], eastern);
    assert roster[..i + 1] == roster[..i] + [roster[i]];
    AssignRestSplit(acc, free, roster[..i], [roster[i]], eastern);
    assert [roster[i]][1..] == [];
  }

  /** First free roles of one pool, taken from a set and then from a subset without the
      first choice, come in pool order. */
  lemma FirstFreeLater(pool: seq<RoleId>, s: set<RoleId>, s': set<RoleId>)
    requires Undefined !in pool && FirstFree(pool, s') != Undefined
    requires s' <= s - {FirstFree(pool, s)}
    ensures FirstFree(pool, s) != Undefined
    ensures exists p, q :: 0 <= p < q < |pool| && pool[p] == FirstFree(pool, s) && pool[q] == FirstFree(pool, s')
  {
    var b := FirstFree(pool, s');
    FirstFreeFound(pool, s');
    var q :| 0 <= q < |pool| && pool[q] == b && forall x :: 0 <= x < q ==> pool[x] !in s';
    assert b in s;
    var a := FirstFree(pool, s);
    var p :| 0 <= p < |pool| && pool[p] == a && forall x :: 0 <= x < p ==> pool[x] !in s;
    assert p < q;
  }

  /** Two members that share a pool and both get a fallback role take them in roster order:
      the earlier member's role comes first in the pool. */
  lemma AssignRestInPoolOrder(acc: map<string, RoleId>, free: set<RoleId>, roster: seq<Member>, eastern: bool, i: int, j: int)
    requires 0 <= i < j < |roster| && roster[i].role == roster[j].role
    requires MemberId(roster[i]) !in AssignRest(acc, free, roster[..i], eastern).0
    requires MemberId(roster[j]) !in AssignRest(acc, free, roster[..j], eastern).0
    requires FirstFree(ApplicableRoles(roster[j].role, eastern), AssignRest(acc, free, roster[..j], eastern).1) != Undefined
    ensures var a := AssignRest(acc, free, roster, eastern).0;
      var pool := ApplicableRoles(roster[i].role, eastern);
      MemberId(roster[i]) in a && MemberId(roster[j]) in a
      && exists p, q :: 0 <= p < q < |pool| && pool[p] == a[MemberId(roster[i])] && pool[q] == a[MemberId(roster[j])]
  {
    var pool := ApplicableRoles(roster[i].role, eastern);
    var si := AssignRest(acc, free, roster[..i], eastern).1;
    var sj := AssignRest(acc, free, roster[..j], eastern).1;
    var ri := FirstFree(pool, si);
    assert roster[j].role != Unknown;
    if ri != Undefined {
      AssignRestTakes(acc, free, roster, eastern, i);
    }
    AssignRestPrefixShrinks(acc, free, roster, eastern, i + 1, j);
    AssignRestPrefixShrinks(acc, free, roster, eastern, i, j);
    FirstFreeLater(pool, si, sj);
    AssignRestLeftover(acc, free, roster[..i], eastern);
    AssignRestLeftover(acc, free, roster[..j], eastern);
    AssignRestTurn(acc, free, roster, eastern, i);
    AssignRestTurn(acc, free, roster, eastern, j);
  }

  // ---------------------------------------------------------------------------
  // What the whole reconciliation pass guarantees

  /** Every assignment after the pass is an occupation copied verbatim, a static assignment,
      or a fallback choice of a role no occupation holds and no longer unassigned; the
      unassigned set holds only assignable roles nobody occupies; occupations and
      suggestions are untouched. */
  lemma {:induction false} RecalculateSound(t: Tracker, roster: seq<Member>, settings: Settings)
    ensures var r := Recalculate(t, roster, settings);
      var o := t.occupiedRoles;
      && r.occupiedRoles == o && r.suggestedRoles == t.suggestedRoles
      && (forall k :: k in o ==> k in r.assignedRoles && r.assignedRoles[k] == o[k])
      && (forall x :: x in r.unassignedRoles ==> x != Undefined && x !in o.Values)
      && (forall k :: k in r.assignedRoles && k !in o ==>
            StaticJustified(k, r.assignedRoles[k], settings.statics, roster, settings.eastern)
            || (r.assignedRoles[k] != Undefined && r.assignedRoles[k] !in o.Values && r.assignedRoles[k] !in r.unassignedRoles
                && FallbackChose(k, r.assignedRoles[k], roster, settings.eastern, r.unassignedRoles)))
  {
    var o := t.occupiedRoles;
    var e := settings.eastern;
    var t1 := CopyOccupations(ResetAssignments(t));
    var ws := ApplyStatics(t1.assignedRoles, settings.statics, roster, e);
    var rest := AssignRest(ws, t1.unassignedRoles, roster, e);
    var r := Recalculate(t, roster, settings);
    assert r.assignedRoles == rest.0 && r.unassignedRoles == rest.1;
    ApplyStaticsSpec(t1.assignedRoles, settings.statics, roster, e);
    AssignRestChoice(ws, t1.unassignedRoles, roster, e);
    forall k | k in r.assignedRoles && k !in o
      ensures StaticJustified(k, r.assignedRoles[k], settings.statics, roster, e)
        || (r.assignedRoles[k] != Undefined && r.assignedRoles[k] !in o.Values && r.assignedRoles[k] !in r.unassignedRoles
            && FallbackChose(k, r.assignedRoles[k], roster, e, r.unassignedRoles))
    {
      assert k !in t1.assignedRoles;
      if k in ws {
        assert StaticJustified(k, ws[k], settings.statics, roster, e);
      } else {
        assert r.assignedRoles[k] in t1.unassignedRoles;
      }
    }
  }

  /** Every roster member is assigned after the pass unless no role of its pool is left
      unassigned; and a member nobody occupies with a matching static entry is assigned. */
  lemma {:induction false} RecalculateComplete(t: Tracker, roster: seq<Member>, settings: Settings)
    ensures var r := Recalculate(t, roster, settings);
      forall i, x ::
        (0 <= i < |roster| && MemberId(roster[i]) !in r.assignedRoles
         && x in ApplicableRoles(roster[i].role, settings.eastern) && x != Undefined)
        ==> x !in r.unassignedRoles
    ensures var r := Recalculate(t, roster, settings);
      forall i, j ::
        (0 <= i < |roster| && 0 <= j < |settings.statics| && MemberId(roster[i]) !in t.occupiedRoles
         && settings.statics[j].key == Description(roster[i])
         && settings.statics[j].role in ApplicableRoles(roster[i].role, settings.eastern))
        ==> MemberId(roster[i]) in r.assignedRoles
  {
    var e := settings.eastern;
    var t1 := CopyOccupations(ResetAssignments(t));
    var ws := ApplyStatics(t1.assignedRoles, settings.statics, roster, e);
    var rest := AssignRest(ws, t1.unassignedRoles, roster, e);
    var r := Recalculate(t, roster, settings);
    assert r.assignedRoles == rest.0 && r.unassignedRoles == rest.1;
    ApplyStaticsSpec(t1.assignedRoles, settings.statics, roster, e);
    AssignRestExhausts(ws, t1.unassignedRoles, roster, e);
    forall i, x | 0 <= i < |roster| && MemberId(roster[i]) !in r.assignedRoles
      && x in ApplicableRoles(roster[i].role, e) && x != Undefined
      ensures x !in r.unassignedRoles
    {
      assert MemberId(roster[i]) !in rest.0;
      AssignRestExhaustsAt(ws, t1.unassignedRoles, roster, e, i, x);
    }
    forall i, j | 0 <= i < |roster| && 0 <= j < |settings.statics| && MemberId(roster[i]) !in t.occupiedRoles
      && settings.statics[j].key == Description(roster[i])
      && settings.statics[j].role in ApplicableRoles(roster[i].role, e)
      ensures MemberId(roster[i]) in r.assignedRoles
    {
      assert MemberId(roster[i]) !in t1.assignedRoles;
      assert MemberId(roster[i]) in ws;
    }
  }

  /** A role leaves the unassigned set only when somebody is assigned it. */
  lemma {:induction false} RecalculateAccounts(t: Tracker, roster: seq<Member>, settings: Settings)
    ensures var r := Recalculate(t, roster, settings);
      forall x :: x != Undefined && x !in r.unassignedRoles ==>
        exists k :: k in r.assignedRoles && r.assignedRoles[k] == x
  {
    var t1 := CopyOccupations(ResetAssignments(t));
    var ws := ApplyStatics(t1.assignedRoles, settings.statics, roster, settings.eastern);
    var r := Recalculate(t, roster, settings);
    AssignRestCovers(ws, t1.unassignedRoles, roster, settings.eastern);
    forall x | x != Undefined && x !in r.unassignedRoles
      ensures exists k :: k in r.assignedRoles && r.assignedRoles[k] == x
    {
      if x !in t1.unassignedRoles {
        var k :| k in t.occupiedRoles && t.occupiedRoles[k] == x;
        assert k in t1.assignedRoles;
      }
    }
  }

  /** With injective occupations, two identities share a role after the pass only when one
      of them got it from a static assignment: occupations, fallback choices and each other
      never collide. */
  lemma {:induction false} RecalculateNoDoubleBooking(t: Tracker, roster: seq<Member>, settings: Settings)
    requires Injective(t.occupiedRoles)
    ensures var r := Recalculate(t, roster, settings);
      forall k1, k2 ::
        (k1 in r.assignedRoles && k2 in r.assignedRoles && k1 != k2 && r.assignedRoles[k1] == r.assignedRoles[k2])
        ==> ((k1 !in t.occupiedRoles && StaticJustified(k1, r.assignedRoles[k1], settings.statics, roster, settings.eastern))
             || (k2 !in t.occupiedRoles && StaticJustified(k2, r.assignedRoles[k2], settings.statics, roster, settings.eastern)))
  {
    var o := t.occupiedRoles;
    var t1 := CopyOccupations(ResetAssignments(t));
    var ws := ApplyStatics(t1.assignedRoles, settings.statics, roster, settings.eastern);
    var r := Recalculate(t, roster, settings);
    ApplyStaticsSpec(t1.assignedRoles, settings.statics, roster, settings.eastern);
    AssignRestChoice(ws, t1.unassignedRoles, roster, settings.eastern);
    AssignRestDistinct(ws, t1.unassignedRoles, roster, settings.eastern);
    forall k1, k2 | k1 in r.assignedRoles && k2 in r.assignedRoles && k1 != k2 && r.assignedRoles[k1] == r.assignedRoles[k2]
      ensures (k1 !in o && StaticJustified(k1, r.assignedRoles[k1], settings.statics, roster, settings.eastern))
        || (k2 !in o && StaticJustified(k2, r.assignedRoles[k2], settings.statics, roster, settings.eastern))
    {
      if k1 in o {
        assert r.assignedRoles[k1] in o.Values;
      }
      if k2 in o {
        assert r.assignedRoles[k2] in o.Values;
      }
      if k1 !in ws {
        assert r.assignedRoles[k1] in t1.unassignedRoles;
      }
      if k2 !in ws {
        assert r.assignedRoles[k2] in t1.unassignedRoles;
      }
    }
  }

  /** Without static assignments the pass keeps the no-double-booking invariant: assignments
      are injective whenever occupations are. */
  lemma RecalculateUniqueWithoutStatics(t: Tracker, roster: seq<Member>, settings: Settings)
    requires Injective(t.occupiedRoles) && settings.statics == []
    ensures Injective(Recalculate(t, roster, settings).assignedRoles)
  {
    RecalculateNoDoubleBooking(t, roster, settings);
  }

  /** The pass keeps `Valid`. */
  lemma RecalculatePreservesValid(t: Tracker, roster: seq<Member>, settings: Settings)
    requires Valid(t)
    ensures Valid(Recalculate(t, roster, settings))
  {
  }

  // ---------------------------------------------------------------------------
  // Worked cases

  /** A static assignment does not take its role out of the unassigned set, so a second tank
      without a static entry falls back to the same MT slot the first one was given. */
  lemma StaticSlotCanBeReused(t: Tracker, a: Member, b: Member)
    requires a.role == Tank && b.role == Tank && MemberId(a) != MemberId(b)
    requires t.occupiedRoles == map[]
    ensures var r := Recalculate(t, [a, b], Settings(false, [StaticEntry(Description(a), MT)]));
      && MemberId(a) in r.assignedRoles && r.assignedRoles[MemberId(a)] == MT
      && MemberId(b) in r.assignedRoles && r.assignedRoles[MemberId(b)] == MT
  {
    var settings := Settings(false, [StaticEntry(Description(a), MT)]);
    var t1 := CopyOccupations(ResetAssignments(t));
    assert t1.assignedRoles == map[] && t1.unassignedRoles == AllRoles;
    BlockRolesMembership(0, MT);
    var ws := ApplyStatics(t1.assignedRoles, settings.statics, [a, b], false);
    var s0 := ApplyStatic(map[], settings.statics[0], [a, b], false);
    assert ApplyStatics(s0, [], [a, b], false) == s0;
    assert settings.statics[1..] == [];
    assert ws == s0;
    assert MemberId(a) in ws && ws[MemberId(a)] == MT;
    ApplyStaticSound(map[], settings.statics[0], [a, b], false);
    if MemberId(b) !in ws {
      AllRolesContents(MT);
      FirstSlotFree(0, AllRoles);
      assert AssignRest(ws, AllRoles, [a, b], false) == AssignRest(ws, AllRoles, [b], false);
      AssignRestStep(ws, AllRoles, [b], false);
    }
  }

  /** A static entry naming `Undefined` is honoured for a member whose job resolves to no
      category, since that member's pool is `[Undefined]`; without it the member stays
      unassigned. */
  lemma StaticUndefinedForUnknownJob(t: Tracker, a: Member, eastern: bool)
    requires a.role == Unknown && t.occupiedRoles == map[]
    ensures var r := Recalculate(t, [a], Settings(eastern, [StaticEntry(Description(a), Undefined)]));
      MemberId(a) in r.assignedRoles && r.assignedRoles[MemberId(a)] == Undefined
    ensures MemberId(a) !in Recalculate(t, [a], Settings(eastern, [])).assignedRoles
  {
    var t1 := CopyOccupations(ResetAssignments(t));
    assert t1.assignedRoles == map[];
    assert ApplyStatics(map[], [StaticEntry(Description(a), Undefined)], [a], eastern)
      == ApplyStatic(map[], StaticEntry(Description(a), Undefined), [a], eastern);
    AllRolesContents(Undefined);
    assert [Undefined][1..] == [];
    assert FirstFree([Undefined], t1.unassignedRoles) == Undefined;
    assert AssignRest(map[], t1.unassignedRoles, [a], eastern) == AssignRest(map[], t1.unassignedRoles, [], eastern);
  }

  /** With no occupations and no statics, one member of each category gets the first slot
      of its block. */
  lemma FallbackFirstSlots(t: Tracker, a: Member, b: Member, c: Member, d: Member)
    requires a.role == Tank && b.role == Healer && c.role == Melee && d.role == Ranged
    requires MemberId(a) != MemberId(b) && MemberId(a) != MemberId(c) && MemberId(a) != MemberId(d)
    requires MemberId(b) != MemberId(c) && MemberId(b) != MemberId(d) && MemberId(c) != MemberId(d)
    requires t.occupiedRoles == map[]
    ensures var r := Recalculate(t, [a, b, c, d], Settings(false, []));
      && r.assignedRoles == map[MemberId(a) := MT][MemberId(b) := H1][MemberId(c) := M1][MemberId(d) := R1]
      && r.unassignedRoles == AllRoles - {MT} - {H1} - {M1} - {R1}
  {
    var t1 := CopyOccupations(ResetAssignments(t));
    assert t1.assignedRoles == map[] && t1.unassignedRoles == AllRoles;
    FallbackFourSlots(a, b, c, d);
  }

  lemma FallbackFourSlots(a: Member, b: Member, c: Member, d: Member)
    requires a.role == Tank && b.role == Healer && c.role == Melee && d.role == Ranged
    requires MemberId(a) != MemberId(b) && MemberId(a) != MemberId(c) && MemberId(a) != MemberId(d)
    requires MemberId(b) != MemberId(c) && MemberId(b) != MemberId(d) && MemberId(c) != MemberId(d)
    ensures AssignRest(map[], AllRoles, [a, b, c, d], false)
      == (map[MemberId(a) := MT][MemberId(b) := H1][MemberId(c) := M1][MemberId(d) := R1], AllRoles - {MT} - {H1} - {M1} - {R1})
  {
    AllRolesContents(MT);
    AllRolesContents(H1);
    AllRolesContents(M1);
    AllRolesContents(R1);
    FallbackTakesFirstSlot(map[], AllRoles, [a, b, c, d], 0);
    assert [a, b, c, d][1..] == [b, c, d];
    FallbackLastThree(map[MemberId(a) := MT], AllRoles - {MT}, b, c, d);
  }

  lemma FallbackLastThree(acc: map<string, RoleId>, free: set<RoleId>, b: Member, c: Member, d: Member)
    requires b.role == Healer && c.role == Melee && d.role == Ranged
    requires MemberId(b) !in acc && MemberId(c) !in acc && MemberId(d) !in acc
    requires MemberId(b) != MemberId(c) && MemberId(b) != MemberId(d) && MemberId(c) != MemberId(d)
    requires H1 in free && M1 in free && R1 in free
    ensures AssignRest(acc, free, [b, c, d], false)
      == (acc[MemberId(b) := H1][MemberId(c) := M1][MemberId(d) := R1], free - {H1} - {M1} - {R1})
  {
    FallbackTakesFirstSlot(acc, free, [b, c, d], 1);
    assert [b, c, d][1..] == [c, d];
    FallbackLastTwo(acc[MemberId(b) := H1], free - {H1}, c, d);
  }

  lemma FallbackLastTwo(acc: map<string, RoleId>, free: set<RoleId>, c: Member, d: Member)
    requires c.role == Melee && d.role == Ranged
    requires MemberId(c) !in acc && MemberId(d) !in acc && MemberId(c) != MemberId(d)
    requires M1 in free && R1 in free
    ensures AssignRest(acc, free, [c, d], false) == (acc[MemberId(c) := M1][MemberId(d) := R1], free - {M1} - {R1})
  {
    FallbackTakesFirstSlot(acc, free, [c, d], 2);
    assert [c, d][1..] == [d];
    FallbackTakesFirstSlot(acc[MemberId(c) := M1], free - {M1}, [d], 3);
    assert [d][1..] == [];
  }

  /** A member with no role yet whose category's first slot is free takes that slot. */
  lemma FallbackTakesFirstSlot(acc: map<string, RoleId>, free: set<RoleId>, roster: seq<Member>, b: nat)
    requires b < 4 && |roster| > 0 && MemberId(roster[0]) !in acc
    requires roster[0].role == [Tank, Healer, Melee, Ranged][b]
    requires (b * 8 + 1) as RoleId in free
    ensures AssignRest(acc, free, roster, false)
      == AssignRest(acc[MemberId(roster[0]) := (b * 8 + 1) as RoleId], free - {(b * 8 + 1) as RoleId}, roster[1..], false)
  {
    FirstSlotFree(b, free);
    AssignRestStep(acc, free, roster, false);
  }

  /** The first slot of a block is what fallback picks when it is free. */
  lemma FirstSlotFree(b: nat, free: set<RoleId>)
    requires b < 4 && (b * 8 + 1) as RoleId in free
    ensures FirstFree(BlockRoles(b), free) == (b * 8 + 1) as RoleId
  {
    assert BlockRoles(b)[0] == (b * 8 + 1) as RoleId;
  }

  /** One fallback step for a member that is unassigned and finds a free role. */
  lemma AssignRestStep(acc: map<string, RoleId>, free: set<RoleId>, roster: seq<Member>, eastern: bool)
    requires |roster| > 0 && MemberId(roster[0]) !in acc
    requires FirstFree(ApplicableRoles(roster[0].role, eastern), free) != Undefined
    ensures var x := FirstFree(ApplicableRoles(roster[0].role, eastern), free);
      AssignRest(acc, free, roster, eastern) == AssignRest(acc[MemberId(roster[0]) := x], free - {x}, roster[1..], eastern)
  {
  }
}
