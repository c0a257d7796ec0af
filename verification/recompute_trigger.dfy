/** When `RoleTracker` recomputes assignments on its own: on every framework update it
    forgets occupations once the player has left the party, and otherwise recomputes
    whenever a 32-bit hash of the party's class-job ids differs from the previous frame's.
    A change of naming convention clears the remembered hash first. */
module RecomputeTrigger {
  import opened Int32Arith
  import opened RoleIds
  import opened RoleTracker

  /** The hash a party starts from. */
  const HashSeed: Int32 := 17
  /** The multiplier applied before adding each member's job id. */
  const HashFactor: int := 40

  /** The class-job ids of the roster, in party order. */
  function Jobs(roster: seq<Member>): (js: seq<UInt32>)
    ensures |js| == |roster|
    ensures forall i :: 0 <= i < |roster| ==> js[i] == roster[i].jobId
  {
    seq(|roster|, i requires 0 <= i < |roster| => roster[i].jobId)
  }

  /** The `unchecked` fold `h = h * 40 + (int)jobId`, wrapping to 32 bits at every step
      (the cast of the unsigned id is itself a wrap). */
  function HashFrom(h: Int32, jobs: seq<UInt32>): Int32
    decreases |jobs|
  {
    if |jobs| == 0 then h
    else HashFrom(Wrap32(h * HashFactor + Wrap32(jobs[0])), jobs[1..])
  }

  /** The party hash of one frame. */
  function RosterHash(roster: seq<Member>): (h: Int32)
    ensures h == Wrap32(ExactHash(HashSeed, Jobs(roster)))
  {
    HashIsWrappedExact(HashSeed, Jobs(roster));
    HashFrom(HashSeed, Jobs(roster))
  }

  /** The same fold over unbounded integers. */
  function ExactHash(h: int, jobs: seq<UInt32>): int
    decreases |jobs|
  {
    if |jobs| == 0 then h
    else ExactHash(h * HashFactor + jobs[0], jobs[1..])
  }

  /** Wrapping at every step gives the exact fold's value wrapped once: the party hash is
      `17 * 40^n + sum of job_i * 40^(n-1-i)` reduced into the `int` range. */
  lemma {:induction false} HashIsWrappedExact(h: int, jobs: seq<UInt32>)
    ensures HashFrom(Wrap32(h), jobs) == Wrap32(ExactHash(h, jobs))
    decreases |jobs|
  {
    if |jobs| > 0 {
      var next := h * HashFactor + jobs[0];
      HashStep(h, jobs[0]);
      assert HashFrom(Wrap32(h), jobs) == HashFrom(Wrap32(next), jobs[1..]);
      HashIsWrappedExact(next, jobs[1..]);
    }
  }

  /** One step of the wrapped fold agrees with one exact step, wrapped. */
  lemma HashStep(h: int, j: UInt32)
    ensures Wrap32(Wrap32(h) * HashFactor + Wrap32(j)) == Wrap32(h * HashFactor + j)
  {
    WrapMulAdd(h, HashFactor, j);
    WrapMulAdd(Wrap32(h), HashFactor, j);
  }

  /** The fold over a longer party continues the fold over its first members. */
  lemma {:induction false} HashFromAppend(h: Int32, a: seq<UInt32>, b: seq<UInt32>)
    ensures HashFrom(h, a + b) == HashFrom(HashFrom(h, a), b)
    decreases |a|
  {
    if |a| > 0 {
      assert (a + b)[0] == a[0];
      assert (a + b)[1..] == a[1..] + b;
      HashFromAppend(Wrap32(h * HashFactor + Wrap32(a[0])), a[1..], b);
    } else {
      assert a + b == b;
    }
  }

  /** One more member multiplies the hash by 40 and adds the job id, modulo 2^32. */
  lemma HashFromOne(g: Int32, x: UInt32)
    ensures HashFrom(g, [x]) == Wrap32(g * HashFactor + x)
  {
    assert [x][1..] == [];
    WrapMulAdd(g, HashFactor, x);
  }

  /** Two parties that agree except for the last member's job hash differently. */
  lemma LastJobChangeDetected(h: Int32, a: seq<UInt32>, x: UInt32, y: UInt32)
    requires x != y
    ensures HashFrom(h, a + [x]) != HashFrom(h, a + [y])
  {
    HashFromAppend(h, a, [x]);
    HashFromAppend(h, a, [y]);
    var g := HashFrom(h, a);
    HashFromOne(g, x);
    HashFromOne(g, y);
    WrapShiftInjective(g * HashFactor, x, y);
  }

  /** The hash only sees jobs, and the positional weights let different parties collide:
      jobs [1, 0] and [0, 40] both hash to 17 * 1600 + 40. */
  lemma HashCollision(a: Member, b: Member, c: Member, d: Member)
    requires a.jobId == 1 && b.jobId == 0 && c.jobId == 0 && d.jobId == 40
    ensures RosterHash([a, b]) == RosterHash([c, d])
  {
    assert Jobs([a, b]) == [1, 0];
    assert Jobs([c, d]) == [0, 40];
    HashIsWrappedExact(HashSeed, [1, 0]);
    HashIsWrappedExact(HashSeed, [0, 40]);
    assert ExactHash(HashSeed, [1, 0]) == ExactHash(HashSeed, [0, 40]) == 27240 by {
      assert [1, 0][1..] == [0] && [0][1..] == [];
      assert [0, 40][1..] == [40] && [40][1..] == [];
    }
  }

  // ---------------------------------------------------------------------------
  // The per-frame update

  /** Not in a cross-world party, no party members, and some occupation still recorded. */
  predicate LeftParty(t: Tracker, roster: seq<Member>, crossWorld: bool) {
    !crossWorld && |roster| == 0 && |t.occupiedRoles| > 0
  }

  /** The hash the frame's hash is compared with: the stored one, or `0` (`default`) when
      the naming convention changed since the last frame. */
  function Baseline(t: Tracker, settings: Settings): Int32 {
    if t.prevEastern != settings.eastern then 0 else t.previousHash
  }

  /** `FrameworkOnUpdate`: forget occupations after leaving the party; otherwise note the
      convention, recompute if the party hash differs from the baseline, and remember the
      hash. `crossWorld` is the cross-world party condition flag. */
  function FrameworkUpdate(t: Tracker, roster: seq<Member>, crossWorld: bool, settings: Settings): (r: Tracker)
    ensures LeftParty(t, roster, crossWorld) ==> r == ResetOccupations(t)
    ensures !LeftParty(t, roster, crossWorld) ==>
      && r.previousHash == RosterHash(roster) && r.prevEastern == settings.eastern
      && r.occupiedRoles == t.occupiedRoles && r.suggestedRoles == t.suggestedRoles
  {
    if LeftParty(t, roster, crossWorld) then ResetOccupations(t)
    else
      var t1 := if t.prevEastern != settings.eastern then t.(previousHash := 0, prevEastern := settings.eastern) else t;
      var h := RosterHash(roster);
      var t2 := if h != t1.previousHash then Recalculate(t1, roster, settings) else t1;
      t2.(previousHash := h)
  }

  /** Outside the reset path, the frame recomputes exactly when the party hash differs from
      the baseline, and otherwise leaves the assignments alone. */
  lemma RecomputeIff(t: Tracker, roster: seq<Member>, crossWorld: bool, settings: Settings)
    requires !LeftParty(t, roster, crossWorld)
    ensures var r := FrameworkUpdate(t, roster, crossWorld, settings);
      && (RosterHash(roster) != Baseline(t, settings) ==>
            r.assignedRoles == Recalculate(t, roster, settings).assignedRoles
            && r.unassignedRoles == Recalculate(t, roster, settings).unassignedRoles)
      && (RosterHash(roster) == Baseline(t, settings) ==>
            r.assignedRoles == t.assignedRoles && r.unassignedRoles == t.unassignedRoles)
  {
  }

  /** With the same party and convention as last frame, nothing changes. */
  lemma StableFrameUnchanged(t: Tracker, roster: seq<Member>, crossWorld: bool, settings: Settings)
    requires !LeftParty(t, roster, crossWorld)
    requires t.prevEastern == settings.eastern && t.previousHash == RosterHash(roster)
    ensures FrameworkUpdate(t, roster, crossWorld, settings) == t
  {
  }

  /** A second frame with the same inputs changes nothing: the first already stored the
      hash and the convention. */
  lemma {:induction false} FrameworkUpdateIdempotent(t: Tracker, roster: seq<Member>, crossWorld: bool, settings: Settings)
    requires !LeftParty(t, roster, crossWorld)
    ensures var r := FrameworkUpdate(t, roster, crossWorld, settings);
      FrameworkUpdate(r, roster, crossWorld, settings) == r
  {
    var r := FrameworkUpdate(t, roster, crossWorld, settings);
    assert r.occupiedRoles == t.occupiedRoles;
    assert !LeftParty(r, roster, crossWorld);
    StableFrameUnchanged(r, roster, crossWorld, settings);
  }

  /** A convention change forces a recomputation unless the party hash happens to be `0`,
      the value the stored hash is cleared to. */
  lemma ConventionChangeRecomputes(t: Tracker, roster: seq<Member>, crossWorld: bool, settings: Settings)
    requires !LeftParty(t, roster, crossWorld) && t.prevEastern != settings.eastern
    ensures RosterHash(roster) != 0 ==>
      FrameworkUpdate(t, roster, crossWorld, settings).assignedRoles == Recalculate(t, roster, settings).assignedRoles
    ensures RosterHash(roster) == 0 ==>
      FrameworkUpdate(t, roster, crossWorld, settings).assignedRoles == t.assignedRoles
  {
    RecomputeIff(t, roster, crossWorld, settings);
  }

  /** A frame keeps `Valid`. */
  lemma FrameworkUpdatePreservesValid(t: Tracker, roster: seq<Member>, crossWorld: bool, settings: Settings)
    requires Valid(t)
    ensures Valid(FrameworkUpdate(t, roster, crossWorld, settings))
  {
    if !LeftParty(t, roster, crossWorld) && RosterHash(roster) != Baseline(t, settings) {
      var t1 := if t.prevEastern != settings.eastern then t.(previousHash := 0, prevEastern := settings.eastern) else t;
      RecalculatePreservesValid(t1, roster, settings);
    }
  }
}
