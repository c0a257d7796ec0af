/** The role catalogue: the `RoleId` enumeration, its fixed numeric layout, the generic
    job categories and the pair swap `RoleIdUtils.Counterpart`. */
module RoleIds {
  import opened Optional
  import opened Text

  /** A role slot. The C# enum is an `int`; its declared members are exactly 0..32. */
  newtype RoleId = x: int | 0 <= x <= 32

  const Undefined: RoleId := 0
  const MT: RoleId := 1
  const OT: RoleId := 2
  const T3: RoleId := 3
  const T4: RoleId := 4
  const T5: RoleId := 5
  const T6: RoleId := 6
  const T7: RoleId := 7
  const T8: RoleId := 8
  const H1: RoleId := 9
  const H2: RoleId := 10
  const H3: RoleId := 11
  const H4: RoleId := 12
  const H5: RoleId := 13
  const H6: RoleId := 14
  const H7: RoleId := 15
  const H8: RoleId := 16
  const M1: RoleId := 17
  const M2: RoleId := 18
  const M3: RoleId := 19
  const M4: RoleId := 20
  const M5: RoleId := 21
  const M6: RoleId := 22
  const M7: RoleId := 23
  const M8: RoleId := 24
  const R1: RoleId := 25
  const R2: RoleId := 26
  const R3: RoleId := 27
  const R4: RoleId := 28
  const R5: RoleId := 29
  const R6: RoleId := 30
  const R7: RoleId := 31
  const R8: RoleId := 32

  /** `RoleIdUtils.ROLE_COUNT`: the number of slots in each category block. */
  const RoleCount: nat := 8

  /** The generic category of a job, listed with `Tank`, `Melee`, `Ranged` before `Healer`,
      the order the `<= GenericRole.Healer` test of `GetRolePlate(GenericRole)`
      (PartyIcons/Stylesheet/PlayerStylesheet.cs:127) relies on; `Unknown` stands for every job without one of
      the four combat categories. */
  datatype GenericRole = Tank | Melee | Ranged | Healer | Unknown

  /** Every assignable role: the enum's values except the default `Undefined`. */
  const AllRoles: set<RoleId> := set r: RoleId | 1 <= r <= 32

  lemma AllRolesContents(r: RoleId)
    ensures r in AllRoles <==> r != Undefined
  {
  }

  /** The block `(r - 1) / ROLE_COUNT` an assignable role lies in: 0 tanks, 1 healers,
      2 melee, 3 ranged (`ROLE_TANK` .. `ROLE_RANGED`). */
  function Block(r: RoleId): (b: nat)
    requires r != Undefined
    ensures b < 4
  {
    (r as int - 1) / RoleCount
  }

  /** The 1-based position of an assignable role inside its block. */
  function SlotNumber(r: RoleId): (n: nat)
    requires r != Undefined
    ensures 1 <= n <= RoleCount
  {
    (r as int - 1) % RoleCount + 1
  }

  /** An assignable role is determined by its block and its slot number. */
  lemma BlockSlotDetermine(r: RoleId, s: RoleId)
    requires r != Undefined && s != Undefined
    requires Block(r) == Block(s) && SlotNumber(r) == SlotNumber(s)
    ensures r == s
  {
  }

  /** The block a combat category owns. */
  function BlockOf(g: GenericRole): (b: nat)
    requires g != Unknown
    ensures b < 4
  {
    match g
    case Tank => 0
    case Healer => 1
    case Melee => 2
    case Ranged => 3
  }

  /** The category whose block holds `r`; `Unknown` for `Undefined`. */
  function CategoryOf(r: RoleId): (g: GenericRole)
    ensures g == Unknown <==> r == Undefined
    ensures r != Undefined ==> BlockOf(g) == Block(r)
  {
    if r == Undefined then Unknown
    else if Block(r) == 0 then Tank
    else if Block(r) == 1 then Healer
    else if Block(r) == 2 then Melee
    else Ranged
  }

  /** The eight roles of block `b`, in ascending order. */
  function BlockRoles(b: nat): (p: seq<RoleId>)
    requires b < 4
    ensures |p| == RoleCount
    ensures forall i :: 0 <= i < |p| ==> p[i] != Undefined && Block(p[i]) == b && SlotNumber(p[i]) == i + 1
  {
    seq(RoleCount, i requires 0 <= i < RoleCount => (b * RoleCount + 1 + i) as RoleId)
  }

  /** A role is in block `b`'s list exactly when it lies in block `b`. */
  lemma BlockRolesMembership(b: nat, r: RoleId)
    requires b < 4
    ensures r in BlockRoles(b) <==> r != Undefined && Block(r) == b
  {
    if r != Undefined && Block(r) == b {
      assert BlockRoles(b)[SlotNumber(r) - 1] == r;
    }
  }

  /** `RoleIdUtils.Counterpart`: `Undefined` stays, an even role steps down by one and an odd
      role steps up by one, pairing MT/OT, T3/T4, ..., R7/R8. */
  function Counterpart(r: RoleId): (c: RoleId)
    ensures c == Undefined <==> r == Undefined
    ensures r != Undefined ==> c != r && Block(c) == Block(r)
    ensures r != Undefined ==> (SlotNumber(r) + 1) / 2 == (SlotNumber(c) + 1) / 2
  {
    if r == Undefined then Undefined
    else if r as int % 2 == 0 then r - 1
    else r + 1
  }

  /** Swapping twice gives the role back. */
  lemma CounterpartInvolutive(r: RoleId)
    ensures Counterpart(Counterpart(r)) == r
  {
  }

  /** The capital letter of block `b` in the enum member names. */
  function BlockLetter(b: nat): (c: char)
    requires b < 4
    ensures IsUpper(c)
  {
    if b == 0 then 'T' else if b == 1 then 'H' else if b == 2 then 'M' else 'R'
  }

  /** `roleId.ToString()`: the enum member name. Apart from `Undefined`, `MT` and `OT` every
      member is its block letter followed by its slot number (T3 .. T8, H1 .. R8). */
  function Identifier(r: RoleId): (s: string)
    ensures r == Undefined <==> |s| > 2
    ensures r != Undefined ==> |s| == 2 && IsUpper(s[0]) && (r in {MT, OT} <==> !IsDigit(s[1]))
  {
    if r == Undefined then "Undefined"
    else if r == MT then "MT"
    else if r == OT then "OT"
    else [BlockLetter(Block(r))] + Decimal(SlotNumber(r))
  }

  /** The block whose lower-case letter is `c`. */
  function BlockOfLetter(c: char): (b: Option<nat>)
    ensures b.Some? ==> b.value < 4 && LowerChar(BlockLetter(b.value)) == c
  {
    if c == 't' then Some(0)
    else if c == 'h' then Some(1)
    else if c == 'm' then Some(2)
    else if c == 'r' then Some(3)
    else None
  }

  /** Reads a lower-cased enum member name back. */
  function ParseLowerIdentifier(w: string): Option<RoleId> {
    if w == "undefined" then Some(Undefined)
    else if w == "mt" then Some(MT)
    else if w == "ot" then Some(OT)
    else if |w| == 2 && BlockOfLetter(w[0]).Some? && '1' <= w[1] <= '8' then
      var b := BlockOfLetter(w[0]).value;
      var n := w[1] as int - '0' as int;
      if b == 0 && n <= 2 then None else Some((b * RoleCount + n) as RoleId)
    else None
  }

  /** The lower-cased names of distinct roles differ: parsing recovers the role. */
  lemma {:induction false} IdentifierRoundTrip(r: RoleId)
    ensures ParseLowerIdentifier(ToLower(Identifier(r))) == Some(r)
  {
    var w := ToLower(Identifier(r));
    if r == Undefined {
      assert w == "undefined";
    } else if r == MT {
      assert w == "mt";
    } else if r == OT {
      assert w == "ot";
    } else {
      var b := Block(r);
      var n := SlotNumber(r);
      assert w == [LowerChar(BlockLetter(b)), DigitChar(n)];
      assert BlockOfLetter(w[0]) == Some(b);
      assert r as int == b * RoleCount + n;
    }
  }

  lemma IdentifierInjective(r: RoleId, s: RoleId)
    requires ToLower(Identifier(r)) == ToLower(Identifier(s))
    ensures r == s
  {
    IdentifierRoundTrip(r);
    IdentifierRoundTrip(s);
  }
}
