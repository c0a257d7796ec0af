/** Presentation lookups of `PlayerStylesheet`: role names, role colours, and the text of
    role plates, which are written in private-use "boxed" glyphs. Colours are UI colour
    row numbers; the SeString payload wrappers around the plate text are not modelled. */
module PlayerStylesheet {
  import opened Text
  import opened Optional
  import opened RoleIds

  // ---------------------------------------------------------------------------
  // Boxed glyphs

  /** Added to 'a'..'z' to reach the boxed-letter glyphs. */
  const LetterGlyphOffset: int := 57360
  /** Added to '0'..'9' to reach the boxed-digit glyphs. */
  const DigitGlyphOffset: int := 57439

  predicate IsLowerLetter(c: char) {
    'a' <= c <= 'z'
  }

  predicate IsLetterGlyph(c: char) {
    'a' as int + LetterGlyphOffset <= c as int <= 'z' as int + LetterGlyphOffset
  }

  predicate IsDigitGlyph(c: char) {
    '0' as int + DigitGlyphOffset <= c as int <= '9' as int + DigitGlyphOffset
  }

  /** The glyph the switch in `BoxedCharacterString` emits for one (already lower-cased)
      character. */
  function Glyph(c: char): (g: char)
    ensures IsLowerLetter(c) ==> IsLetterGlyph(g)
    ensures IsDigit(c) ==> IsDigitGlyph(g)
    ensures !IsLowerLetter(c) && !IsDigit(c) ==> g == c
  {
    if IsLowerLetter(c) then (c as int + LetterGlyphOffset) as char
    else if IsDigit(c) then (c as int + DigitGlyphOffset) as char
    else c
  }

  /** `BoxedCharacterString`: lower-case the string, then replace each letter and digit by its
      boxed glyph; one output character per input character. */
  function BoxedCharacterString(s: string): (r: string)
    ensures |r| == |s|
    ensures forall i :: 0 <= i < |s| && IsLowerLetter(LowerChar(s[i])) ==> IsLetterGlyph(r[i])
    ensures forall i :: 0 <= i < |s| && IsDigit(s[i]) ==> IsDigitGlyph(r[i])
    ensures forall i :: 0 <= i < |s| && !IsLowerLetter(LowerChar(s[i])) && !IsDigit(s[i]) ==> r[i] == LowerChar(s[i])
  {
    var lower := ToLower(s);
    seq(|lower|, i requires 0 <= i < |lower| => Glyph(lower[i]))
  }

  lemma BoxedAppend(a: string, b: string)
    ensures BoxedCharacterString(a + b) == BoxedCharacterString(a) + BoxedCharacterString(b)
  {
    assert BoxedCharacterString(a + b) == BoxedCharacterString(a) + BoxedCharacterString(b);
  }

  /** The inverse of `Glyph` on the two glyph ranges; any other character is kept. */
  function Unglyph(g: char): char {
    if IsLetterGlyph(g) then (g as int - LetterGlyphOffset) as char
    else if IsDigitGlyph(g) then (g as int - DigitGlyphOffset) as char
    else g
  }

  function Unbox(s: string): (r: string)
    ensures |r| == |s|
    ensures forall i :: 0 <= i < |s| ==> r[i] == Unglyph(s[i])
  {
    seq(|s|, i requires 0 <= i < |s| => Unglyph(s[i]))
  }

  predicate NoGlyphs(s: string) {
    forall i :: 0 <= i < |s| ==> !IsLetterGlyph(s[i]) && !IsDigitGlyph(s[i])
  }

  /** Boxing loses only the letter case: un-boxing gives the lower-cased input back, for any
      input that does not already contain boxed glyphs. */
  lemma BoxedRoundTrip(s: string)
    requires NoGlyphs(s)
    ensures Unbox(BoxedCharacterString(s)) == ToLower(s)
  {
    var b := BoxedCharacterString(s);
    forall i | 0 <= i < |s|
      ensures Unglyph(b[i]) == LowerChar(s[i])
    {
      var l := LowerChar(s[i]);
      assert b[i] == Glyph(l);
      if !IsLowerLetter(l) && !IsDigit(l) {
        assert !IsLetterGlyph(l) && !IsDigitGlyph(l);
      }
    }
  }

  /** Upper- and lower-case spellings box to the same glyphs. */
  lemma BoxedCaseInsensitive(s: string)
    ensures BoxedCharacterString(s) == BoxedCharacterString(ToLower(s))
  {
    ToLowerIdempotent(s);
  }

  /** Letter glyphs and digit glyphs are disjoint ranges, and boxing is one-to-one on
      lower-case letters and digits. */
  lemma GlyphInjective(a: char, b: char)
    requires IsLowerLetter(a) || IsDigit(a)
    requires IsLowerLetter(b) || IsDigit(b)
    requires Glyph(a) == Glyph(b)
    ensures a == b
  {
  }

  // ---------------------------------------------------------------------------
  // Names

  /** `GetRoleName`: `OT` reads "ST" under the Eastern convention; every other role is
      shown by its enum member name. */
  function RoleName(r: RoleId, eastern: bool): (name: string)
    ensures |name| >= 2
    ensures r != OT ==> name == Identifier(r)
    ensures r == OT ==> name == (if eastern then "ST" else Identifier(OT))
  {
    if r == MT then "MT"
    else if r == OT then (if eastern then "ST" else "OT")
    else Identifier(r)
  }

  /** Reads a displayed role name back under a given convention. */
  function RoleFromName(name: string, eastern: bool): Option<RoleId> {
    if eastern && name == "ST" then Some(OT)
    else ParseLowerIdentifier(ToLower(name))
  }

  /** Under either convention distinct roles get distinct names. */
  lemma RoleNameRoundTrip(r: RoleId, eastern: bool)
    ensures RoleFromName(RoleName(r, eastern), eastern) == Some(r)
  {
    IdentifierRoundTrip(r);
    if r != OT && r != MT && r != Undefined {
      assert RoleName(r, eastern)[0] == BlockLetter(Block(r));
    }
  }

  // ---------------------------------------------------------------------------
  // Colours

  /** `_fallbackColor`. */
  const FallbackColor: nat := 1

  /** `GetRoleColor(GenericRole)`. */
  function GenericRoleColor(g: GenericRole): (c: nat)
    ensures g == Unknown <==> c == FallbackColor
  {
    match g
    case Tank => 37
    case Melee => 524
    case Ranged => 32
    case Healer => 42
    case Unknown => FallbackColor
  }

  /** The eight roles the stylesheet draws a plate for: the first two slots of each block. */
  predicate HasPlate(r: RoleId) {
    r != Undefined && SlotNumber(r) <= 2
  }

  /** `GetRoleColor(RoleId)`: the first two roles of each block take their category's
      colour, every other role the fallback. */
  function RoleColor(r: RoleId): (c: nat)
    ensures HasPlate(r) ==> c == GenericRoleColor(CategoryOf(r))
    ensures !HasPlate(r) ==> c == FallbackColor
  {
    if r == MT || r == OT then GenericRoleColor(Tank)
    else if r == M1 || r == M2 then GenericRoleColor(Melee)
    else if r == R1 || r == R2 then GenericRoleColor(Ranged)
    else if r == H1 || r == H2 then GenericRoleColor(Healer)
    else FallbackColor
  }

  /** The colour table agrees with the category rule: a plated role is drawn in its
      category's colour, and only plated roles get a non-fallback colour. */
  lemma RoleColorByCategory(r: RoleId)
    ensures HasPlate(r) ==> RoleColor(r) == GenericRoleColor(CategoryOf(r))
    ensures !HasPlate(r) <==> RoleColor(r) == FallbackColor
  {
  }

  /** The four categories are told apart by colour. */
  lemma GenericRoleColorInjective(g: GenericRole, h: GenericRole)
    requires GenericRoleColor(g) == GenericRoleColor(h)
    ensures g == h
  {
  }

  // ---------------------------------------------------------------------------
  // Plates

  /** `GetRolePlateNumber`: the boxed number shown after a plated role's letter. */
  function RolePlateNumber(r: RoleId, eastern: bool): (n: string)
    ensures HasPlate(r) ==> n == BoxedCharacterString(Decimal(PlateDigit(r, eastern)))
    ensures !HasPlate(r) ==> n == ""
  {
    if eastern then
      if r == MT then BoxedCharacterString("1")
      else if r == OT then BoxedCharacterString("2")
      else if r == H1 then BoxedCharacterString("1")
      else if r == H2 then BoxedCharacterString("2")
      else if r == M1 then BoxedCharacterString("1")
      else if r == M2 then BoxedCharacterString("2")
      else if r == R1 then BoxedCharacterString("3")
      else if r == R2 then BoxedCharacterString("4")
      else ""
    else
      if r == MT then BoxedCharacterString("1")
      else if r == OT then BoxedCharacterString("2")
      else if r == H1 then BoxedCharacterString("1")
      else if r == H2 then BoxedCharacterString("2")
      else if r == M1 then BoxedCharacterString("1")
      else if r == M2 then BoxedCharacterString("2")
      else if r == R1 then BoxedCharacterString("1")
      else if r == R2 then BoxedCharacterString("2")
      else ""
  }

  /** The number on a plate: the slot number, except that under the Eastern convention the
      ranged pair continues the melee pair's count (both read as "D"). */
  function PlateDigit(r: RoleId, eastern: bool): nat
    requires r != Undefined
  {
    SlotNumber(r) + (if eastern && CategoryOf(r) == Ranged then 2 else 0)
  }

  /** The plate-number table is the rule above, boxed, for plated roles and empty for all
      other roles. */
  lemma RolePlateNumberRule(r: RoleId, eastern: bool)
    ensures HasPlate(r) ==> PlateDigit(r, eastern) <= 4
    ensures HasPlate(r) ==> RolePlateNumber(r, eastern) == BoxedCharacterString(Decimal(PlateDigit(r, eastern)))
    ensures !HasPlate(r) ==> RolePlateNumber(r, eastern) == ""
  {
  }

  /** `GetRolePlate(RoleId)`: the boxed letters of a plated role. Melee and ranged letters
      both become "D" under the Eastern convention; unplated roles get no plate. */
  function RolePlate(r: RoleId, eastern: bool): (p: string)
    ensures HasPlate(r) <==> p != ""
    ensures HasPlate(r) && CategoryOf(r) != Tank ==>
      p == GenericRolePlate(CategoryOf(r), eastern) + RolePlateNumber(r, eastern)
  {
    if r == MT then BoxedCharacterString("MT")
    else if r == OT then BoxedCharacterString(if eastern then "ST" else "OT")
    else if r == M1 || r == M2 then BoxedCharacterString(if eastern then "D" else "M") + RolePlateNumber(r, eastern)
    else if r == R1 || r == R2 then BoxedCharacterString(if eastern then "D" else "R") + RolePlateNumber(r, eastern)
    else if r == H1 || r == H2 then BoxedCharacterString("H") + RolePlateNumber(r, eastern)
    else ""
  }

  /** What a plate reads once un-boxed: the lower-cased role name, except that under the
      Eastern convention the four damage roles read "d1" .. "d4". */
  function PlateLabel(r: RoleId, eastern: bool): string
    requires HasPlate(r)
  {
    if eastern && (CategoryOf(r) == Melee || CategoryOf(r) == Ranged) then "d" + Decimal(PlateDigit(r, eastern))
    else ToLower(RoleName(r, eastern))
  }

  /** Every plate label, spelt out. */
  lemma PlateLabels(eastern: bool)
    ensures PlateLabel(MT, eastern) == "mt"
    ensures PlateLabel(OT, eastern) == (if eastern then "st" else "ot")
    ensures PlateLabel(H1, eastern) == "h1" && PlateLabel(H2, eastern) == "h2"
    ensures PlateLabel(M1, eastern) == (if eastern then "d1" else "m1")
    ensures PlateLabel(M2, eastern) == (if eastern then "d2" else "m2")
    ensures PlateLabel(R1, eastern) == (if eastern then "d3" else "r1")
    ensures PlateLabel(R2, eastern) == (if eastern then "d4" else "r2")
  {
    TankLabels(eastern);
    HealerLabels(eastern);
    MeleeLabels(eastern);
    RangedLabels(eastern);
  }

  lemma TankLabels(eastern: bool)
    ensures PlateLabel(MT, eastern) == "mt"
    ensures PlateLabel(OT, eastern) == (if eastern then "st" else "ot")
  {
  }

  lemma HealerLabels(eastern: bool)
    ensures PlateLabel(H1, eastern) == "h1" && PlateLabel(H2, eastern) == "h2"
  {
  }

  lemma MeleeLabels(eastern: bool)
    ensures PlateLabel(M1, eastern) == (if eastern then "d1" else "m1")
    ensures PlateLabel(M2, eastern) == (if eastern then "d2" else "m2")
  {
  }

  lemma RangedLabels(eastern: bool)
    ensures PlateLabel(R1, eastern) == (if eastern then "d3" else "r1")
    ensures PlateLabel(R2, eastern) == (if eastern then "d4" else "r2")
  {
  }

  /** One plated role: its plate boxes `text`, and `text` lower-cases to the label. */
  lemma PlateReadsAs(r: RoleId, eastern: bool, text: string)
    requires HasPlate(r) && NoGlyphs(text)
    requires RolePlate(r, eastern) == BoxedCharacterString(text)
    requires ToLower(text) == PlateLabel(r, eastern)
    ensures Unbox(RolePlate(r, eastern)) == PlateLabel(r, eastern)
  {
    BoxedRoundTrip(text);
  }

  lemma PlateReadsMelee(r: RoleId, eastern: bool)
    requires r == M1 || r == M2
    ensures Unbox(RolePlate(r, eastern)) == PlateLabel(r, eastern)
  {
    MeleeLabels(eastern);
    var d := if r == M1 then "1" else "2";
    var l := if eastern then "D" else "M";
    BoxedAppend(l, d);
    PlateReadsAs(r, eastern, l + d);
  }

  lemma PlateReadsRanged(r: RoleId, eastern: bool)
    requires r == R1 || r == R2
    ensures Unbox(RolePlate(r, eastern)) == PlateLabel(r, eastern)
  {
    RangedLabels(eastern);
    var d := if r == R1 then (if eastern then "3" else "1") else (if eastern then "4" else "2");
    var l := if eastern then "D" else "R";
    BoxedAppend(l, d);
    PlateReadsAs(r, eastern, l + d);
  }

  lemma PlateReadsHealer(r: RoleId, eastern: bool)
    requires r == H1 || r == H2
    ensures Unbox(RolePlate(r, eastern)) == PlateLabel(r, eastern)
  {
    HealerLabels(eastern);
    var d := if r == H1 then "1" else "2";
    BoxedAppend("H", d);
    PlateReadsAs(r, eastern, "H" + d);
  }

  /** A plate is empty exactly for unplated roles, and otherwise un-boxes to its label. */
  lemma RolePlateReads(r: RoleId, eastern: bool)
    ensures !HasPlate(r) <==> RolePlate(r, eastern) == ""
    ensures HasPlate(r) ==> Unbox(RolePlate(r, eastern)) == PlateLabel(r, eastern)
  {
    if r == MT {
      TankLabels(eastern);
      PlateReadsAs(r, eastern, "MT");
    } else if r == OT {
      TankLabels(eastern);
      PlateReadsAs(r, eastern, if eastern then "ST" else "OT");
    } else if r == H1 || r == H2 {
      PlateReadsHealer(r, eastern);
    } else if r == M1 || r == M2 {
      PlateReadsMelee(r, eastern);
    } else if r == R1 || r == R2 {
      PlateReadsRanged(r, eastern);
    }
  }

  /** Under either convention the eight plates are pairwise distinct. */
  lemma RolePlateInjective(r: RoleId, s: RoleId, eastern: bool)
    requires HasPlate(r) && HasPlate(s)
    requires RolePlate(r, eastern) == RolePlate(s, eastern)
    ensures r == s
  {
    RolePlateReads(r, eastern);
    RolePlateReads(s, eastern);
    PlateLabels(eastern);
    var a := PlateLabel(r, eastern);
    assert a == PlateLabel(s, eastern);
    assert r == MT || r == OT || r == H1 || r == H2 || r == M1 || r == M2 || r == R1 || r == R2;
    assert s == MT || s == OT || s == H1 || s == H2 || s == M1 || s == M2 || s == R1 || s == R2;
  }

  /** `GetRolePlate(GenericRole)`: the boxed category letter for the four combat
      categories ("D" for both damage categories under the Eastern convention), nothing
      for any other. */
  function GenericRolePlate(g: GenericRole, eastern: bool): (p: string)
    ensures |p| == (if g == Unknown then 0 else 1)
  {
    match g
    case Tank => BoxedCharacterString("T")
    case Melee => BoxedCharacterString(if eastern then "D" else "M")
    case Ranged => BoxedCharacterString(if eastern then "D" else "R")
    case Healer => BoxedCharacterString("H")
    case Unknown => ""
  }

  /** The generic plate un-boxes to the category's lower-case letter: "t", "h", "m" and "r",
      with "d" for both damage categories under the Eastern convention; unknown jobs get no
      plate. */
  lemma GenericRolePlateReads(g: GenericRole, eastern: bool)
    ensures GenericRolePlate(g, eastern) == "" <==> g == Unknown
    ensures g == Tank ==> Unbox(GenericRolePlate(g, eastern)) == "t"
    ensures g == Healer ==> Unbox(GenericRolePlate(g, eastern)) == "h"
    ensures g == Melee ==> Unbox(GenericRolePlate(g, eastern)) == (if eastern then "d" else "m")
    ensures g == Ranged ==> Unbox(GenericRolePlate(g, eastern)) == (if eastern then "d" else "r")
  {
    match g
    case Tank => BoxedRoundTrip("T");
    case Healer => BoxedRoundTrip("H");
    case Melee => BoxedRoundTrip(if eastern then "D" else "M");
    case Ranged => BoxedRoundTrip(if eastern then "D" else "R");
    case Unknown =>
  }

  /** For healers and damage dealers the generic plate is the first character of the role
      plate of any of the category's plated slots, under the same convention. */
  lemma GenericPlateStartsRolePlate(r: RoleId, eastern: bool)
    requires HasPlate(r) && CategoryOf(r) != Tank
    ensures RolePlate(r, eastern)[..1] == GenericRolePlate(CategoryOf(r), eastern)
  {
    RolePlateReads(r, eastern);
    GenericRolePlateReads(CategoryOf(r), eastern);
    PlateLabels(eastern);
    var p := RolePlate(r, eastern);
    var q := GenericRolePlate(CategoryOf(r), eastern);
    assert Unbox(p)[0] == Unbox(q)[0];
    assert IsLetterGlyph(p[0]) && IsLetterGlyph(q[0]);
  }
}
