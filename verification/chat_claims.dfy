/** How `RoleTracker.OnChatMessage` reads a chat line. The table of trigger words pairs each
    role with a word: every enum member's lower-cased name, then "st" for OT, then "d1" ..
    "d8" for M1 .. M8. A line whose trimmed, lower-cased text is exactly one trigger word
    occupies that word's role; otherwise a line containing exactly one trigger word between
    non-word characters suggests that role. Two matches abort the scan ("tainted"). */
module ChatClaims {
  import opened Optional
  import opened Text
  import opened RoleIds
  import opened RoleTracker

  datatype Trigger = Trigger(role: RoleId, word: string)

  /** Number of table entries: the 33 enum members, "st", and "d1" .. "d8". */
  const TableSize: nat := 42
  /** Index of the "st" entry. */
  const StIndex: nat := 33

  /** Entry `i` of the table, in the order the constructor adds them. */
  function TriggerAt(i: nat): (e: Trigger)
    requires i < TableSize
    ensures e.role == Undefined <==> i == 0
  {
    if i <= 32 then Trigger(i as RoleId, ToLower(Identifier(i as RoleId)))
    else if i == StIndex then Trigger(OT, "st")
    else Trigger((M1 as int + (i - StIndex - 1)) as RoleId, "d" + Decimal(i - StIndex))
  }

  function Triggers(): (ts: seq<Trigger>)
    ensures |ts| == TableSize
    ensures forall i :: 0 <= i < TableSize ==> ts[i] == TriggerAt(i)
  {
    seq(TableSize, i requires 0 <= i < TableSize => TriggerAt(i))
  }

  /** The entry a word belongs to, if any: the inverse of `TriggerAt`'s word. */
  function WordIndex(w: string): (i: Option<nat>)
    ensures i.Some? ==> i.value < TableSize
  {
    match ParseLowerIdentifier(w)
    case Some(r) => Some(r as nat)
    case None =>
      if w == "st" then Some(StIndex)
      else if |w| == 2 && w[0] == 'd' && '1' <= w[1] <= '8' then Some(StIndex + (w[1] as int - '0' as int))
      else None
  }

  lemma WordIndexOfD(k: nat)
    requires 1 <= k <= 8
    ensures WordIndex("d" + Decimal(k)) == Some(StIndex + k)
  {
    var w := "d" + Decimal(k);
    assert w == ['d', DigitChar(k)];
  }

  /** Every word of the table maps back to its own entry. */
  lemma {:induction false} WordIndexRoundTrip(i: nat)
    requires i < TableSize
    ensures WordIndex(TriggerAt(i).word) == Some(i)
  {
    if i <= 32 {
      IdentifierRoundTrip(i as RoleId);
    } else if i > StIndex {
      WordIndexOfD(i - StIndex);
    }
  }

  /** No word appears twice in the table. */
  lemma TriggerWordsDistinct(i: nat, j: nat)
    requires i < TableSize && j < TableSize && TriggerAt(i).word == TriggerAt(j).word
    ensures i == j
  {
    WordIndexRoundTrip(i);
    WordIndexRoundTrip(j);
  }

  // ---------------------------------------------------------------------------
  // The scan over the table

  /** The role found so far (`Undefined` while none) and whether a second match aborted. */
  datatype Scan = Scan(role: RoleId, tainted: bool)

  /** One `foreach` over the table from state `s`: on a match, take the entry's role if none
      is held yet, otherwise mark the scan tainted and stop. */
  function ScanFrom(s: Scan, table: seq<Trigger>, hit: string -> bool): (r: Scan)
    ensures s.role != Undefined ==> r.role == s.role
    ensures r.role == s.role || exists i :: 0 <= i < |table| && hit(table[i].word) && r.role == table[i].role
    ensures (forall i :: 0 <= i < |table| ==> !hit(table[i].word)) ==> r == s
    decreases |table|
  {
    if |table| == 0 then s
    else if hit(table[0].word) then
      if s.role == Undefined then
        var r := ScanFrom(Scan(table[0].role, false), table[1..], hit);
        assert r.role == table[0].role || exists i :: 0 <= i < |table| && hit(table[i].word) && r.role == table[i].role by {
          if r.role != table[0].role {
            var i :| 0 <= i < |table[1..]| && hit(table[1..][i].word) && r.role == table[1..][i].role;
            assert table[i + 1] == table[1..][i];
          }
        }
        r
      else Scan(s.role, true)
    else
      var r := ScanFrom(s, table[1..], hit);
      assert r.role == s.role || exists i :: 0 <= i < |table| && hit(table[i].word) && r.role == table[i].role by {
        if r.role != s.role {
          var i :| 0 <= i < |table[1..]| && hit(table[1..][i].word) && r.role == table[1..][i].role;
          assert table[i + 1] == table[1..][i];
        }
      }
      assert (forall i :: 0 <= i < |table| ==> !hit(table[i].word)) ==> r == s by {
        if forall i :: 0 <= i < |table| ==> !hit(table[i].word) {
          forall i | 0 <= i < |table[1..]|
            ensures !hit(table[1..][i].word)
          {
            assert table[1..][i] == table[i + 1];
          }
        }
      }
      r
  }

  /** Entry `i` matches and names a real role. */
  predicate Counts(table: seq<Trigger>, hit: string -> bool, i: int) {
    0 <= i < |table| && hit(table[i].word) && table[i].role != Undefined
  }

  /** Once a role is held, the rest of the scan keeps it if nothing more matches and taints
      on any further match. */
  lemma {:induction false} ScanHolding(s: Scan, table: seq<Trigger>, hit: string -> bool)
    requires s.role != Undefined && !s.tainted
    ensures (forall j :: 0 <= j < |table| ==> !hit(table[j].word)) ==> ScanFrom(s, table, hit) == s
    ensures (exists j :: 0 <= j < |table| && hit(table[j].word)) ==> ScanFrom(s, table, hit) == Scan(s.role, true)
    decreases |table|
  {
    if |table| > 0 && !hit(table[0].word) {
      ScanHolding(s, table[1..], hit);
      if exists j :: 0 <= j < |table| && hit(table[j].word) {
        var j :| 0 <= j < |table| && hit(table[j].word);
        assert hit(table[1..][j - 1].word);
      }
      if forall j :: 0 <= j < |table| ==> !hit(table[j].word) {
        forall j | 0 <= j < |table[1..]|
          ensures !hit(table[1..][j].word)
        {
          assert table[1..][j] == table[j + 1];
        }
      }
    }
  }

  /** The scan from the empty state, on a table whose only `Undefined` entry may be the
      first: no counting match leaves nothing found; exactly one finds its role; two
      taint the scan. */
  lemma {:induction false} ScanOutcome(table: seq<Trigger>, hit: string -> bool)
    requires forall i :: 0 < i < |table| ==> table[i].role != Undefined
    ensures (forall j :: !Counts(table, hit, j)) ==> ScanFrom(Scan(Undefined, false), table, hit) == Scan(Undefined, false)
    ensures forall i :: Counts(table, hit, i) && (forall j :: j != i ==> !Counts(table, hit, j)) ==>
      ScanFrom(Scan(Undefined, false), table, hit) == Scan(table[i].role, false)
    ensures (exists i, j :: i != j && Counts(table, hit, i) && Counts(table, hit, j)) ==>
      ScanFrom(Scan(Undefined, false), table, hit).tainted
    decreases |table|
  {
    var s0 := Scan(Undefined, false);
    if |table| > 0 {
      var tail := table[1..];
      forall j
        ensures Counts(tail, hit, j) <==> 0 <= j && Counts(table, hit, j + 1)
      {
        if 0 <= j < |tail| {
          assert tail[j] == table[j + 1];
        }
      }
      if hit(table[0].word) && table[0].role != Undefined {
        assert Counts(table, hit, 0);
        var s1 := Scan(table[0].role, false);
        assert ScanFrom(s0, table, hit) == ScanFrom(s1, tail, hit);
        ScanHolding(s1, tail, hit);
        forall i | Counts(table, hit, i) && (forall j :: j != i ==> !Counts(table, hit, j))
          ensures ScanFrom(s0, table, hit) == Scan(table[i].role, false)
        {
          assert i == 0;
          forall j | 0 <= j < |tail|
            ensures !hit(tail[j].word)
          {
            assert !Counts(table, hit, j + 1);
          }
        }
        if exists i, j :: i != j && Counts(table, hit, i) && Counts(table, hit, j) {
          var i, j :| i != j && Counts(table, hit, i) && Counts(table, hit, j);
          var k := if i != 0 then i else j;
          assert hit(tail[k - 1].word);
        }
      } else {
        assert ScanFrom(s0, table, hit) == ScanFrom(s0, tail, hit);
        assert !Counts(table, hit, 0);
        ScanOutcome(tail, hit);
        forall i | Counts(table, hit, i) && (forall j :: j != i ==> !Counts(table, hit, j))
          ensures ScanFrom(s0, table, hit) == Scan(table[i].role, false)
        {
          assert Counts(tail, hit, i - 1);
          assert forall j :: j != i - 1 ==> !Counts(tail, hit, j);
        }
        if exists i, j :: i != j && Counts(table, hit, i) && Counts(table, hit, j) {
          var i, j :| i != j && Counts(table, hit, i) && Counts(table, hit, j);
          assert Counts(tail, hit, i - 1) && Counts(tail, hit, j - 1);
        }
      }
    }
  }

  // ---------------------------------------------------------------------------
  // Classifying a line

  datatype Claim = NoClaim | Occupation(role: RoleId) | Suggestion(role: RoleId)

  /** The message text the scans look at: trimmed, lower-cased and padded with one space on
      each side. */
  function Padded(message: string): string {
    " " + ToLower(Trim(message)) + " "
  }

  /** The `\W<word>\W` pattern: `word` occurs in `text` with a non-word character directly
      before and directly after it. Which characters are word characters is a parameter. */
  predicate ContainsWord(text: string, word: string, isWordChar: char -> bool) {
    exists p :: 0 <= p && p + |word| + 2 <= |text| && !isWordChar(text[p])
      && text[p + 1..p + 1 + |word|] == word && !isWordChar(text[p + 1 + |word|])
  }

  /** The occupation scan: the padded text equals " word ". */
  function OccupationScan(message: string): (r: Scan)
    ensures r.role != Undefined ==>
      exists i :: 0 <= i < TableSize && Padded(message) == " " + TriggerAt(i).word + " " && r.role == TriggerAt(i).role
  {
    var r := ScanFrom(Scan(Undefined, false), Triggers(), OccupyHit(message));
    assert r.role != Undefined ==>
      exists i :: 0 <= i < TableSize && Padded(message) == " " + TriggerAt(i).word + " " && r.role == TriggerAt(i).role by {
      if r.role != Undefined {
        var i :| 0 <= i < TableSize && OccupyHit(message)(Triggers()[i].word) && r.role == Triggers()[i].role;
      }
    }
    r
  }

  /** A trigger word counts for an occupation when the padded text is exactly " word ". */
  function OccupyHit(message: string): string -> bool {
    var p := Padded(message);
    w => p == " " + w + " "
  }

  /** A trigger word counts for a suggestion when it stands as a whole word in the padded text. */
  function SuggestHit(message: string, isWordChar: char -> bool): string -> bool {
    var p := Padded(message);
    w => ContainsWord(p, w, isWordChar)
  }

  /** The suggestion scan: the padded text contains the word as a whole word. */
  function SuggestionScan(message: string, isWordChar: char -> bool): (r: Scan)
    ensures r.role != Undefined ==>
      exists i :: 0 <= i < TableSize && ContainsWord(Padded(message), TriggerAt(i).word, isWordChar) && r.role == TriggerAt(i).role
  {
    var r := ScanFrom(Scan(Undefined, false), Triggers(), SuggestHit(message, isWordChar));
    assert r.role != Undefined ==>
      exists i :: 0 <= i < TableSize && ContainsWord(Padded(message), TriggerAt(i).word, isWordChar) && r.role == TriggerAt(i).role by {
      if r.role != Undefined {
        var i :| 0 <= i < TableSize && SuggestHit(message, isWordChar)(Triggers()[i].word) && r.role == Triggers()[i].role;
      }
    }
    r
  }

  /** The decision at the end of `OnChatMessage`: an untainted occupation wins; otherwise an
      untainted suggestion; otherwise nothing. */
  function Classify(message: string, isWordChar: char -> bool): (c: Claim)
    ensures c.Occupation? ==> c.role != Undefined
    ensures c.Suggestion? ==> c.role != Undefined
  {
    var o := OccupationScan(message);
    var s := SuggestionScan(message, isWordChar);
    if !o.tainted && o.role != Undefined then Occupation(o.role)
    else if !s.tainted && s.role != Undefined then Suggestion(s.role)
    else NoClaim
  }

  /** The role a text claims outright: the role of the table word it equals, unless that word
      is "undefined" or there is none. */
  function ExactRole(text: string): RoleId {
    match WordIndex(text)
    case Some(i) => if TriggerAt(i).word == text then TriggerAt(i).role else Undefined
    case None => Undefined
  }

  lemma PaddedEquals(a: string, b: string)
    ensures " " + a + " " == " " + b + " " <==> a == b
  {
    if " " + a + " " == " " + b + " " {
      assert a == (" " + a + " ")[1..|a| + 1];
      assert b == (" " + b + " ")[1..|b| + 1];
    }
  }

  /** The occupation scan is never tainted, since the table words are distinct, and finds
      exactly the role the trimmed lower-cased text names outright. */
  lemma {:induction false} OccupationScanExact(message: string)
    ensures OccupationScan(message) == Scan(ExactRole(ToLower(Trim(message))), false)
  {
    var text := ToLower(Trim(message));
    var hit := OccupyHit(message);
    var ts := Triggers();
    forall j
      ensures Counts(ts, hit, j) <==> ExactRole(text) != Undefined && WordIndex(text) == Some(j)
    {
      OccupyCountsIff(message, j);
      ExactRoleAt(text, j);
    }
    ScanOutcome(ts, hit);
    var sc := ScanFrom(Scan(Undefined, false), ts, hit);
    if ExactRole(text) != Undefined {
      var i := WordIndex(text).value;
      assert Counts(ts, hit, i) && forall j :: j != i ==> !Counts(ts, hit, j);
      assert sc == Scan(ts[i].role, false);
      ExactRoleAt(text, i);
    } else {
      assert forall j :: !Counts(ts, hit, j);
      assert sc == Scan(Undefined, false);
    }
    OccupationScanUnfold(message);
  }

  /** The occupation scan is the table walk from the empty state. */
  lemma OccupationScanUnfold(message: string)
    ensures OccupationScan(message) == ScanFrom(Scan(Undefined, false), Triggers(), OccupyHit(message))
  {
  }

  /** An entry counts for an occupation exactly when its word is the whole trimmed text. */
  lemma OccupyCountsIff(message: string, j: int)
    ensures Counts(Triggers(), OccupyHit(message), j)
      <==> 0 <= j < TableSize && TriggerAt(j).word == ToLower(Trim(message)) && TriggerAt(j).role != Undefined
  {
    if 0 <= j < TableSize {
      PaddedEquals(ToLower(Trim(message)), TriggerAt(j).word);
    }
  }

  /** The entry whose word is the text, if it names a role, is the one `ExactRole` finds. */
  lemma ExactRoleAt(text: string, j: int)
    ensures 0 <= j < TableSize && TriggerAt(j).word == text && TriggerAt(j).role != Undefined
      <==> ExactRole(text) != Undefined && WordIndex(text) == Some(j)
  {
    if 0 <= j < TableSize && TriggerAt(j).word == text {
      WordIndexRoundTrip(j);
    }
  }

  /** A line is an occupation claim exactly when its trimmed, lower-cased text is a table
      word other than "undefined", and it claims that word's role. */
  lemma OccupationIff(message: string, isWordChar: char -> bool)
    ensures Classify(message, isWordChar).Occupation? <==> ExactRole(ToLower(Trim(message))) != Undefined
    ensures Classify(message, isWordChar).Occupation? ==>
      Classify(message, isWordChar).role == ExactRole(ToLower(Trim(message)))
  {
    OccupationScanExact(message);
  }

  /** Entry `i` counts for the suggestion scan of `message`. */
  predicate Mentions(message: string, isWordChar: char -> bool, i: int) {
    0 <= i < TableSize && TriggerAt(i).role != Undefined && ContainsWord(Padded(message), TriggerAt(i).word, isWordChar)
  }

  /** A line that claims nothing outright suggests a role exactly when it mentions exactly
      one table word (other than "undefined") as a whole word; it suggests nothing when it
      mentions none, or two or more. */
  lemma {:induction false} SuggestionOutcome(message: string, isWordChar: char -> bool)
    requires ExactRole(ToLower(Trim(message))) == Undefined
    ensures forall i :: Mentions(message, isWordChar, i) && (forall j :: j != i ==> !Mentions(message, isWordChar, j)) ==>
      Classify(message, isWordChar) == Suggestion(TriggerAt(i).role)
    ensures (forall j :: !Mentions(message, isWordChar, j)) ==> Classify(message, isWordChar) == NoClaim
    ensures (exists i, j :: i != j && Mentions(message, isWordChar, i) && Mentions(message, isWordChar, j)) ==>
      Classify(message, isWordChar) == NoClaim
  {
    OccupationScanExact(message);
    SuggestionScanOutcome(message, isWordChar);
    ClassifyBySuggestion(message, isWordChar);
  }

  /** Without an occupation, the classification is the suggestion scan's verdict. */
  lemma ClassifyBySuggestion(message: string, isWordChar: char -> bool)
    requires OccupationScan(message) == Scan(Undefined, false)
    ensures var sc := SuggestionScan(message, isWordChar);
      Classify(message, isWordChar) == if !sc.tainted && sc.role != Undefined then Suggestion(sc.role) else NoClaim
  {
  }

  /** The suggestion scan in terms of the trigger words the message mentions. */
  lemma SuggestionScanOutcome(message: string, isWordChar: char -> bool)
    ensures (forall j :: !Mentions(message, isWordChar, j)) ==> SuggestionScan(message, isWordChar) == Scan(Undefined, false)
    ensures forall i :: Mentions(message, isWordChar, i) && (forall j :: j != i ==> !Mentions(message, isWordChar, j)) ==>
      SuggestionScan(message, isWordChar) == Scan(TriggerAt(i).role, false)
    ensures (exists i, j :: i != j && Mentions(message, isWordChar, i) && Mentions(message, isWordChar, j)) ==>
      SuggestionScan(message, isWordChar).tainted
  {
    var hit := SuggestHit(message, isWordChar);
    var ts := Triggers();
    forall j
      ensures Counts(ts, hit, j) <==> Mentions(message, isWordChar, j)
    {
    }
    ScanOutcome(ts, hit);
  }

  // ---------------------------------------------------------------------------
  // Worked lines

  /** "OT" on its own occupies OT. */
  lemma ClaimOt(isWordChar: char -> bool)
    ensures Classify("OT", isWordChar) == Occupation(OT)
  {
    TrimFixed("OT");
    var text := ToLower("OT");
    assert text == "ot";
    assert ToLower(Identifier(OT)) == "ot";
    assert WordIndex("ot") == Some(2);
    assert ExactRole("ot") == OT;
    OccupationIff("OT", isWordChar);
  }

  /** A line whose trimmed, lower-cased text is a table word other than "undefined"
      occupies that word's role; so "st" occupies OT and "d3" occupies M3 under either
      naming convention. */
  lemma ExactWordOccupies(message: string, isWordChar: char -> bool, i: nat)
    requires 0 < i < TableSize && ToLower(Trim(message)) == TriggerAt(i).word
    ensures Classify(message, isWordChar) == Occupation(TriggerAt(i).role)
  {
    WordIndexRoundTrip(i);
    OccupationIff(message, isWordChar);
  }

  // ---------------------------------------------------------------------------
  // The handler

  datatype Channel = Party | CrossParty | Say | OtherChannel

  /** `OnChatMessage`: only party, cross-party and say lines are read, and only when the
      sender resolves to a name and home world (`sender`). An occupation claim occupies the
      role and recomputes the assignments, even when the name is empty and the occupation
      itself is skipped; a suggestion records it. */
  function OnChatMessage(t: Tracker, channel: Channel, sender: Option<(string, UInt32)>, message: string,
                         isWordChar: char -> bool, roster: seq<Member>, settings: Settings): (r: Tracker)
    ensures channel == OtherChannel || sender.None? ==> r == t
    ensures channel != OtherChannel && sender.Some? && Classify(message, isWordChar).NoClaim? ==> r == t
    ensures channel != OtherChannel && sender.Some? && !Classify(message, isWordChar).Occupation? ==>
      r.occupiedRoles == t.occupiedRoles && r.assignedRoles == t.assignedRoles && r.unassignedRoles == t.unassignedRoles
  {
    if channel == OtherChannel || sender.None? then t
    else
      var (name, world) := sender.value;
      match Classify(message, isWordChar)
      case Occupation(role) => Recalculate(OccupyRole(t, Some(name), world, role), roster, settings)
      case Suggestion(role) => SuggestRole(t, name, world, role)
      case NoClaim => t
  }

  /** After an occupation line from a named sender, the sender occupies and is assigned the
      claimed role, and no other identity occupies it. */
  lemma {:induction false} OccupationLineAssigns(t: Tracker, channel: Channel, name: string, world: UInt32, message: string,
                                                 isWordChar: char -> bool, roster: seq<Member>, settings: Settings)
    requires channel != OtherChannel && name != ""
    requires ExactRole(ToLower(Trim(message))) != Undefined
    ensures var r := OnChatMessage(t, channel, Some((name, world)), message, isWordChar, roster, settings);
      var role := ExactRole(ToLower(Trim(message)));
      && TryGetAssignedRole(r, Some(name), world) == Some(role)
      && PlayerId(name, world) in r.occupiedRoles && r.occupiedRoles[PlayerId(name, world)] == role
      && (forall k :: k in r.occupiedRoles && k != PlayerId(name, world) ==> r.occupiedRoles[k] != role)
  {
    OccupationIff(message, isWordChar);
    var role := ExactRole(ToLower(Trim(message)));
    var t1 := OccupyRole(t, Some(name), world, role);
    RecalculateSound(t1, roster, settings);
  }

  /** An occupation line from a sender whose name is empty occupies nothing, yet the
      assignments are still recomputed. */
  lemma EmptyNameStillRecalculates(t: Tracker, channel: Channel, world: UInt32, message: string,
                                   isWordChar: char -> bool, roster: seq<Member>, settings: Settings)
    requires channel != OtherChannel
    requires ExactRole(ToLower(Trim(message))) != Undefined
    ensures var r := OnChatMessage(t, channel, Some(("", world)), message, isWordChar, roster, settings);
      && r.occupiedRoles == t.occupiedRoles
      && r == Recalculate(t, roster, settings)
  {
    OccupationIff(message, isWordChar);
    EmptyNameOccupation(t, channel, world, message, isWordChar, roster, settings);
  }

  /** The same, for a line classified as an occupation. */
  lemma EmptyNameOccupation(t: Tracker, channel: Channel, world: UInt32, message: string,
                            isWordChar: char -> bool, roster: seq<Member>, settings: Settings)
    requires channel != OtherChannel && Classify(message, isWordChar).Occupation?
    ensures OnChatMessage(t, channel, Some(("", world)), message, isWordChar, roster, settings)
      == Recalculate(t, roster, settings)
  {
    assert OccupyRole(t, Some(""), world, Classify(message, isWordChar).role) == t;
  }

  /** A line that names no role outright and mentions no table word as a whole word leaves
      the tracker as it is. */
  lemma SilentLineUnchanged(t: Tracker, channel: Channel, sender: Option<(string, UInt32)>, message: string,
                            isWordChar: char -> bool, roster: seq<Member>, settings: Settings)
    requires ExactRole(ToLower(Trim(message))) == Undefined
    requires forall j :: !Mentions(message, isWordChar, j)
    ensures OnChatMessage(t, channel, sender, message, isWordChar, roster, settings) == t
  {
    SuggestionOutcome(message, isWordChar);
  }

  /** A suggestion line records the suggestion and changes nothing else. */
  lemma SuggestionLineRecords(t: Tracker, channel: Channel, name: string, world: UInt32, message: string,
                              isWordChar: char -> bool, roster: seq<Member>, settings: Settings)
    requires channel != OtherChannel
    requires Classify(message, isWordChar).Suggestion?
    ensures var r := OnChatMessage(t, channel, Some((name, world)), message, isWordChar, roster, settings);
      && TryGetSuggestedRole(r, Some(name), world) == Some(Classify(message, isWordChar).role)
      && r == t.(suggestedRoles := r.suggestedRoles)
  {
  }

  /** Reading a chat line keeps `Valid`. */
  lemma {:induction false} OnChatMessagePreservesValid(t: Tracker, channel: Channel, sender: Option<(string, UInt32)>, message: string,
                                                       isWordChar: char -> bool, roster: seq<Member>, settings: Settings)
    requires Valid(t)
    ensures Valid(OnChatMessage(t, channel, sender, message, isWordChar, roster, settings))
  {
    if channel != OtherChannel && sender.Some? {
      var (name, world) := sender.value;
      var claim := Classify(message, isWordChar);
      if claim.Occupation? {
        OccupationKeepsValid(t, name, world, claim.role, roster, settings);
      }
    }
  }

  lemma OccupationKeepsValid(t: Tracker, name: string, world: UInt32, role: RoleId, roster: seq<Member>, settings: Settings)
    requires Valid(t)
    ensures Valid(Recalculate(OccupyRole(t, Some(name), world, role), roster, settings))
  {
    OccupyRolePreservesValid(t, Some(name), world, role);
    RecalculatePreservesValid(OccupyRole(t, Some(name), world, role), roster, settings);
  }
}
