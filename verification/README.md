# PartyIcons role tracking, in Dafny

A model of the role logic in the PartyIcons plugin for Final Fantasy XIV. The plugin
labels party members with a role slot (MT, OT, H1, M1, R1, ...). It decides the slots
itself, and it also reads claims such as "MT" or "d3" that players type in party chat.

What is modelled:

- **The role catalogue** (`RoleIds`). The `RoleId` enumeration is `Undefined` = 0, then four
  blocks of eight: tanks 1..8, healers 9..16, melee 17..24 and ranged 25..32. Also modelled are
  the pair swap `Counterpart` and the enum member names.
- **The tracker state and its operations** (`RoleTracker`). The state has three string-keyed
  maps (occupied, assigned, suggested) and the unassigned-role set. The operations are
  `OccupyRole`, `SuggestRole`, the two resets, the queries, and the reconciliation pass
  `CalculateUnassignedPartyRoles`. That pass runs in three steps: occupations are copied,
  then static assignments are applied, then each member without a role takes the first free
  slot of its pool.
- **Chat classification** (`ChatClaims`). This covers the 42-entry trigger table, the two
  scans with their "tainted" abort, and the occupation-over-suggestion decision.
  `OnChatMessage` then applies the decision to the tracker.
- **The recompute trigger** (`RecomputeTrigger`). On each framework update, occupations are
  reset once the player is no longer in a party. Otherwise a 32-bit wrapping hash of the
  party's job ids gates the recalculation. A change of naming convention clears the stored
  hash.
- **Presentation lookups** (`PlayerStylesheet`). These are role names, role colours, plate
  numbers, the text of role plates, and `BoxedCharacterString`.
- **Display-mode selection** (`ViewModeSetter`). On a territory change, the party nameplate
  and chat modes are chosen from the duty's member type. `ForceRefresh` is also modelled.

Supporting modules: `Optional` (an option type), `Text` (ASCII lower-casing, .NET white-space
trimming, decimal rendering) and `Int32Arith` (two's-complement wrap-around).

Every operation is a pure function from a state and its inputs to the next state.
The following are parameters: the party roster (a sequence of members, each with its generic
role already resolved), the naming convention and static assignments, the chat channel and
resolved sender, the regex word-character class, the cross-world party flag, and the
content-finder row of the current territory.

Behaviour of the code that the lemmas pin down, where a reader might expect otherwise:

- A static assignment does not remove its slot from the unassigned set. So fallback can give
  the same slot to a second member (`RoleTracker.StaticSlotCanBeReused`). Assignments are
  unique only when there are no statics (`RoleTracker.RecalculateUniqueWithoutStatics`). In
  general, a duplicate always involves a static (`RoleTracker.RecalculateNoDoubleBooking`).
- A static entry naming `Undefined` is honoured for a member whose job has no combat
  category, because that member's pool is `[Undefined]`
  (`RoleTracker.StaticUndefinedForUnknownJob`).
- In chat, "d3" claims M3 under either convention. On plates, however, the Eastern
  convention labels R1 as "D3" (`ChatClaims.ExactWordOccupies`, `PlayerStylesheet.PlateLabels`).
- An occupation line from a sender with an empty name occupies nothing, but still triggers a
  recalculation (`ChatClaims.EmptyNameStillRecalculates`).
- A naming-convention change forces a recalculation only when the party hash is not 0, since
  0 is the value the stored hash is cleared to (`RecomputeTrigger.ConventionChangeRecomputes`).
- The party hash only sees job ids, weighted by position, so different parties can collide
  (`RecomputeTrigger.HashCollision`).

## Model

| member | source | states |
|---|---|---|
| RoleIds.AllRolesContents | PartyIcons/Entities/RoleId.cs:3-11 | a role is assignable exactly when it is not `Undefined` |
| RoleIds.BlockRoles | PartyIcons/Entities/RoleId.cs:3-11 | block b lists eight roles, slot i + 1 of block b at index i |
| RoleIds.BlockRolesMembership | PartyIcons/Entities/RoleId.cs:3-11 | a role is in block b's list iff it lies in block b |
| RoleIds.BlockSlotDetermine | PartyIcons/Entities/RoleId.cs:3-11 | block and slot number determine an assignable role |
| RoleIds.CategoryOf | PartyIcons/Entities/RoleId.cs:15-19 | the category of a role is the one owning its block; `Unknown` iff `Undefined` |
| RoleIds.Counterpart | PartyIcons/Entities/RoleId.cs:20-23 | the swap fixes only `Undefined`; every other role goes to the other role of its pair, in the same block |
| RoleIds.CounterpartInvolutive | PartyIcons/Entities/RoleId.cs:20-23 | swapping twice gives the role back |
| RoleIds.Identifier | PartyIcons/Runtime/RoleTracker.cs:59 | the enum member name: "Undefined" is the only name longer than two characters; every other name is a capital letter then a second character, which is a digit except for MT and OT |
| RoleIds.IdentifierRoundTrip | PartyIcons/Runtime/RoleTracker.cs:59 | the lower-cased enum member name parses back to its role |
| RoleIds.IdentifierInjective | PartyIcons/Runtime/RoleTracker.cs:59 | distinct roles have distinct lower-cased names |
| Text.ToLower | PartyIcons/Runtime/RoleTracker.cs:368 | lower-casing keeps the length and maps each character through the ASCII letter rule, leaving every other character alone |
| Text.Trim | PartyIcons/Runtime/RoleTracker.cs:368 | the trim is the slice of the input that starts after the leading white space, neither starts nor ends with white space, and has only white space after it; it is empty iff the input is all white space |
| Text.TrimPadded | PartyIcons/Runtime/RoleTracker.cs:368-369 | padding a trimmed word with one space each side does not change its trim |
| Text.DecimalRoundTrip | PartyIcons/Runtime/RoleTracker.cs:305-308 | the decimal rendering of a world id reads back to that id |
| Int32Arith.Wrap32 | PartyIcons/Runtime/RoleTracker.cs:290-294 | the wrapped value is in the `int` range and congruent to the input modulo 2^32 |
| Int32Arith.WrapMulAdd | PartyIcons/Runtime/RoleTracker.cs:290-294 | wrapping a factor or summand early does not change the wrapped result |
| Int32Arith.WrapShiftInjective | PartyIcons/Runtime/RoleTracker.cs:290-294 | adding two distinct unsigned 32-bit values to the same base wraps to distinct results |
| RoleTracker.Initial | PartyIcons/Runtime/RoleTracker.cs:37-46 | a fresh tracker has empty maps and unassigned set, hash 0, the Western convention, and satisfies the invariant |
| RoleTracker.PlayerId | PartyIcons/Runtime/RoleTracker.cs:305-313 | the key is the name, then '@', then the decimal world id; PlayerIdInjective shows it identifies the pair |
| RoleTracker.PlayerIdInjective | PartyIcons/Runtime/RoleTracker.cs:305-308 | equal "name@worldId" keys mean equal name and world id |
| RoleTracker.TryGetAssignedRole | PartyIcons/Runtime/RoleTracker.cs:105-114 | a role is returned iff the name is present and its key is assigned, and it is that key's role |
| RoleTracker.TryGetSuggestedRole | PartyIcons/Runtime/RoleTracker.cs:94-103 | a role is returned iff the name is present and its key has a suggestion, and it is that suggestion |
| RoleTracker.AssignedRoleSet | PartyIcons/Runtime/RoleTracker.cs:116-122 | the set holds exactly the roles some key is assigned |
| RoleTracker.ApplicableRoles | PartyIcons/Runtime/RoleTracker.cs:321-341 | pools are strictly ascending, `[Undefined]` for an unknown category, and otherwise free of `Undefined` |
| RoleTracker.ApplicableRolesMembership | PartyIcons/Runtime/RoleTracker.cs:321-341 | a role is in a pool iff it is in the category's block, or, under the Eastern convention, in either damage block for a damage category |
| RoleTracker.FindUnassignedRole | PartyIcons/Runtime/RoleTracker.cs:315-319 | a found role is unassigned, in the category's pool and lower than every other unassigned pool role; `Undefined` for a known category means no pool role is unassigned |
| RoleTracker.FirstFree | PartyIcons/Runtime/RoleTracker.cs:315-319 | with a free role in the pool the result is free and the earliest free one; otherwise `Undefined` |
| RoleTracker.FirstFreeIsLowest | PartyIcons/Runtime/RoleTracker.cs:315-319 | in an ascending pool no free role is lower than the one chosen |
| RoleTracker.FirstRolesOf | PartyIcons/Runtime/RoleTracker.cs:124-134 | the set holds exactly the non-`Undefined` first free roles of the listed categories |
| RoleTracker.FirstUnassignedRoleSet | PartyIcons/Runtime/RoleTracker.cs:124-134 | every offered role is unassigned and not `Undefined` |
| RoleTracker.FirstUnassignedRoleIsLowest | PartyIcons/Runtime/RoleTracker.cs:124-134 | each offered role is the lowest unassigned role of some category's pool |
| RoleTracker.FirstUnassignedRoleCovers | PartyIcons/Runtime/RoleTracker.cs:124-134 | every category with an unassigned role in its pool has its first one offered |
| RoleTracker.OccupyRole | PartyIcons/Runtime/RoleTracker.cs:136-147 | a null or empty name changes nothing; otherwise the identity occupies the role, every other occupation of that role is dropped, and the rest stay |
| RoleTracker.OccupyRolePreservesValid | PartyIcons/Runtime/RoleTracker.cs:141-144 | occupation stays one identity per role |
| RoleTracker.OccupyRoleEvicts | PartyIcons/Runtime/RoleTracker.cs:141-144 | claiming a role another identity holds moves it: {A: role} becomes {B: role} |
| RoleTracker.SuggestRole | PartyIcons/Runtime/RoleTracker.cs:149-153 | the identity's suggestion becomes the role; other suggestions and all other state stay |
| RoleTracker.ResetOccupations | PartyIcons/Runtime/RoleTracker.cs:155-159 | occupations become empty; nothing else changes |
| RoleTracker.ResetAssignments | PartyIcons/Runtime/RoleTracker.cs:161-174 | nobody is assigned and the unassigned set is every role except `Undefined` |
| RoleTracker.CopyOccupations | PartyIcons/Runtime/RoleTracker.cs:183-189 | every occupation becomes an assignment verbatim and its role leaves the unassigned set |
| RoleTracker.ApplyStatic | PartyIcons/Runtime/RoleTracker.cs:196-216 | one static entry keeps every earlier assignment; what it adds is stated by ApplyStaticSound and ApplyStaticComplete |
| RoleTracker.ApplyStatics | PartyIcons/Runtime/RoleTracker.cs:192-218 | the static step keeps every earlier assignment; what it adds is stated by ApplyStaticsSpec |
| RoleTracker.ApplyStaticSound | PartyIcons/Runtime/RoleTracker.cs:192-217 | a static entry adds a key only for a member with that key whose "name@WorldName" is the entry's key and whose pool holds the role |
| RoleTracker.ApplyStaticComplete | PartyIcons/Runtime/RoleTracker.cs:192-217 | a static entry reaches every matching member that has no assignment yet |
| RoleTracker.ApplyStaticsSpec | PartyIcons/Runtime/RoleTracker.cs:192-218 | the static step adds exactly the matching unassigned members, each under a matching entry |
| RoleTracker.AssignRest | PartyIcons/Runtime/RoleTracker.cs:221-236 | the fallback loop keeps every earlier assignment and only removes roles from the free set; its choices are stated by AssignRestTurn, AssignRestInPoolOrder, AssignRestDistinct, AssignRestCovers and AssignRestExhausts |
| RoleTracker.AssignRestChoice | PartyIcons/Runtime/RoleTracker.cs:221-236 | fallback gives a member a role that was free, is taken afterwards, and has no role of its pool before it left free at the end |
| RoleTracker.AssignRestSplit | PartyIcons/Runtime/RoleTracker.cs:221-236 | the fallback loop over a roster split in two is the loop over the second part continuing from where the first part left off |
| RoleTracker.AssignRestLeftover | PartyIcons/Runtime/RoleTracker.cs:221-236 | the roles left free are exactly the starting free roles minus the roles handed out |
| RoleTracker.AssignRestTurn | PartyIcons/Runtime/RoleTracker.cs:221-236 | a member whose key has no role yet when its turn comes gets the first role of its pool not handed to the members before it |
| RoleTracker.AssignRestInPoolOrder | PartyIcons/Runtime/RoleTracker.cs:221-236 | two fallback-assigned members with the same pool get roles in roster order: the earlier member's role comes first in the pool |
| RoleTracker.AssignRestDistinct | PartyIcons/Runtime/RoleTracker.cs:221-236 | fallback never gives one role to two members |
| RoleTracker.AssignRestCovers | PartyIcons/Runtime/RoleTracker.cs:221-236 | a role leaves the free set only when fallback gave it to a member |
| RoleTracker.AssignRestExhausts | PartyIcons/Runtime/RoleTracker.cs:221-236 | a member fallback leaves without a role has no role of its pool still free |
| RoleTracker.Recalculate | PartyIcons/Runtime/RoleTracker.cs:176-236 | only assignments and the unassigned set change; every occupation becomes an assignment verbatim; no unassigned role is `Undefined` or occupied; the rest of the content is in RecalculateSound, RecalculateComplete and RecalculateAccounts |
| RoleTracker.RecalculateSound | PartyIcons/Runtime/RoleTracker.cs:176-236 | after the pass, occupations are assignments verbatim; every other assignment is a static match or a fallback choice of a role nobody occupies; unassigned roles are real and unoccupied |
| RoleTracker.RecalculateComplete | PartyIcons/Runtime/RoleTracker.cs:176-236 | a member stays unassigned only when its pool has no unassigned role left; a statically matched member nobody occupies is assigned |
| RoleTracker.RecalculateAccounts | PartyIcons/Runtime/RoleTracker.cs:176-236 | a role leaves the unassigned set only when someone is assigned it |
| RoleTracker.RecalculateNoDoubleBooking | PartyIcons/Runtime/RoleTracker.cs:176-236 | with one holder per occupied role, two keys share a role only when one of them got it from a static entry |
| RoleTracker.RecalculateUniqueWithoutStatics | PartyIcons/Runtime/RoleTracker.cs:176-236 | without statics, assignments are one key per role whenever occupations are |
| RoleTracker.RecalculatePreservesValid | PartyIcons/Runtime/RoleTracker.cs:176-236 | the pass keeps the tracker invariant |
| RoleTracker.StaticSlotCanBeReused | PartyIcons/Runtime/RoleTracker.cs:204-211 | a static MT for one tank does not stop fallback from giving MT to a second tank |
| RoleTracker.StaticUndefinedForUnknownJob | PartyIcons/Runtime/RoleTracker.cs:206-211 | a static `Undefined` is applied to a member without a combat category; without it that member stays unassigned |
| RoleTracker.FallbackFirstSlots | PartyIcons/Runtime/RoleTracker.cs:221-236 | a tank, healer, melee and ranged with no occupations or statics get MT, H1, M1 and R1, and exactly those leave the unassigned set |
| ChatClaims.TriggerAt | PartyIcons/Runtime/RoleTracker.cs:57-75 | only the first table entry is for `Undefined` |
| ChatClaims.WordIndexRoundTrip | PartyIcons/Runtime/RoleTracker.cs:57-75 | every table word maps back to its own entry |
| ChatClaims.TriggerWordsDistinct | PartyIcons/Runtime/RoleTracker.cs:57-75 | no word appears twice in the table |
| ChatClaims.ScanFrom | PartyIcons/Runtime/RoleTracker.cs:376-412 | a held role is kept to the end; the final role is the starting one or that of some matching entry; with no match the state is unchanged |
| ChatClaims.OccupationScan | PartyIcons/Runtime/RoleTracker.cs:368-393 | a found role belongs to a table entry whose word, padded with one space each side, is the padded text |
| ChatClaims.SuggestionScan | PartyIcons/Runtime/RoleTracker.cs:395-412 | a found role belongs to a table entry whose word stands as a whole word in the padded text |
| ChatClaims.ScanHolding | PartyIcons/Runtime/RoleTracker.cs:376-393 | once a role is held, the rest of the scan keeps it when nothing more matches, and taints on any further match |
| ChatClaims.ScanOutcome | PartyIcons/Runtime/RoleTracker.cs:376-393 | from the empty state: no counting match finds nothing, exactly one finds its role, two or more taint |
| ChatClaims.OccupationScanExact | PartyIcons/Runtime/RoleTracker.cs:368-393 | the occupation scan is never tainted and finds exactly the role the trimmed, lower-cased text names outright |
| ChatClaims.OccupationIff | PartyIcons/Runtime/RoleTracker.cs:414-420 | a line is an occupation iff its text is a table word other than "undefined", and it claims that word's role |
| ChatClaims.SuggestionOutcome | PartyIcons/Runtime/RoleTracker.cs:395-424 | a line that claims nothing outright suggests a role iff it mentions exactly one table word as a whole word; none or two or more give nothing |
| ChatClaims.SuggestionScanOutcome | PartyIcons/Runtime/RoleTracker.cs:395-412 | the suggestion scan finds nothing, the single mentioned role, or taints, by the number of mentioned words |
| ChatClaims.Classify | PartyIcons/Runtime/RoleTracker.cs:414-424 | a claimed role, occupied or suggested, is never `Undefined` |
| ChatClaims.ClaimOt | PartyIcons/Runtime/RoleTracker.cs:368-393 | the line "OT" occupies OT |
| ChatClaims.ExactWordOccupies | PartyIcons/Runtime/RoleTracker.cs:66-75 | a line whose text is a table word other than "undefined" occupies that word's role, e.g. "st" is OT and "d3" is M3 |
| ChatClaims.OnChatMessage | PartyIcons/Runtime/RoleTracker.cs:343-426 | lines from other channels, without a resolved sender, or claiming nothing change nothing; a line that occupies nothing leaves occupations and assignments as they were |
| ChatClaims.EmptyNameStillRecalculates | PartyIcons/Runtime/RoleTracker.cs:414-420 | an occupation line from an empty sender name occupies nothing but the assignments are recomputed |
| ChatClaims.SilentLineUnchanged | PartyIcons/Runtime/RoleTracker.cs:368-426 | a line naming no role outright and mentioning no table word leaves the tracker as it is |
| ChatClaims.OccupationLineAssigns | PartyIcons/Runtime/RoleTracker.cs:414-420 | after an occupation line from a named sender, the sender occupies and is assigned the role, and no one else occupies it |
| ChatClaims.SuggestionLineRecords | PartyIcons/Runtime/RoleTracker.cs:421-424 | a suggestion line records the suggestion and changes nothing else |
| ChatClaims.OnChatMessagePreservesValid | PartyIcons/Runtime/RoleTracker.cs:343-426 | handling a line keeps the tracker invariant |
| RecomputeTrigger.RosterHash | PartyIcons/Runtime/RoleTracker.cs:286-294 | the party hash is the exact fold from 17 with factor 40 over the job ids, reduced once into the `int` range |
| RecomputeTrigger.HashIsWrappedExact | PartyIcons/Runtime/RoleTracker.cs:286-294 | the step-wise wrapped hash equals the exact integer fold wrapped once |
| RecomputeTrigger.HashFromAppend | PartyIcons/Runtime/RoleTracker.cs:286-294 | the fold over a longer party continues the fold over its first members |
| RecomputeTrigger.LastJobChangeDetected | PartyIcons/Runtime/RoleTracker.cs:286-294 | parties that differ only in the last member's job hash differently |
| RecomputeTrigger.HashCollision | PartyIcons/Runtime/RoleTracker.cs:286-294 | jobs [1, 0] and [0, 40] give the same party hash |
| RecomputeTrigger.FrameworkUpdate | PartyIcons/Runtime/RoleTracker.cs:271-303 | after leaving the party only occupations are reset; otherwise the hash and convention are stored and occupations and suggestions stay |
| RecomputeTrigger.RecomputeIff | PartyIcons/Runtime/RoleTracker.cs:280-302 | outside the reset path, assignments are recomputed iff the hash differs from the stored one (0 after a convention change), and are otherwise kept |
| RecomputeTrigger.StableFrameUnchanged | PartyIcons/Runtime/RoleTracker.cs:280-302 | same party and same convention as last frame: nothing changes |
| RecomputeTrigger.FrameworkUpdateIdempotent | PartyIcons/Runtime/RoleTracker.cs:271-303 | outside the reset path, a second frame with the same inputs changes nothing |
| RecomputeTrigger.ConventionChangeRecomputes | PartyIcons/Runtime/RoleTracker.cs:280-300 | a convention change recomputes unless the party hash is 0 |
| RecomputeTrigger.FrameworkUpdatePreservesValid | PartyIcons/Runtime/RoleTracker.cs:271-303 | a frame keeps the tracker invariant |
| PlayerStylesheet.Glyph | PartyIcons/Stylesheet/PlayerStylesheet.cs:243-249 | letters go to the letter-glyph range, digits to the digit-glyph range, others are kept |
| PlayerStylesheet.BoxedCharacterString | PartyIcons/Stylesheet/PlayerStylesheet.cs:238-253 | one output character per input character, each a glyph of the lower-cased letter or digit, or the lower-cased character itself |
| PlayerStylesheet.BoxedRoundTrip | PartyIcons/Stylesheet/PlayerStylesheet.cs:238-253 | un-boxing gives back the lower-cased input |
| PlayerStylesheet.BoxedCaseInsensitive | PartyIcons/Stylesheet/PlayerStylesheet.cs:241 | upper- and lower-case spellings box alike |
| PlayerStylesheet.GlyphInjective | PartyIcons/Stylesheet/PlayerStylesheet.cs:245-246 | boxing is one-to-one on lower-case letters and digits, and the two glyph ranges are disjoint |
| PlayerStylesheet.RoleName | PartyIcons/Stylesheet/PlayerStylesheet.cs:115-123 | every role is shown by its enum name, except OT, which reads "ST" under the Eastern convention |
| PlayerStylesheet.RoleNameRoundTrip | PartyIcons/Stylesheet/PlayerStylesheet.cs:115-123 | under either convention a displayed role name reads back to its role |
| PlayerStylesheet.GenericRoleColor | PartyIcons/Stylesheet/PlayerStylesheet.cs:22-41 | only the unknown category gets the fallback colour |
| PlayerStylesheet.GenericRoleColorInjective | PartyIcons/Stylesheet/PlayerStylesheet.cs:22-41 | the categories are told apart by colour |
| PlayerStylesheet.RoleColor | PartyIcons/Stylesheet/PlayerStylesheet.cs:43-66 | a plated role takes its category's colour and every other role the fallback colour |
| PlayerStylesheet.RoleColorByCategory | PartyIcons/Stylesheet/PlayerStylesheet.cs:43-66 | a plated role has its category's colour, and only plated roles avoid the fallback colour |
| PlayerStylesheet.RolePlateNumber | PartyIcons/Stylesheet/PlayerStylesheet.cs:159-191 | a plated role's number is its boxed plate digit, and every other role gets "" |
| PlayerStylesheet.RolePlateNumberRule | PartyIcons/Stylesheet/PlayerStylesheet.cs:159-191 | the plate number is the boxed slot number, with ranged continuing at 3 and 4 under the Eastern convention, and empty for unplated roles |
| PlayerStylesheet.RolePlate | PartyIcons/Stylesheet/PlayerStylesheet.cs:145-157 | a plate is non-empty exactly for plated roles; a healer or damage plate is the category's generic plate followed by the plate number |
| PlayerStylesheet.PlateLabels | PartyIcons/Stylesheet/PlayerStylesheet.cs:145-191 | the eight plate labels spelt out per convention |
| PlayerStylesheet.RolePlateReads | PartyIcons/Stylesheet/PlayerStylesheet.cs:145-157 | a plate is empty iff the role is unplated, and otherwise un-boxes to its label |
| PlayerStylesheet.RolePlateInjective | PartyIcons/Stylesheet/PlayerStylesheet.cs:145-157 | under either convention the eight plates are pairwise distinct |
| PlayerStylesheet.GenericRolePlate | PartyIcons/Stylesheet/PlayerStylesheet.cs:125-143 | the four combat categories get a one-glyph plate, any other category none |
| PlayerStylesheet.GenericRolePlateReads | PartyIcons/Stylesheet/PlayerStylesheet.cs:125-137 | the plate un-boxes to "t", "h", "m" or "r", with "d" for both damage categories under the Eastern convention, and is empty only for unknown categories |
| PlayerStylesheet.GenericPlateStartsRolePlate | PartyIcons/Stylesheet/PlayerStylesheet.cs:125-137 | for healer and damage slots the generic plate is the first glyph of the slot's own plate under the same convention |
| ViewModeSetter.EffectiveMemberType | PartyIcons/Runtime/ViewModeSetter.cs:80-85 | rows 15 and 16 count as member type 2; any other row keeps its sheet value |
| ViewModeSetter.PlaceOf | PartyIcons/Runtime/ViewModeSetter.cs:64-115 | the place is the overworld iff there is no content row |
| ViewModeSetter.PlaceTable | PartyIcons/Runtime/ViewModeSetter.cs:80-115 | raid iff type 3, alliance iff 4, PvP iff 7 (rows 15 and 16 excepted); dungeon for those rows and every other type |
| ViewModeSetter.OnTerritoryChanged | PartyIcons/Runtime/ViewModeSetter.cs:64-118 | others modes stay; without content the party modes become the overworld ones and the HUD flag stays; with content the HUD flag is on iff the party nameplate is RoleLetters; both modes come from one place |
| ViewModeSetter.ForcedDungeonRows | PartyIcons/Runtime/ViewModeSetter.cs:80-85 | the Praetorium and Castrum Meridianum use the dungeon modes |
| ViewModeSetter.ModesFromOnePlace | PartyIcons/Runtime/ViewModeSetter.cs:89-115 | nameplate and chat modes come from the same place |
| ViewModeSetter.OnTerritoryChangedIdempotent | PartyIcons/Runtime/ViewModeSetter.cs:64-118 | entering the same territory again changes nothing |
| ViewModeSetter.ContentForgetsPartyState | PartyIcons/Runtime/ViewModeSetter.cs:89-117 | inside content the result does not depend on the earlier party modes or HUD flag |
| ViewModeSetter.ForceRefresh | PartyIcons/Runtime/ViewModeSetter.cs:46-52 | the others modes come from configuration, and the party modes and HUD flag are those of a territory change |
| ViewModeSetter.ForceRefreshSettles | PartyIcons/Runtime/ViewModeSetter.cs:46-52 | after a refresh, neither a territory change to the same place nor a second refresh changes anything |
| ViewModeSetter.DefaultHud | PartyIcons/Runtime/ViewModeSetter.cs:117 | with the shipped default modes the HUD rewrite is on exactly in raids |

## Left out

- RoleTracker.OccupyRole: drops every holder of the role, where the source drops only the
  first one it finds. The two agree whenever occupations hold one identity per role, which
  `OccupyRolePreservesValid` shows every reachable state does.
- Text.ToLower: lower-cases ASCII letters only. The source uses culture-aware `ToLower`.
- The `\W` regex class is the abstract predicate `isWordChar`. The regex engine is not
  modelled.
- Events (`OnRoleOccupied`, `OnRoleSuggested`, `OnAssignedRolesUpdated`), toasts, logging,
  and the chat print on entering content. These have no effect on the modelled state.
- The try/catch in `CalculateUnassignedPartyRoles`. `Recalculate` is total, so there is no
  exception to catch.
- Sender resolution from chat payloads and the local player. The resolved name and world
  are an input, and `None` stands for the early return.
- The job to generic-role mapping (`JobRoleExtensions`), which is not part of this model.
  Each roster member carries its category, with `Unknown` for jobs without one.
- The content-finder sheet lookup by territory. The matching row is an input.
- `DebugDescription`, and the enable/disable/dispose event wiring.
- `GetRoleIconset` and `GetGenericRoleIconset`. They depend on an icon-set enum that does
  not match the configuration's.
- The SeString and UI payload wrappers of the stylesheet, together with the forwarders
  `GetPartySlotNumber`, `GetRoleChatPrefix`, `GetRoleChatColor` and the job chat
  prefix/colour lookups. Plates are modelled as their plain text.
- Nameplate drawing, the party-list HUD, chat-name rewriting, the settings UI and plugin
  wiring. These live in other files of the plugin, which are not part of this model.
