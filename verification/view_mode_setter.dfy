/** `ViewModeSetter`: on entering a territory, picks the nameplate and chat modes used for
    party members from the configuration, by the kind of duty the territory belongs to,
    and turns on the party-list HUD rewrite when role letters are shown. */
module ViewModeSetter {
  import opened Optional

  datatype NameplateMode =
    | Default
    | JobIconAndName
    | JobIcon
    | JobIconAndPartySlot
    | RoleLetters
    | JobIconAndRoleLettersUncolored

  datatype ChatMode = GameDefault | NameColor | Role

  /** The configured modes per kind of place, as in `Configuration`. */
  datatype ModeConfig = ModeConfig(
    nameplateOverworld: NameplateMode,
    nameplateAllianceRaid: NameplateMode,
    nameplateDungeon: NameplateMode,
    nameplateRaid: NameplateMode,
    nameplateOthers: NameplateMode,
    nameplatePvP: NameplateMode,
    chatOverworld: ChatMode,
    chatAllianceRaid: ChatMode,
    chatDungeon: ChatMode,
    chatRaid: ChatMode,
    chatOthers: ChatMode,
    chatPvP: ChatMode)

  /** The configuration a fresh install starts with. */
  const DefaultConfig := ModeConfig(
    JobIconAndName, JobIcon, JobIcon, RoleLetters, JobIconAndName, JobIconAndRoleLettersUncolored,
    GameDefault, GameDefault, GameDefault, GameDefault, GameDefault, GameDefault)

  /** The content-finder row of the current territory: its row id and its member-type row. */
  datatype ContentRow = ContentRow(rowId: nat, memberType: nat)

  /** What the setter writes: the party and others modes of the nameplate view and the chat
      name updater, and the party-list HUD updater's switch. */
  datatype Display = Display(
    partyNameplate: NameplateMode,
    partyChat: ChatMode,
    othersNameplate: NameplateMode,
    othersChat: ChatMode,
    updateHud: bool)

  /** The kinds of place the configuration distinguishes for party members. */
  datatype Place = Overworld | Dungeon | Raid | AllianceRaid | PvP

  /** The Praetorium and Castrum Meridianum rows. */
  predicate IsForcedDungeon(c: ContentRow) {
    c.rowId == 15 || c.rowId == 16
  }

  /** The member type the switch sees: forced to 2 for the two rows above. */
  function EffectiveMemberType(c: ContentRow): (m: nat)
    ensures IsForcedDungeon(c) ==> m == 2
    ensures !IsForcedDungeon(c) ==> m == c.memberType
  {
    if c.rowId == 16 || c.rowId == 15 then 2 else c.memberType
  }

  /** The switch on the member type: 3, 4 and 7 are raids, alliance raids and PvP; 2 and
      every other value fall back to the dungeon modes. */
  function PlaceOf(content: Option<ContentRow>): (p: Place)
    ensures p == Overworld <==> content.None?
  {
    match content
    case None => Overworld
    case Some(c) =>
      match EffectiveMemberType(c)
      case 2 => Dungeon
      case 3 => Raid
      case 4 => AllianceRaid
      case 7 => PvP
      case _ => Dungeon
  }

  /** The nameplate mode configured for a kind of place. */
  function NameplateFor(cfg: ModeConfig, p: Place): NameplateMode {
    match p
    case Overworld => cfg.nameplateOverworld
    case Dungeon => cfg.nameplateDungeon
    case Raid => cfg.nameplateRaid
    case AllianceRaid => cfg.nameplateAllianceRaid
    case PvP => cfg.nameplatePvP
  }

  /** The chat mode configured for a kind of place. */
  function ChatFor(cfg: ModeConfig, p: Place): ChatMode {
    match p
    case Overworld => cfg.chatOverworld
    case Dungeon => cfg.chatDungeon
    case Raid => cfg.chatRaid
    case AllianceRaid => cfg.chatAllianceRaid
    case PvP => cfg.chatPvP
  }

  /** `OnTerritoryChanged`: outside content only the party modes change, to the overworld
      ones; inside content the party modes come from the duty's kind and the HUD switch
      follows whether the party nameplates show role letters. */
  function OnTerritoryChanged(d: Display, cfg: ModeConfig, content: Option<ContentRow>): (r: Display)
    ensures r.othersNameplate == d.othersNameplate && r.othersChat == d.othersChat
    ensures content.None? ==>
      r.partyNameplate == cfg.nameplateOverworld && r.partyChat == cfg.chatOverworld
      && r.updateHud == d.updateHud
    ensures content.Some? ==> (r.updateHud <==> r.partyNameplate == RoleLetters)
    ensures exists p: Place ::
      r.partyNameplate == NameplateFor(cfg, p) && r.partyChat == ChatFor(cfg, p)
  {
    var p := PlaceOf(content);
    var r := d.(partyNameplate := NameplateFor(cfg, p), partyChat := ChatFor(cfg, p));
    assert r.partyNameplate == NameplateFor(cfg, p);
    if content.None? then r else r.(updateHud := r.partyNameplate == RoleLetters)
  }

  /** `ForceRefresh`: copy both "others" modes from the configuration, then select the
      party modes for the current territory. */
  function ForceRefresh(d: Display, cfg: ModeConfig, content: Option<ContentRow>): (r: Display)
    ensures r.othersNameplate == cfg.nameplateOthers && r.othersChat == cfg.chatOthers
    ensures r.partyNameplate == OnTerritoryChanged(d, cfg, content).partyNameplate
    ensures r.partyChat == OnTerritoryChanged(d, cfg, content).partyChat
    ensures r.updateHud == OnTerritoryChanged(d, cfg, content).updateHud
  {
    OnTerritoryChanged(d.(othersNameplate := cfg.nameplateOthers, othersChat := cfg.chatOthers), cfg, content)
  }

  // ---------------------------------------------------------------------------
  // Properties

  /** The decision table read row by row, against the raw sheet values. */
  lemma PlaceTable(c: ContentRow)
    ensures PlaceOf(Some(c)) == Raid <==> !IsForcedDungeon(c) && c.memberType == 3
    ensures PlaceOf(Some(c)) == AllianceRaid <==> !IsForcedDungeon(c) && c.memberType == 4
    ensures PlaceOf(Some(c)) == PvP <==> !IsForcedDungeon(c) && c.memberType == 7
    ensures PlaceOf(Some(c)) == Dungeon <==> IsForcedDungeon(c) || c.memberType !in {3, 4, 7}
  {
  }

  /** The Praetorium and Castrum Meridianum use the dungeon modes whatever their sheet says. */
  lemma ForcedDungeonRows(d: Display, cfg: ModeConfig, c: ContentRow)
    requires IsForcedDungeon(c)
    ensures OnTerritoryChanged(d, cfg, Some(c)).partyNameplate == cfg.nameplateDungeon
    ensures OnTerritoryChanged(d, cfg, Some(c)).partyChat == cfg.chatDungeon
  {
  }

  /** Nameplate and chat modes always come from the same kind of place. */
  lemma ModesFromOnePlace(d: Display, cfg: ModeConfig, content: Option<ContentRow>)
    ensures var r := OnTerritoryChanged(d, cfg, content);
      r.partyNameplate == NameplateFor(cfg, PlaceOf(content))
      && r.partyChat == ChatFor(cfg, PlaceOf(content))
  {
  }

  /** Entering the same territory again changes nothing. */
  lemma OnTerritoryChangedIdempotent(d: Display, cfg: ModeConfig, content: Option<ContentRow>)
    ensures var r := OnTerritoryChanged(d, cfg, content);
      OnTerritoryChanged(r, cfg, content) == r
  {
  }

  /** After a refresh, a territory change to the same place changes nothing, and a second
      refresh changes nothing either. */
  lemma ForceRefreshSettles(d: Display, cfg: ModeConfig, content: Option<ContentRow>)
    ensures var r := ForceRefresh(d, cfg, content);
      OnTerritoryChanged(r, cfg, content) == r && ForceRefresh(r, cfg, content) == r
  {
  }

  /** Two displays that differ only in the party modes and the HUD switch agree after a
      content territory: inside content the result does not depend on the earlier state's
      party side at all. */
  lemma ContentForgetsPartyState(d1: Display, d2: Display, cfg: ModeConfig, c: ContentRow)
    requires d1.othersNameplate == d2.othersNameplate && d1.othersChat == d2.othersChat
    ensures OnTerritoryChanged(d1, cfg, Some(c)) == OnTerritoryChanged(d2, cfg, Some(c))
  {
  }

  /** With the shipped defaults, raids turn the HUD rewrite on and dungeons, alliance raids
      and PvP turn it off. */
  lemma DefaultHud(d: Display, c: ContentRow)
    ensures OnTerritoryChanged(d, DefaultConfig, Some(c)).updateHud
      <==> !IsForcedDungeon(c) && c.memberType == 3
  {
    PlaceTable(c);
  }
}
