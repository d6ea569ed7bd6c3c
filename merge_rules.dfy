/** The per-file, per-entry rules that decide the text of the third cell of a bilingual row.
    `MergeCurrent` is the `match` shared by the asynchronous and the database revisions,
    `MergeLegacy` the older one of src/core. */
module MergeRules {
  import opened Types
  import opened TextUtil
  import opened Combine

  const DialogFile: XmlFile := "text_ui_dialog.xml"
  const QuestFile: XmlFile := "text_ui_quest.xml"
  const TutorialsFile: XmlFile := "text_ui_tutorials.xml"
  const SoulFile: XmlFile := "text_ui_soul.xml"
  const ItemsFile: XmlFile := "text_ui_items.xml"
  const MenusFile: XmlFile := "text_ui_menus.xml"

  /** The files every revision converts, in the order it converts them. */
  const FilesToProcess: seq<XmlFile> := [DialogFile, QuestFile, TutorialsFile, SoulFile, ItemsFile, MenusFile]

  /** Menu ids whose text is too long to carry a translation, in the current revisions. */
  const MenuTextTooLong: seq<EntryId> := ["ui_state_health_desc", "ui_state_hunger_desc", "ui_DerivStat_MaxStamina_desc"]

  /** A file with a rule of its own; every other file takes the default rule. */
  predicate RuledFile(file: XmlFile) {
    file == MenusFile || file == DialogFile || file == ItemsFile || file == SoulFile
  }

  // ---------------------------------------------------------------------------------------
  // Conditions on entry ids and texts (`chars().count()` is the length of a `seq<char>`)
  // ---------------------------------------------------------------------------------------

  predicate HelpOverlay(id: EntryId) {
    Contains(id, "ui_helpoverlay")
  }

  predicate LoadingOrCodex(id: EntryId) {
    Contains(id, "ui_loading") || Contains(id, "codex_cont")
  }

  /** Item texts that stay untranslated: long step texts, and the first step of three weapon families. */
  predicate ItemsPrimaryOnly(id: EntryId, primary: TextValue) {
    || (Contains(id, "step") && !Contains(id, "_step_1") && |primary| >= 10)
    || (Contains(id, "step_1") && (Contains(id, "scatter") || Contains(id, "longWeak") || Contains(id, "bane")))
  }

  /** Soul entries joined with the slash: short texts other than the sentinel, and short stats. */
  predicate SoulSlash(id: EntryId, primary: TextValue) {
    (|primary| <= 7 && primary != Missing) || (|primary| <= 12 && Contains(id, "stat_"))
  }

  /** Soul entries joined with the line break: buff descriptions (except drunkenness) and perk descriptions. */
  predicate SoulNewline(id: EntryId) {
    || (Contains(id, "buff") && Contains(id, "desc") && !Contains(id, "drunkenness_desc"))
    || (Contains(id, "perk") && Contains(id, "_desc"))
  }

  /** Dialog and default files fall back to English when the secondary language has no entry. */
  function Fallback(secondary: TextValue, english: TextValue): TextValue {
    if secondary != Missing then secondary else english
  }

  // ---------------------------------------------------------------------------------------
  // The two revisions of the rule
  // ---------------------------------------------------------------------------------------

  /** The merge `match` of the asynchronous and database revisions. */
  function MergeCurrent(file: XmlFile, id: EntryId, primary: TextValue, secondary: TextValue, english: TextValue): (r: TextValue)
    ensures IsPrefix(primary, r)
  {
    if file == MenusFile then
      if HelpOverlay(id) then primary
      else if LoadingOrCodex(id) then CombineShared(primary, secondary, SeparatorNewline)
      else if |primary| <= 4 || id in MenuTextTooLong then primary
      else if |primary| >= 20 then CombineShared(primary, secondary, SeparatorNewline)
      else CombineShared(primary, secondary, SeparatorSlash)
    else if file == DialogFile then
      primary + SeparatorNewline + Fallback(secondary, english)
    else if file == ItemsFile then
      if ItemsPrimaryOnly(id, primary) then primary
      else if |primary| >= 7 then CombineShared(primary, secondary, SeparatorNewline)
      else CombineShared(primary, secondary, SeparatorSlash)
    else if file == SoulFile then
      if SoulSlash(id, primary) then CombineShared(primary, secondary, SeparatorSlash)
      else if SoulNewline(id) then CombineShared(primary, secondary, SeparatorNewline)
      else primary
    else
      primary + SeparatorSlash + Fallback(secondary, english)
  }

  /** The merge `match` of the first revision; every join there is the local combine. */
  function MergeLegacy(file: XmlFile, id: EntryId, primary: TextValue, secondary: TextValue, english: TextValue): (r: TextValue)
    ensures IsPrefix(primary, r)
  {
    if file == MenusFile then
      if HelpOverlay(id) then primary
      else if LoadingOrCodex(id) then CombineLocal(primary, secondary, SeparatorNewline)
      else if |primary| <= 4 then primary
      else CombineLocal(primary, secondary, SeparatorSlash)
    else if file == DialogFile then
      primary + SeparatorNewline + Fallback(secondary, english)
    else if file == ItemsFile then
      if ItemsPrimaryOnly(id, primary) then primary
      else if |primary| >= 7 then CombineLocal(primary, secondary, SeparatorNewline)
      else CombineLocal(primary, secondary, SeparatorSlash)
    else if file == SoulFile then
      if SoulSlash(id, primary) then CombineLocal(primary, secondary, SeparatorSlash)
      else if SoulNewline(id) then CombineLocal(primary, secondary, SeparatorNewline)
      else primary
    else
      primary + SeparatorSlash + Fallback(secondary, english)
  }

  datatype Revision = Current | Legacy

  function Merge(rev: Revision, file: XmlFile, id: EntryId, primary: TextValue, secondary: TextValue, english: TextValue): TextValue {
    match rev
    case Current => MergeCurrent(file, id, primary, secondary, english)
    case Legacy => MergeLegacy(file, id, primary, secondary, english)
  }

  /** Whether a revision's combine joins this secondary text at all. */
  predicate Joins(rev: Revision, secondary: TextValue) {
    match rev
    case Current => Present(secondary)
    case Legacy => secondary != Missing
  }

  // ---------------------------------------------------------------------------------------
  // Properties
  // ---------------------------------------------------------------------------------------

  /** A joined text is never the primary text alone, and the two separators never give the same text. */
  lemma JoinsDistinct(primary: TextValue, s: TextValue, t: TextValue)
    ensures primary + SeparatorSlash + s != primary
    ensures primary + SeparatorNewline + s != primary
    ensures primary + SeparatorSlash + s != primary + SeparatorNewline + t
  {
    assert |primary + SeparatorSlash + s| > |primary|;
    assert |primary + SeparatorNewline + s| > |primary|;
    assert (primary + SeparatorSlash + s)[|primary|] == '/';
    assert (primary + SeparatorNewline + t)[|primary|] == '\\';
  }

  /** Every merged text is the primary text alone, or the primary text, one separator and the
      secondary text, or (only when the secondary entry is missing) the English text. */
  lemma MergeShape(rev: Revision, file: XmlFile, id: EntryId, primary: TextValue, secondary: TextValue, english: TextValue)
    ensures var r := Merge(rev, file, id, primary, secondary, english);
            || r == primary
            || r == primary + SeparatorSlash + secondary
            || r == primary + SeparatorNewline + secondary
            || (secondary == Missing && (r == primary + SeparatorSlash + english || r == primary + SeparatorNewline + english))
  {
  }

  /** The combine that `rev` applies, with its result spelled out. */
  lemma CombineFor(rev: Revision, primary: TextValue, secondary: TextValue, sep: string)
    ensures rev == Current ==> CombineShared(primary, secondary, sep) == if Joins(rev, secondary) then primary + sep + secondary else primary
    ensures rev == Legacy ==> CombineLocal(primary, secondary, sep) == if Joins(rev, secondary) then primary + sep + secondary else primary
  {
  }

  /** Dialog lines always get the line break and a second text, in both revisions: the secondary
      text, or English when the secondary entry is missing, even if English is missing too. */
  lemma DialogAlwaysJoins(rev: Revision, id: EntryId, primary: TextValue, secondary: TextValue, english: TextValue)
    ensures var r := Merge(rev, DialogFile, id, primary, secondary, english);
            && r != primary
            && SecondaryOf(r, primary, SeparatorNewline) == Some(Fallback(secondary, english))
            && (secondary == Missing && english == Missing ==> r == primary + "\\nMISSING")
  {
    var r := Merge(rev, DialogFile, id, primary, secondary, english);
    assert r == primary + SeparatorNewline + Fallback(secondary, english);
    JoinsDistinct(primary, Fallback(secondary, english), "");
  }

  /** Files without a rule of their own (quests, tutorials, any other) join with the slash and
      fall back to English in the same way. */
  lemma DefaultAlwaysJoins(rev: Revision, file: XmlFile, id: EntryId, primary: TextValue, secondary: TextValue, english: TextValue)
    requires !RuledFile(file)
    ensures var r := Merge(rev, file, id, primary, secondary, english);
            && r != primary
            && SecondaryOf(r, primary, SeparatorSlash) == Some(Fallback(secondary, english))
  {
    JoinsDistinct(primary, Fallback(secondary, english), "");
  }

  /** English matters only for dialog and default files. */
  lemma EnglishOnlyAsFallback(rev: Revision, file: XmlFile, id: EntryId, primary: TextValue, secondary: TextValue, e1: TextValue, e2: TextValue)
    requires file == MenusFile || file == ItemsFile || file == SoulFile || secondary != Missing
    ensures Merge(rev, file, id, primary, secondary, e1) == Merge(rev, file, id, primary, secondary, e2)
  {
  }

  /** Current menus rule: help overlays keep the primary text, loading screens and codex entries
      are joined with the line break whatever their length, short texts and the listed ids keep
      the primary text, long ones get the line break and the rest the slash. */
  lemma MenusCurrentRule(id: EntryId, primary: TextValue, secondary: TextValue, english: TextValue)
    ensures var r := MergeCurrent(MenusFile, id, primary, secondary, english);
            && (r == primary <==>
                  (|| HelpOverlay(id) || !Present(secondary)
                   || (!LoadingOrCodex(id) && (|primary| <= 4 || id in MenuTextTooLong))))
            && (r == primary + SeparatorNewline + secondary <==>
                  (!HelpOverlay(id) && Present(secondary) && (LoadingOrCodex(id) || (|primary| >= 20 && id !in MenuTextTooLong))))
            && (r == primary + SeparatorSlash + secondary <==>
                  (!HelpOverlay(id) && Present(secondary) && !LoadingOrCodex(id)
                   && 4 < |primary| < 20 && id !in MenuTextTooLong))
  {
    JoinsDistinct(primary, secondary, secondary);
  }

  /** Older menus rule: no exception list and no long-text branch; everything joined that is not
      a help overlay, a short text or a missing secondary. */
  lemma MenusLegacyRule(id: EntryId, primary: TextValue, secondary: TextValue, english: TextValue)
    ensures var r := MergeLegacy(MenusFile, id, primary, secondary, english);
            && (r == primary <==>
                  (HelpOverlay(id) || secondary == Missing || (!LoadingOrCodex(id) && |primary| <= 4)))
            && (r == primary + SeparatorNewline + secondary <==>
                  (!HelpOverlay(id) && secondary != Missing && LoadingOrCodex(id)))
            && (r == primary + SeparatorSlash + secondary <==>
                  (!HelpOverlay(id) && secondary != Missing && !LoadingOrCodex(id) && |primary| > 4))
  {
    JoinsDistinct(primary, secondary, secondary);
  }

  /** Items rule, both revisions: the exceptions keep the primary text regardless of length;
      otherwise texts of at least seven characters get the line break and shorter ones the slash. */
  lemma ItemsRule(rev: Revision, id: EntryId, primary: TextValue, secondary: TextValue, english: TextValue)
    ensures var r := Merge(rev, ItemsFile, id, primary, secondary, english);
            && (r == primary <==> ItemsPrimaryOnly(id, primary) || !Joins(rev, secondary))
            && (r == primary + SeparatorNewline + secondary <==>
                  !ItemsPrimaryOnly(id, primary) && Joins(rev, secondary) && |primary| >= 7)
            && (r == primary + SeparatorSlash + secondary <==>
                  !ItemsPrimaryOnly(id, primary) && Joins(rev, secondary) && |primary| < 7)
  {
    JoinsDistinct(primary, secondary, secondary);
  }

  /** Soul rule, both revisions: the slash condition is tested first, then the description ids,
      and everything else keeps the primary text. */
  lemma SoulRule(rev: Revision, id: EntryId, primary: TextValue, secondary: TextValue, english: TextValue)
    ensures var r := Merge(rev, SoulFile, id, primary, secondary, english);
            && (r == primary <==> !Joins(rev, secondary) || (!SoulSlash(id, primary) && !SoulNewline(id)))
            && (r == primary + SeparatorSlash + secondary <==> SoulSlash(id, primary) && Joins(rev, secondary))
            && (r == primary + SeparatorNewline + secondary <==>
                  !SoulSlash(id, primary) && SoulNewline(id) && Joins(rev, secondary))
  {
    JoinsDistinct(primary, secondary, secondary);
  }

  /** Outside the menus file the revisions agree unless the secondary text is empty. */
  lemma RevisionsAgreeOutsideMenus(file: XmlFile, id: EntryId, primary: TextValue, secondary: TextValue, english: TextValue)
    requires file != MenusFile && secondary != ""
    ensures MergeCurrent(file, id, primary, secondary, english) == MergeLegacy(file, id, primary, secondary, english)
  {
  }

  /** In the menus file they also agree unless a listed id or a text of twenty characters or more
      reaches the length tests. */
  lemma RevisionsAgreeInMenus(id: EntryId, primary: TextValue, secondary: TextValue, english: TextValue)
    requires secondary != ""
    requires !HelpOverlay(id) && !LoadingOrCodex(id) ==> id !in MenuTextTooLong && |primary| < 20
    ensures MergeCurrent(MenusFile, id, primary, secondary, english) == MergeLegacy(MenusFile, id, primary, secondary, english)
  {
  }

  /** The current revisions never join an empty secondary text in the ruled files; the first
      revision does, leaving a dangling separator. */
  lemma EmptySecondaryDiffers(file: XmlFile, id: EntryId, primary: TextValue, english: TextValue)
    requires file == MenusFile || file == ItemsFile || file == SoulFile
    ensures MergeCurrent(file, id, primary, "", english) == primary
    ensures MergeLegacy(ItemsFile, "sword", "Schwert", "", "Sword") == "Schwert\\n"
  {
    AbsentCharNotContained("sword", "step", 'e');
    AbsentCharNotContained("sword", "step_1", 'e');
  }

  /** An id without the letter `o` is neither a help overlay nor a loading screen or codex entry. */
  lemma NoLetterOMenuId(id: EntryId)
    requires 'o' !in id
    ensures !HelpOverlay(id) && !LoadingOrCodex(id)
  {
    AbsentCharNotContained(id, "ui_helpoverlay", 'o');
    AbsentCharNotContained(id, "ui_loading", 'o');
    AbsentCharNotContained(id, "codex_cont", 'o');
  }

  /** The listed menu ids all reach the length tests. */
  lemma ListedIdsReachLengthTests()
    ensures forall id | id in MenuTextTooLong :: !HelpOverlay(id) && !LoadingOrCodex(id)
  {
    forall id | id in MenuTextTooLong
      ensures !HelpOverlay(id) && !LoadingOrCodex(id)
    {
      NoLetterOMenuId(id);
    }
  }

  /** A listed menu id keeps the primary text only in the current revisions. */
  lemma ListedMenuIdDiffers(id: EntryId, primary: TextValue, secondary: TextValue, english: TextValue)
    requires id in MenuTextTooLong && |primary| > 4 && Present(secondary)
    ensures MergeCurrent(MenusFile, id, primary, secondary, english) == primary
    ensures MergeLegacy(MenusFile, id, primary, secondary, english) == primary + SeparatorSlash + secondary
  {
    ListedIdsReachLengthTests();
  }

  /** A menu text of twenty characters or more gets the line break only in the current revisions. */
  lemma LongMenuTextDiffers(id: EntryId, primary: TextValue, secondary: TextValue, english: TextValue)
    requires !HelpOverlay(id) && !LoadingOrCodex(id) && id !in MenuTextTooLong
    requires |primary| >= 20 && Present(secondary)
    ensures MergeCurrent(MenusFile, id, primary, secondary, english) == primary + SeparatorNewline + secondary
    ensures MergeLegacy(MenusFile, id, primary, secondary, english) == primary + SeparatorSlash + secondary
  {
  }
}
