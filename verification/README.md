# MateUnity stat-ID editor and character dialog choices, in Dafny

This project models two pieces of discrete logic from the MateUnity Unity
toolkit and proves properties about them.

**The stat-ID table of the `StatsTemplateConfig` editor window.** The state
is an ordered list of `(name, id)` records. The model covers:

- lookup by id (`GetStatsIndex`) and lookup by id that skips one row
  (`GetStatIndex`);
- the choice of the least unused positive id (`GetAvailableID`);
- one pass of the window's stat list (`OnGUI`):
  - every row's duplicate check;
  - the name rule and the id edit;
  - DEL, which removes the last row whose button was clicked;
  - Add, which appends `"Unknown"` followed by a counter, with a fresh id;
  - the `canSave` gate on the Save button;
- the text of the generated `StatID.cs` script.

The script text is proved to read back into the table it was built from
when no name contains a space. `ScriptLines` and `DeclLine` fix the exact
line format and `IntToDecimal` the decimal rendering of ids; the round trip
shows that the text loses nothing.

**The choice slots of `UIModalCharacterDialog`.** The model covers:

- `InitData`, which creates one inactive slot per child of the choice container;
- `Apply`:
  - it sets the text, name and portrait;
  - it resets the choices;
  - it activates the first `min(choices, slots)` slots and links them into a circular up/down ring;
  - it places focus when the dialog is showing;
- `ResetChoices` and `OnClose`, `ApplyActive` and `OnActive`;
- the two click handlers.

Two facts are proved about the ring. The down links form a single cycle through exactly the active slots. The up links run that cycle backwards.

Modules, one per file:

| module | file | what |
|---|---|---|
| `Options` | options.dfy | `Option` |
| `Decimal` | decimal.dfy | C# decimal text of an `int`/`uint` and its parser |
| `StatsTable` | stats_table.dfy | entries, lookups, fresh id, removal |
| `StatIdScript` | stat_id_script.dfy | the generated script text and a reader for it |
| `StatsEditor` | stats_editor.dfy | one pass of the stat list part of `OnGUI` and Save |
| `CharacterDialog` | character_dialog.dfy | the dialog's slots, ring and clicks |

The line ending that `StringBuilder.AppendLine` writes (`Environment.NewLine`)
is a parameter. Every property holds for any line ending, `"\n"` included.

GameLocalize.GetText is a function parameter `localize` that the model does not interpret.

**The duplicate check.** Row `i` is checked against the list as it stands
during the loop: rows before `i` already carry this pass's new ids, while
rows after `i` still carry the old ones. `EditRows` states the exact
outcome. `canSave` holds iff two conditions hold:

- the ids were unique before the pass;
- no row's new id equals a later row's old id.

In a pass that types into no ID field (every pass except the one in which
an id is edited), this is exactly "no two rows share an id"
(`CanSaveWhenIdsUntouched`). In the pass in which an id is typed, the list
can reach a duplicate while Save stays enabled for that one pass
(`EditedIdCheckedNextPass`). This is how the code behaves. It is not the
plain "canSave iff no duplicates" that a description of the editor might
suggest, and the model follows the code.

## Model

| member | source | states |
|---|---|---|
| `StatsTable.FirstIndexFrom` | Editor/Game/StatsTemplateConfig.cs:43-48 | the scan returns the first index from `start` on, other than the excluded one, whose id matches, and -1 exactly when there is none |
| `StatsTable.GetStatsIndex` | Editor/Game/StatsTemplateConfig.cs:41-49 | the index of the first entry with the id, or -1 exactly when no entry has it |
| `StatsTable.GetStatIndex` | Editor/Game/StatsTemplateConfig.cs:100-107 | the first index other than `excludeIndex` with the id; -1 exactly when no other entry shares it |
| `StatsTable.DuplicateScanDecidesUniqueness` | Editor/Game/StatsTemplateConfig.cs:213-219 | every row's GetStatIndex answering -1 is equivalent to all ids being pairwise distinct |
| `StatsTable.FirstFreeFrom` | Editor/Game/StatsTemplateConfig.cs:83-94 | the candidate loop returns the first candidate below int.MaxValue that no entry uses, or 1 when every candidate is taken |
| `StatsTable.GetAvailableID` | Editor/Game/StatsTemplateConfig.cs:81-98 | 1 for a null list; otherwise at most count+1, and the least positive id no entry uses |
| `StatsTable.FullRangeNeedsEntries` | Editor/Game/StatsTemplateConfig.cs:83-94 | pigeonhole: a list that uses every id 1..n has at least n entries, so the candidate loop stops by count+1 |
| `StatsTable.RemoveAt` | Editor/Game/StatsTemplateConfig.cs:245-246 | removal drops exactly one position: one shorter, earlier entries in place, later ones shifted down by one, same multiset less the removed entry |
| `StatsTable.RemoveAtKeepsUniqueIds` | Editor/Game/StatsTemplateConfig.cs:245-246 | removing an entry keeps unique ids unique |
| `StatsTable.RemoveAtKeepsValidNames` | Editor/Game/StatsTemplateConfig.cs:245-246 | removing an entry keeps every name valid |
| `StatsTable.AppendFreshKeepsUniqueIds` | Editor/Game/StatsTemplateConfig.cs:250-252 | appending an entry with an unused id keeps ids unique |
| `Decimal.NatDigits` | Editor/Game/StatsTemplateConfig.cs:70 | a natural's decimal text is a non-empty digit string with no leading zero |
| `Decimal.DigitsValueOfNatDigits` | Editor/Game/StatsTemplateConfig.cs:70 | the digits of n denote n |
| `Decimal.IntToDecimal` | Editor/Game/StatsTemplateConfig.cs:70 | an id's text is non-empty, has no ';' or space, and is all digits exactly when the id is non-negative; it starts with '0' only when it is "0"; a negative id is '-' followed by digits with no leading zero |
| `Decimal.DecimalRoundTrip` | Editor/Game/StatsTemplateConfig.cs:70 | reading an id's decimal text gives back the id |
| `Decimal.DecimalInjective` | Editor/Game/StatsTemplateConfig.cs:70 | distinct ids have distinct texts |
| `StatIdScript.DeclLine` | Editor/Game/StatsTemplateConfig.cs:70 | one declaration: the fixed prefix, the name, " = ", the id's decimal text, and ';', each at its position |
| `StatIdScript.DeclLines` | Editor/Game/StatsTemplateConfig.cs:69-72 | one declaration line per entry, in list order |
| `StatIdScript.ScriptLines` | Editor/Game/StatsTemplateConfig.cs:63-74 | the file's lines in order: the AUTOGENERATED comment, the struct header, one declaration per entry, the closing brace |
| `StatIdScript.GenerateScript` | Editor/Game/StatsTemplateConfig.cs:63-74 | the text the builder produces is exactly those lines, each followed by the line ending |
| `StatIdScript.Unframe` | Editor/Game/StatsTemplateConfig.cs:63-74 | stripping the fixed head and tail yields a text that, framed again, is the input |
| `StatIdScript.TakeUntilStopsAt` | Editor/Game/StatsTemplateConfig.cs:70 | a name without spaces ends where its declaration's " = " begins |
| `StatIdScript.ParseDeclLine` | Editor/Game/StatsTemplateConfig.cs:70-71 | one declaration line and its line ending read back as the entry, for a name without spaces |
| `StatIdScript.ParseDeclsOfDecls` | Editor/Game/StatsTemplateConfig.cs:69-72 | the declaration block reads back as the whole list, in order, when no name contains a space |
| `StatIdScript.GenerateScriptRoundTrip` | Editor/Game/StatsTemplateConfig.cs:63-74 | the generated text reads back as the list it was generated from, for any line ending, when no name contains a space |
| `StatIdScript.ValidNamesHaveNoSpace` | Editor/Game/StatsTemplateConfig.cs:237-238 | names that pass the name rule contain no space |
| `StatsEditor.AcceptsNameAsWrittenExactly` | Editor/Game/StatsTemplateConfig.cs:211-237 | the regex test as written accepts exactly the valid names, each of them followed by a single '\n', and a lone '\n' |
| `StatsEditor.AcceptedNamesHaveNoSpace` | Editor/Game/StatsTemplateConfig.cs:211-237 | even the rule as written never accepts a name with a space, so a name typed under either rule does not stop the script from reading back (names loaded from JSON are not checked) |
| `StatsEditor.NameWithTrailingNewlineAccepted` | Editor/Game/StatsTemplateConfig.cs:211-237 | "A\n" passes the rule as written but is not a valid name |
| `StatsEditor.EditRow` | Editor/Game/StatsTemplateConfig.cs:237-240 | the row edit under the corrected name rule of the Findings row (not line 237's regex test as written): the new id is always taken; the new text becomes the name exactly when it is a valid name, otherwise the old name stays; a valid old name stays valid |
| `StatsEditor.AcceptsNameAsWritten` | Editor/Game/StatsTemplateConfig.cs:237 | the name test as written, with .NET's `$` also matching before a final '\n'; it accepts every valid name (the as-written half of the Findings row) |
| `StatsEditor.RowLoop` | Editor/Game/StatsTemplateConfig.cs:213-243 | from row `start` on: every row is rewritten, `canSave` drops exactly when some row's check sees a duplicate, and `removeInd` becomes the last clicked row |
| `StatsEditor.EditRows` | Editor/Game/StatsTemplateConfig.cs:202-243 | the whole row loop: every row edited in place; canSave holds iff the ids were unique and no row's new id equals a later row's old id; `removeInd` is the last row whose DEL was clicked, or -1 iff none was |
| `StatsEditor.CanSaveWhenIdsUntouched` | Editor/Game/StatsTemplateConfig.cs:213-219 | in a pass that changes no id, canSave holds exactly when all ids are distinct |
| `StatsEditor.EditedIdCheckedNextPass` | Editor/Game/StatsTemplateConfig.cs:213-240 | a concrete pass in which canSave stays true while the edited list has a duplicate id |
| `StatsEditor.RemoveMarked` | Editor/Game/StatsTemplateConfig.cs:245-246 | nothing removed for -1; otherwise exactly the marked row goes, the rest keep their order, and uniqueness and valid names survive |
| `StatsEditor.UnknownName` | Editor/Game/StatsTemplateConfig.cs:251 | "Unknown" followed by the counter is always a valid name |
| `StatsEditor.UnknownNameInjective` | Editor/Game/StatsTemplateConfig.cs:251 | distinct counter values give distinct names |
| `StatsEditor.AddUnknown` | Editor/Game/StatsTemplateConfig.cs:250-252 | Add appends exactly one entry at the end with the counter's name and the least free id; the counter steps on with uint wrap-around; unique ids and valid names are kept |
| `StatsEditor.ShownTable` | Editor/Game/StatsTemplateConfig.cs:204-206 | with a mapper asset, the list is the freshly loaded one when the asset changed or nothing was loaded, and the current one otherwise; without a mapper it is untouched |
| `StatsEditor.KeptRows` | Editor/Game/StatsTemplateConfig.cs:209-246 | after the row loop and removal, each surviving row keeps its relative place and carries its edit; at most one row, the marked one, is gone |
| `StatsEditor.PassTable` | Editor/Game/StatsTemplateConfig.cs:209-252 | the pass's list is KeptRows plus, with Add, exactly one entry at the end named from the counter, whose id is the least id KeptRows leaves free (for lists shorter than int.MaxValue - 1); with Add the counter steps on by one with uint wrap-around, without Add it is unchanged; uniqueness and valid names are kept |
| `StatsEditor.OnGuiPass` | Editor/Game/StatsTemplateConfig.cs:202-277 | without a mapper nothing changes and Save is disabled; with one, the list and counter after the pass are those of PassTable over the list shown, and Save is enabled exactly when the row loop's canSave holds; Save enabled implies the list shown had unique ids, and equals it in a pass without id edits; a script is produced iff Save is enabled and clicked, and it is the generated text of the list after the pass |
| `StatsEditor.OnGuiPassKeepsUniqueIds` | Editor/Game/StatsTemplateConfig.cs:245-252 | when the edited rows have unique ids, removal and Add keep them unique |
| `StatsEditor.SaveEnabledMeansUniqueTable` | Editor/Game/StatsTemplateConfig.cs:202-266 | in a pass without id edits, Save enabled means the list was unique before the pass and is unique after it |
| `StatsEditor.OnGuiPassKeepsValidNames` | Editor/Game/StatsTemplateConfig.cs:237-252 | under the corrected name rule of the Findings row, a list of valid names stays one through a pass (the rule as written lets a name with a final '\n' in) |
| `StatsEditor.SavedScriptReadsBack` | Editor/Game/StatsTemplateConfig.cs:266-273 | when every name of the list shown is valid, the script Save writes reads back as the list saved |
| `CharacterDialog.NewDialog` | Scripts/UI/UIModalCharacterDialog.cs:25-27 | a fresh component is uninitialised, has no slots and no choices |
| `CharacterDialog.InitData` | Scripts/UI/UIModalCharacterDialog.cs:160-229 | the first call creates one inactive slot per child of a non-empty container, keeping the child's object, label and prefab up/down links; any later call returns the dialog unchanged |
| `CharacterDialog.ResetChoices` | Scripts/UI/UIModalCharacterDialog.cs:242-252 | every slot inactive and unlinked and the count 0; objects, labels and everything else unchanged |
| `CharacterDialog.OnClose` | Scripts/UI/UIModalCharacterDialog.cs:138-141 | closing leaves the same slots with their objects and labels, none active or linked, no choice shown, and every other field unchanged |
| `CharacterDialog.ChoiceCount` | Scripts/UI/UIModalCharacterDialog.cs:71-73 | the count is min(choices, slots) when both are non-zero, and 0 otherwise |
| `CharacterDialog.Localized` | Scripts/UI/UIModalCharacterDialog.cs:53 | a text as shown: passed through the localisation function when `isLocalized`, otherwise as given (also lines 56 and 78) |
| `CharacterDialog.ShowChoice` | Scripts/UI/UIModalCharacterDialog.cs:76-94 | one shown choice: active, its label (if it has one) set to the text, up to (i-1) mod n and down to (i+1) mod n |
| `CharacterDialog.ShowChoices` | Scripts/UI/UIModalCharacterDialog.cs:75-95 | slots 0..n-1 become an active ring with their labels set; the others are untouched |
| `CharacterDialog.ApplyTexts` | Scripts/UI/UIModalCharacterDialog.cs:53-66 | the body text (localised or not), the name when there is a name label, and the portrait shown with the sprite or hidden |
| `CharacterDialog.ApplyChoices` | Scripts/UI/UIModalCharacterDialog.cs:68-97 | after the reset, the first ChoiceCount slots form a ring and carry their choice text where they have a label; later slots keep their labels; nothing else changes |
| `CharacterDialog.ApplyDialog` | Scripts/UI/UIModalCharacterDialog.cs:50-97 | the dialog after Apply: initialised, count min(choices, slots), ring over exactly the active slots, texts and portrait as set, and a valid state |
| `CharacterDialog.Apply` | Scripts/UI/UIModalCharacterDialog.cs:50-105 | focus is placed iff the dialog is showing, and it is then exactly ApplyActive's choice for the dialog after Apply: slot 0, which is active, exactly when choices are shown, otherwise the dialog |
| `CharacterDialog.ApplyActive` | Scripts/UI/UIModalCharacterDialog.cs:143-150 | slot 0 is focused exactly when there are slots and choices, and it is active; otherwise the dialog is focused |
| `CharacterDialog.OnActive` | Scripts/UI/UIModalCharacterDialog.cs:127-132 | focus is placed only when the dialog becomes active, and then on slot 0 exactly when there are slots and choices, otherwise on the dialog |
| `CharacterDialog.OnClick` | Scripts/UI/UIModalCharacterDialog.cs:153-158 | the callback fires, with -1, exactly when no choice is shown and a callback is registered |
| `CharacterDialog.FindSlotFrom` | Scripts/UI/UIModalCharacterDialog.cs:232-239 | the first slot from `i` on whose object was clicked, or none exactly when no slot from `i` on matches |
| `CharacterDialog.OnChoiceClick` | Scripts/UI/UIModalCharacterDialog.cs:231-240 | at most one call, with the index of the first matching slot; no match, no call |
| `CharacterDialog.FollowDownInRing` | Scripts/UI/UIModalCharacterDialog.cs:82-94 | k down presses from slot i reach slot (i+k) mod n |
| `CharacterDialog.DownLinksFormOneCycle` | Scripts/UI/UIModalCharacterDialog.cs:82-94 | from any shown choice, n presses come back, no fewer do, and every shown choice is reached on the way |
| `CharacterDialog.UpLinksReverseDownLinks` | Scripts/UI/UIModalCharacterDialog.cs:82-94 | up undoes down and down undoes up; a single choice links to itself both ways |
| `CharacterDialog.ChoiceClickReportsItsSlot` | Scripts/UI/UIModalCharacterDialog.cs:231-240 | with distinct slot objects, clicking slot i's object reports i |
| `CharacterDialog.ClickReportsOnlyWithoutChoices` | Scripts/UI/UIModalCharacterDialog.cs:138-158 | once Apply shows choices a plain click fires nothing; after OnClose it fires -1 again |

## Left out

- JSON reading and writing (`StatTemplateList`), `File.WriteAllText`, the
  `StreamWriter`, `AssetDatabase`, `ProjectConfig`, `OnEnable`/`OnDisable`:
  these are I/O. A loaded list is an input of the pass (`PassInput.loaded`,
  an empty list when the JSON does not parse). The generated script is a
  returned string.
- GUI layout, colours, labels and the path and folder fields of `OnGUI`,
  including the Create button and selection-folder path building. What they
  decide is an input of the pass: whether a mapper asset is set, and whether it changed.
- The static `stats` property, which loads lazily through `ProjectConfig`, and
  `Open`. `GetStatsIndex` takes the list directly. With a null list the source
  throws; the model has no such case.
- The text field's 255-character limit (`maxLength`): it bounds what the user
  can type, and the model's name text is any string.
- Decimal.IntToDecimal: a negative id is written with '-'. `AppendFormat`
  without a format provider uses the current culture's negative sign, and a
  culture whose sign differs is not modelled.
- Ids are unbounded integers. Every id the source handles comes from an `int`
  field or from GetAvailableID, which stays below int.MaxValue, so no
  arithmetic on ids can overflow.
- StatsTable.GetAvailableID: the least-free-id property is stated for lists
  shorter than int.MaxValue - 1 entries. For longer lists the candidate loop
  can run out at int.MaxValue and return 1, and only the bounds are stated.
- StatsEditor.AddUnknown: uniqueness after Add is stated for lists shorter
  than int.MaxValue - 1 entries, for the same reason.
- StatsEditor.OnGuiPass: the pass edits names with the corrected name rule of
  the Findings row (EditRow), not the regex test as written. With the rule as
  written, a name text such as "A\n" would be stored; the pass keeps the old
  name instead. The same holds for EditRows, KeptRows, PassTable and the
  lemmas about the pass.
- StatsEditor.SavedScriptReadsBack: the read-back is stated only when every
  name of the list shown is valid. The row loop checks only typed text, and an
  invalid old name stays (line 240), so a name loaded from JSON such as
  "Max HP" stays in the table; its declaration splits at the space and the
  generated text does not read back.
- StatsEditor.OnGuiPass: "Save enabled iff the ids are unique" is stated only
  for passes that type into no ID field, because that is when the code has
  it. `EditRows` states the exact condition for every pass.
- `char.IsDigit` in the name rule is modelled as an ASCII digit test. Past the
  regex, the first character is an ASCII letter or digit, or the '\n' of a
  text the regex lets through with a final newline. Both digit tests agree on
  all of these.
- `UIModalManager` stack handling in `Open`, NGUI rendering, widget pivots,
  `NGUILayoutBase.RefreshNow`, `OnOpen`, `Awake` (which only calls InitData),
  and `OnDestroy` delegate clearing: these are engine plumbing.
- The dialog's game objects are opaque numbers. A slot's listener object and
  its keys object are taken to be the same child object, which is the one
  InitData deactivates.
- `GameLocalize.GetText` is an uninterpreted function parameter.
- `aName` is a string. The source's default `null` is not modelled.
- A null `mChoiceEvents`, meaning no container or an empty one, is the empty
  slot sequence. Every use is null-guarded, except OnChoiceClick, which is
  only ever registered on existing slots.
- Event plumbing: a callback is either registered or not, and firing it is
  the returned value.
- Transform/TransUpLookAt.cs and Serializer/SceneSerializerTransformInspector.cs
  are not part of this model: float vector maths and inspector glue.

## Findings

| source | as written | input that shows it | evidently intended | confidence | as-written member | corrected member |
|---|---|---|---|---|---|---|
| Editor/Game/StatsTemplateConfig.cs:211 | `^[a-zA-Z0-9]*$` without RegexOptions: in .NET `$` also matches just before a final '\n', so a name text ending in one newline passes the rule | name text "A\n" (or a lone "\n") in a row: it passes the rule, is stored, and GenerateScript then emits a declaration split across two lines | accept only non-empty ASCII letter/digit identifiers not starting with a digit (`\z` or an explicit check) | low: not executed; Unity's single-line TextField may never deliver a newline | `StatsEditor.NameWithTrailingNewlineAccepted` | `StatsEditor.EditRow` |
