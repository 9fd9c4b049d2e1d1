/**
 The choice handling of `UIModalCharacterDialog`: a fixed row of choice
 slots (one per child of the choice container), of which `Apply` activates
 the first few and links them into a circular up/down navigation ring.
 NGUI widgets become plain fields: a slot's game object is an opaque
 number, its label text an optional string (absent when the child has no
 label), its `selectOnUp`/`selectOnDown` the index of the slot they point
 at. Localisation is a function handed in by the caller.
 */
module CharacterDialog {
  import opened Options

  /** A child of the choice container: the game object carrying its
      UIEventListener and UIButtonKeys, the text of its first UILabel, and
      the up/down links its UIButtonKeys were given in the prefab: a number
      below the child count is that slot, and a number at or above it stands
      for a widget outside the container. */
  datatype ChoiceChild = ChoiceChild(obj: nat, labelText: Option<string>, up: Option<nat>, down: Option<nat>)

  /** One entry of the choice table: whether its game object is active, and
      the slots its up and down keys move to. */
  datatype Slot = Slot(obj: nat, active: bool, labelText: Option<string>, up: Option<nat>, down: Option<nat>)

  /** The optional portrait sprite: its sprite name and whether it is shown. */
  datatype Portrait = Portrait(sprite: string, active: bool)

  /** The dialog: `container` is its configuration (`None` when no choice
      container is set); `slots` is the choice table, empty while it has not
      been created; `name` is the name label's text (`None`: no name label). */
  datatype Dialog = Dialog(
    container: Option<seq<ChoiceChild>>,
    isInit: bool,
    slots: seq<Slot>,
    numChoices: nat,
    text: string,
    name: Option<string>,
    portrait: Option<Portrait>)

  /** Where keyboard focus goes (UICamera.selectedObject). */
  datatype Selection = SelectChoice(index: nat) | SelectDialog

  /** The choices form one up/down ring over slots 0 .. n-1, all active, and
      every later slot is inactive and unlinked. */
  predicate IsChoiceRing(slots: seq<Slot>, n: nat) {
    && n <= |slots|
    && (forall i :: 0 <= i < n ==>
          && slots[i].active
          && slots[i].up == Some(if i == 0 then n - 1 else i - 1)
          && slots[i].down == Some(if i == n - 1 then 0 else i + 1))
    && (forall i :: n <= i < |slots| ==> !slots[i].active && slots[i].up.None? && slots[i].down.None?)
  }

  /** What every reachable dialog satisfies: shown choices form a ring; with
      none shown no slot is active, while the links the prefab gave may
      still be in place until the first reset. */
  predicate Valid(d: Dialog) {
    && (d.numChoices > 0 ==> IsChoiceRing(d.slots, d.numChoices))
    && (d.numChoices == 0 ==> forall i :: 0 <= i < |d.slots| ==> !d.slots[i].active)
    && (!d.isInit ==> |d.slots| == 0 && d.numChoices == 0)
  }

  /** The component as loaded, before Awake. */
  function NewDialog(container: Option<seq<ChoiceChild>>, name: Option<string>, portrait: Option<Portrait>): (d: Dialog)
    ensures Valid(d) && !d.isInit
  {
    Dialog(container, false, [], 0, "", name, portrait)
  }

  /** InitData: on the first call, one inactive slot per child of a
      non-empty choice container, keeping the links the prefab gave it;
      every later call leaves the dialog alone. */
  function InitData(d: Dialog): (r: Dialog)
    ensures r.isInit
    ensures d.isInit ==> r == d
    ensures r.container == d.container && r.numChoices == d.numChoices
    ensures r.text == d.text && r.name == d.name && r.portrait == d.portrait
    ensures !d.isInit && d.container.Some? && |d.container.value| > 0 ==>
              && |r.slots| == |d.container.value|
              && forall i :: 0 <= i < |r.slots| ==>
                   r.slots[i] == Slot(d.container.value[i].obj, false, d.container.value[i].labelText,
                                      d.container.value[i].up, d.container.value[i].down)
    ensures !d.isInit && (d.container.None? || |d.container.value| == 0) ==> r.slots == d.slots
    ensures Valid(d) ==> Valid(r)
  {
    if d.isInit then d
    else
      var slots := match d.container
        case Some(children) =>
          if |children| > 0 then
            seq(|children|, i requires 0 <= i < |children| =>
              Slot(children[i].obj, false, children[i].labelText, children[i].up, children[i].down))
          else d.slots
        case None => d.slots;
      d.(isInit := true, slots := slots)
  }

  /** ResetChoices (also all of OnClose): every slot inactive and unlinked,
      no choices; objects and labels stay. */
  function ResetChoices(d: Dialog): (r: Dialog)
    ensures |r.slots| == |d.slots| && r.numChoices == 0
    ensures forall i :: 0 <= i < |r.slots| ==>
              && !r.slots[i].active && r.slots[i].up.None? && r.slots[i].down.None?
              && r.slots[i].obj == d.slots[i].obj && r.slots[i].labelText == d.slots[i].labelText
    ensures r == d.(slots := r.slots, numChoices := 0)
    ensures IsChoiceRing(r.slots, 0)
    ensures Valid(d) ==> Valid(r)
  {
    var slots := seq(|d.slots|, i requires 0 <= i < |d.slots| =>
      d.slots[i].(active := false, up := None, down := None));
    d.(slots := slots, numChoices := 0)
  }

  function OnClose(d: Dialog): (r: Dialog)
    ensures r.numChoices == 0 && IsChoiceRing(r.slots, 0)
    ensures forall i :: 0 <= i < |r.slots| ==> !r.slots[i].active
    ensures |r.slots| == |d.slots|
    ensures forall i :: 0 <= i < |r.slots| ==>
              r.slots[i].obj == d.slots[i].obj && r.slots[i].labelText == d.slots[i].labelText
    ensures r == d.(slots := r.slots, numChoices := 0)
  {
    ResetChoices(d)
  }

  /** A text as shown: passed through the localisation table when the
      caller asks for it, otherwise as given. */
  function Localized(isLocalized: bool, localize: string -> string, s: string): string {
    if isLocalized then localize(s) else s
  }

  /** How many choices Apply shows: min(choices, slots) when there are
      choices, none otherwise. */
  function ChoiceCount(slotCount: nat, choices: Option<seq<string>>): (n: nat)
    ensures n <= slotCount
    ensures choices.Some? ==> n <= |choices.value|
    ensures n == 0 <==> slotCount == 0 || choices.None? || |choices.value| == 0
    ensures n > 0 ==> n == slotCount || n == |choices.value|
  {
    match choices
    case None => 0
    case Some(cs) =>
      if |cs| > 0 && slotCount > 0 then (if |cs| < slotCount then |cs| else slotCount) else 0
  }

  /** Slot `i` of `n` shown choices, activated, labelled and linked. */
  function ShowChoice(s: Slot, i: nat, n: nat, text: string): (r: Slot)
    requires i < n
    ensures r.active && r.obj == s.obj
    ensures r.labelText == if s.labelText.Some? then Some(text) else None
    ensures r.up == Some((i + n - 1) % n) && r.down == Some((i + 1) % n)
  {
    ModOfNear(i + n - 1, n);
    ModOfNear(i + 1, n);
    s.(active := true,
       labelText := if s.labelText.Some? then Some(text) else None,
       up := Some(if i == 0 then n - 1 else i - 1),
       down := Some(if i < n - 1 then i + 1 else 0))
  }

  /** Reducing a number below 2n modulo n takes off at most one n. */
  lemma ModOfNear(x: nat, n: nat)
    requires 0 < n && x < 2 * n
    ensures x % n == if x < n then x else x - n
  {
    if x >= n {
      assert x == (x - n) + n;
    }
  }

  /** The choice loop of Apply on a reset table: slots 0 .. n-1 shown with
      `texts` and linked into a ring, the rest left as they are. */
  function ShowChoices(slots: seq<Slot>, n: nat, texts: seq<string>): (r: seq<Slot>)
    requires n <= |slots| && n <= |texts|
    requires IsChoiceRing(slots, 0)
    ensures |r| == |slots|
    ensures IsChoiceRing(r, n)
    ensures forall i :: 0 <= i < |r| ==> r[i].obj == slots[i].obj && r[i].labelText.Some? == slots[i].labelText.Some?
    ensures forall i :: 0 <= i < n && r[i].labelText.Some? ==> r[i].labelText == Some(texts[i])
    ensures forall i :: n <= i < |r| ==> r[i] == slots[i]
  {
    seq(|slots|, i requires 0 <= i < |slots| => if i < n then ShowChoice(slots[i], i, n, texts[i]) else slots[i])
  }

  /** The text part of Apply: body text, name label and portrait. */
  function ApplyTexts(d: Dialog, isLocalized: bool, localize: string -> string, text: string, aName: string,
                      portraitRef: Option<string>): (r: Dialog)
    ensures r.text == Localized(isLocalized, localize, text)
    ensures d.name.Some? ==> r.name == Some(Localized(isLocalized, localize, aName))
    ensures d.name.None? ==> r.name.None?
    ensures d.portrait.None? ==> r.portrait.None?
    ensures d.portrait.Some? && portraitRef.Some? ==> r.portrait == Some(Portrait(portraitRef.value, true))
    ensures d.portrait.Some? && portraitRef.None? ==> r.portrait == Some(d.portrait.value.(active := false))
    ensures r == d.(text := r.text, name := r.name, portrait := r.portrait)
  {
    d.(text := Localized(isLocalized, localize, text),
       name := if d.name.Some? then Some(Localized(isLocalized, localize, aName)) else None,
       portrait := match d.portrait
         case None => None
         case Some(p) => if portraitRef.Some? then Some(Portrait(portraitRef.value, true)) else Some(p.(active := false)))
  }

  /** The dialog Apply leaves: texts and portrait set, the choices reset,
      then the first ChoiceCount of them shown as a ring. */
  function ApplyDialog(d: Dialog, isLocalized: bool, localize: string -> string, text: string, aName: string,
                       portraitRef: Option<string>, choices: Option<seq<string>>): (r: Dialog)
    ensures r.isInit && r.container == d.container
    ensures |r.slots| == |InitData(d).slots|
    ensures r.numChoices == ChoiceCount(|r.slots|, choices)
    ensures IsChoiceRing(r.slots, r.numChoices)
    ensures forall i :: 0 <= i < |r.slots| ==>
              && r.slots[i].obj == InitData(d).slots[i].obj
              && r.slots[i].labelText.Some? == InitData(d).slots[i].labelText.Some?
    ensures forall i :: 0 <= i < r.numChoices && r.slots[i].labelText.Some? ==>
              r.slots[i].labelText == Some(Localized(isLocalized, localize, choices.value[i]))
    ensures forall i :: r.numChoices <= i < |r.slots| ==>
              r.slots[i].labelText == InitData(d).slots[i].labelText
    ensures r.text == Localized(isLocalized, localize, text)
    ensures d.name.Some? ==> r.name == Some(Localized(isLocalized, localize, aName))
    ensures d.name.None? ==> r.name.None?
    ensures d.portrait.None? ==> r.portrait.None?
    ensures d.portrait.Some? && portraitRef.Some? ==> r.portrait == Some(Portrait(portraitRef.value, true))
    ensures d.portrait.Some? && portraitRef.None? ==> r.portrait == Some(d.portrait.value.(active := false))
    ensures Valid(r)
  {
    var inited := InitData(d);
    ApplyChoices(ApplyTexts(inited, isLocalized, localize, text, aName, portraitRef), isLocalized, localize, choices)
  }

  /** The choice part of Apply: reset every slot, then show the first
      ChoiceCount choices, localized, as a ring; nothing else changes. */
  function ApplyChoices(d: Dialog, isLocalized: bool, localize: string -> string, choices: Option<seq<string>>): (r: Dialog)
    ensures r == d.(slots := r.slots, numChoices := r.numChoices)
    ensures |r.slots| == |d.slots|
    ensures r.numChoices == ChoiceCount(|r.slots|, choices)
    ensures IsChoiceRing(r.slots, r.numChoices)
    ensures forall i :: 0 <= i < |r.slots| ==>
              r.slots[i].obj == d.slots[i].obj && r.slots[i].labelText.Some? == d.slots[i].labelText.Some?
    ensures forall i :: 0 <= i < r.numChoices && r.slots[i].labelText.Some? ==>
              r.slots[i].labelText == Some(Localized(isLocalized, localize, choices.value[i]))
    ensures forall i :: r.numChoices <= i < |r.slots| ==> r.slots[i].labelText == d.slots[i].labelText
  {
    var reset := ResetChoices(d);
    var n := ChoiceCount(|reset.slots|, choices);
    var texts := if n == 0 then [] else
      seq(n, i requires 0 <= i < n => Localized(isLocalized, localize, choices.value[i]));
    reset.(slots := ShowChoices(reset.slots, n, texts), numChoices := n)
  }

  /** The outcome of Apply: the dialog, and the focus ApplyActive sets when
      the dialog is already showing. */
  datatype ApplyResult = ApplyResult(dialog: Dialog, selection: Option<Selection>)

  /** Apply: the dialog of ApplyDialog and, when the dialog is showing, the
      focus on its first choice or on the dialog itself. */
  function Apply(d: Dialog, isLocalized: bool, localize: string -> string, text: string, aName: string,
                 portraitRef: Option<string>, choices: Option<seq<string>>, dialogActive: bool): (r: ApplyResult)
    ensures r.dialog == ApplyDialog(d, isLocalized, localize, text, aName, portraitRef, choices)
    ensures r.selection.Some? <==> dialogActive
    ensures r.selection.Some? ==> (r.selection.value.SelectChoice? <==> r.dialog.numChoices > 0)
    ensures r.selection == Some(SelectChoice(0)) ==> r.dialog.slots[0].active
    ensures r.selection.Some? ==> r.selection.value == ApplyActive(r.dialog)
  {
    var shown := ApplyDialog(d, isLocalized, localize, text, aName, portraitRef, choices);
    ApplyResult(shown, if dialogActive then Some(ApplyActive(shown)) else None)
  }

  /** ApplyActive: focus the first choice when choices are shown, else the
      dialog itself; a focused choice is always an active slot. */
  function ApplyActive(d: Dialog): (r: Selection)
    ensures r.SelectChoice? <==> |d.slots| > 0 && d.numChoices > 0
    ensures r.SelectChoice? ==> r.index == 0
    ensures r.SelectChoice? && IsChoiceRing(d.slots, d.numChoices) ==> d.slots[r.index].active
  {
    if |d.slots| > 0 && d.numChoices > 0 then SelectChoice(0) else SelectDialog
  }

  /** OnActive: focus is only placed when the dialog becomes active. */
  function OnActive(d: Dialog, active: bool): (r: Option<Selection>)
    ensures r.Some? <==> active
    ensures active ==> (r == Some(SelectChoice(0)) <==> |d.slots| > 0 && d.numChoices > 0)
    ensures active ==> (r == Some(SelectDialog) <==> |d.slots| == 0 || d.numChoices == 0)
  {
    if active then Some(ApplyActive(d)) else None
  }

  /** OnClick: the callback is fired, with -1, only when no choices are shown
      and a callback is registered. */
  function OnClick(d: Dialog, hasCallback: bool): (fired: Option<int>)
    ensures fired.Some? <==> d.numChoices == 0 && hasCallback
    ensures fired.Some? ==> fired.value == -1
  {
    if d.numChoices == 0 && hasCallback then Some(-1) else None
  }

  /** The loop of OnChoiceClick from slot `i` on: the first slot whose object
      is the clicked one. */
  function FindSlotFrom(slots: seq<Slot>, clicked: nat, i: nat): (r: Option<nat>)
    requires i <= |slots|
    ensures r.Some? ==> i <= r.value < |slots| && slots[r.value].obj == clicked
    ensures r.Some? ==> forall j :: i <= j < r.value ==> slots[j].obj != clicked
    ensures r.None? <==> forall j :: i <= j < |slots| ==> slots[j].obj != clicked
    decreases |slots| - i
  {
    if i == |slots| then None
    else if slots[i].obj == clicked then Some(i)
    else FindSlotFrom(slots, clicked, i + 1)
  }

  /** OnChoiceClick: the callback is fired at most once, with the index of the
      first slot whose object was clicked; nothing when no slot matches. */
  function OnChoiceClick(d: Dialog, clicked: nat, hasCallback: bool): (fired: Option<int>)
    ensures fired.Some? ==> hasCallback
    ensures fired.Some? ==> 0 <= fired.value < |d.slots| && d.slots[fired.value].obj == clicked
                            && forall j :: 0 <= j < fired.value ==> d.slots[j].obj != clicked
    ensures hasCallback && fired.None? ==> forall j :: 0 <= j < |d.slots| ==> d.slots[j].obj != clicked
  {
    match FindSlotFrom(d.slots, clicked, 0)
    case None => None
    case Some(i) => if hasCallback then Some(i) else None
  }

  // ---------------------------------------------------------------------
  // Navigation around the ring

  /** The slot reached from slot `i` by pressing down `steps` times, or
      `None` once a press leads nowhere. */
  function FollowDown(slots: seq<Slot>, i: nat, steps: nat): Option<nat>
    decreases steps
  {
    if steps == 0 then Some(i)
    else if i < |slots| && slots[i].down.Some? then FollowDown(slots, slots[i].down.value, steps - 1)
    else None
  }

  lemma {:induction false} FollowDownInRing(slots: seq<Slot>, n: nat, i: nat, k: nat)
    requires IsChoiceRing(slots, n)
    requires i < n && k <= n
    ensures FollowDown(slots, i, k) == Some(if i + k < n then i + k else i + k - n)
    decreases k
  {
    if k > 0 {
      if i == n - 1 {
        FollowDownInRing(slots, n, 0, k - 1);
      } else {
        FollowDownInRing(slots, n, i + 1, k - 1);
      }
    }
  }

  /** How many down presses lead from slot `i` to slot `j` in a ring of `n`. */
  function StepsBetween(i: nat, j: nat, n: nat): (k: nat)
    requires i < n && j < n
    ensures k < n
  {
    if i <= j then j - i else j + n - i
  }

  lemma ReachedAfterSteps(slots: seq<Slot>, n: nat, i: nat, j: nat)
    requires IsChoiceRing(slots, n)
    requires i < n && j < n
    ensures FollowDown(slots, i, StepsBetween(i, j, n)) == Some(j)
  {
    FollowDownInRing(slots, n, i, StepsBetween(i, j, n));
  }

  lemma NoShorterReturn(slots: seq<Slot>, n: nat, i: nat, k: nat)
    requires IsChoiceRing(slots, n)
    requires i < n && 0 < k < n
    ensures FollowDown(slots, i, k) != Some(i)
  {
    FollowDownInRing(slots, n, i, k);
  }

  /** The down links form a single cycle through exactly the shown choices:
      from any of them, n presses come back, no fewer do, and every shown
      choice is met on the way, after StepsBetween presses. */
  lemma DownLinksFormOneCycle(slots: seq<Slot>, n: nat, i: nat)
    requires IsChoiceRing(slots, n)
    requires i < n
    ensures FollowDown(slots, i, n) == Some(i)
    ensures forall k :: 0 < k < n ==> FollowDown(slots, i, k) != Some(i)
    ensures forall j :: 0 <= j < n ==> FollowDown(slots, i, StepsBetween(i, j, n)) == Some(j)
  {
    FollowDownInRing(slots, n, i, n);
    forall k | 0 < k < n ensures FollowDown(slots, i, k) != Some(i) {
      NoShorterReturn(slots, n, i, k);
    }
    forall j | 0 <= j < n ensures FollowDown(slots, i, StepsBetween(i, j, n)) == Some(j) {
      ReachedAfterSteps(slots, n, i, j);
    }
  }

  /** Up retraces down and down retraces up, so the up links run the same
      cycle backwards; a single choice links to itself both ways. */
  lemma UpLinksReverseDownLinks(slots: seq<Slot>, n: nat, i: nat)
    requires IsChoiceRing(slots, n)
    requires i < n
    ensures slots[i].down.Some? && slots[i].down.value < n && slots[slots[i].down.value].up == Some(i)
    ensures slots[i].up.Some? && slots[i].up.value < n && slots[slots[i].up.value].down == Some(i)
    ensures n == 1 ==> slots[i].up == Some(i) && slots[i].down == Some(i)
  {
    var next := if i == n - 1 then 0 else i + 1;
    var prev := if i == 0 then n - 1 else i - 1;
    assert slots[next].up == Some(if next == 0 then n - 1 else next - 1);
    assert slots[prev].down == Some(if prev == n - 1 then 0 else prev + 1);
  }

  // ---------------------------------------------------------------------
  // Clicks

  /** With the slots' objects distinct (each is its own child of the
      container), a click on slot i's object reports exactly i. */
  lemma ChoiceClickReportsItsSlot(d: Dialog, i: nat)
    requires i < |d.slots|
    requires forall a, b :: 0 <= a < b < |d.slots| ==> d.slots[a].obj != d.slots[b].obj
    ensures OnChoiceClick(d, d.slots[i].obj, true) == Some(i)
  {
  }

  /** Once Apply shows choices, a plain click reports nothing; after OnClose
      it reports -1 again. */
  lemma ClickReportsOnlyWithoutChoices(d: Dialog, isLocalized: bool, localize: string -> string, text: string,
                                       aName: string, portraitRef: Option<string>, choices: seq<string>, dialogActive: bool)
    requires |InitData(d).slots| > 0 && |choices| > 0
    ensures var shown := Apply(d, isLocalized, localize, text, aName, portraitRef, Some(choices), dialogActive).dialog;
            OnClick(shown, true).None? && OnClick(OnClose(shown), true) == Some(-1)
  {
  }
}
