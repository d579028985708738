/**
 * The menu screens: buttons with an inclusive mouse hit test, a menu's
 * wrap-around keyboard selection, and the options screen's settings. A
 * button's click handler is modelled by the `Intent` it stands for; the
 * options screen carries out its own intents (`PerformOnOptions`) and the
 * game the rest (`Session.Perform`).
 */
module Menus {
  import opened Wrappers
  import opened CMath
  import opened Constants
  import opened Rects

  /** Which screen the game shows. */
  datatype MenuState = MainMenu | GamePlaying | PauseMenu | OptionsMenu | GameOver | LevelComplete | About

  /** What a button's click handler does. */
  datatype Intent =
    | Show(screen: MenuState)
    | Exit
    | Retry
    | MusicToggle
    | SoundToggle
    | DifficultyUp
    | DifficultyDown

  /** SDL's number for the left mouse button. */
  const BUTTON_LEFT := 1

  /** The mouse events a button reacts to; `which` is the event's mouse-button field. */
  datatype Event = MouseMotion | MouseButtonDown(which: int) | OtherEvent

  // ------------------------------------------------------------ buttons

  datatype Button = Button(rect: Rect, text: string, selected: bool, action: Intent)

  function NewButton(x: int, y: int, w: int, h: int, text: string, action: Intent): (b: Button)
    ensures b.rect == Rect(x, y, w, h) && b.text == text && b.action == action
    ensures !b.selected
  {
    Button(Rect(x, y, w, h), text, false, action)
  }

  /** The button hit test: both edges of each axis count as inside. */
  predicate Inside(r: Rect, mx: int, my: int)
  {
    r.x <= mx <= r.x + r.w && r.y <= my <= r.y + r.h
  }

  /**
   * The hit test is one pixel wider and taller than the rectangle's own
   * area: every pixel of the rectangle is inside, and so is its far corner,
   * which the rectangle itself does not cover.
   */
  lemma InsideIsClosed(r: Rect, mx: int, my: int)
    ensures Covers(r, mx, my) ==> Inside(r, mx, my)
    ensures Inside(r, mx, my) <==> Covers(Rect(r.x, r.y, r.w + 1, r.h + 1), mx, my)
    ensures r.w >= 0 && r.h >= 0 ==> Inside(r, r.x + r.w, r.y + r.h) && !Covers(r, r.x + r.w, r.y + r.h)
  {
  }

  /** A button after an event, whether it consumed the event, and the handler it ran, if any. */
  datatype Handled = Handled(button: Button, consumed: bool, fired: Option<Intent>)

  /**
   * Button::handleEvent at mouse position (mx, my): motion highlights the
   * button exactly when the mouse is inside and is consumed then; a
   * left-button press inside runs the handler and is consumed; nothing else
   * is.
   */
  function HandleButtonEvent(b: Button, ev: Event, mx: int, my: int): (r: Handled)
    ensures r.button == b.(selected := r.button.selected)
    ensures r.fired.Some? ==> r.consumed && r.fired.value == b.action
    ensures r.consumed ==> Inside(b.rect, mx, my)
    ensures ev.MouseMotion? ==> r.button.selected == Inside(b.rect, mx, my) && r.consumed == r.button.selected && r.fired.None?
    ensures ev.MouseButtonDown? ==> r.button == b && (r.consumed <==> Inside(b.rect, mx, my) && ev.which == BUTTON_LEFT)
    ensures ev.MouseButtonDown? ==> (r.fired.Some? <==> r.consumed)
    ensures ev.OtherEvent? ==> r == Handled(b, false, None)
  {
    var inside := Inside(b.rect, mx, my);
    match ev
    case MouseMotion => Handled(b.(selected := inside), inside, None)
    case MouseButtonDown(which) =>
      if inside && which == BUTTON_LEFT then Handled(b, true, Some(b.action)) else Handled(b, false, None)
    case OtherEvent => Handled(b, false, None)
  }

  // ------------------------------------------------------------ menus

  datatype Menu = Menu(title: string, buttons: seq<Button>, selectedIndex: int)

  function NewMenu(title: string): (m: Menu)
    ensures m.title == title && m.buttons == [] && m.selectedIndex == 0
  {
    Menu(title, [], 0)
  }

  /** Exactly the button at the selected index is highlighted. */
  predicate SelectionConsistent(m: Menu)
  {
    && 0 <= m.selectedIndex < |m.buttons|
    && forall j :: 0 <= j < |m.buttons| ==> (m.buttons[j].selected <==> j == m.selectedIndex)
  }

  /** Menu::addButton: append a button; the very first one is highlighted, later ones are not. */
  function AddButton(m: Menu, x: int, y: int, w: int, h: int, text: string, action: Intent): (m': Menu)
    ensures |m'.buttons| == |m.buttons| + 1
    ensures m'.buttons[..|m.buttons|] == m.buttons
    ensures m'.buttons[|m.buttons|].rect == Rect(x, y, w, h)
    ensures m'.buttons[|m.buttons|].text == text && m'.buttons[|m.buttons|].action == action
    ensures m'.buttons[|m.buttons|].selected <==> |m.buttons| == 0
    ensures m'.title == m.title && m'.selectedIndex == m.selectedIndex
  {
    var buttons := m.buttons + [NewButton(x, y, w, h, text, action)];
    if |buttons| == 1 then m.(buttons := [buttons[0].(selected := true)])
    else m.(buttons := buttons)
  }

  /** Buttons added one by one to a new menu leave exactly the first one highlighted. */
  lemma AddButtonKeepsSelection(m: Menu, x: int, y: int, w: int, h: int, text: string, action: Intent)
    requires SelectionConsistent(m) || (m.buttons == [] && m.selectedIndex == 0)
    ensures SelectionConsistent(AddButton(m, x, y, w, h, text, action))
  {
    var m' := AddButton(m, x, y, w, h, text, action);
    forall j | 0 <= j < |m'.buttons|
      ensures m'.buttons[j].selected <==> j == m'.selectedIndex
    {
      if j < |m.buttons| {
        assert m'.buttons[j] == m'.buttons[..|m.buttons|][j];
      }
    }
  }

  /** Un-highlight the selected button, then select and highlight button `i`. */
  function MoveSelection(m: Menu, i: int): (m': Menu)
    requires 0 <= m.selectedIndex < |m.buttons| && 0 <= i < |m.buttons|
    ensures |m'.buttons| == |m.buttons| && m'.selectedIndex == i && m'.title == m.title
    ensures m'.buttons[i].selected
    ensures i != m.selectedIndex ==> !m'.buttons[m.selectedIndex].selected
    ensures forall j :: 0 <= j < |m.buttons| && j != i && j != m.selectedIndex ==> m'.buttons[j] == m.buttons[j]
    ensures forall j :: 0 <= j < |m.buttons| ==> m'.buttons[j] == m.buttons[j].(selected := m'.buttons[j].selected)
    ensures SelectionConsistent(m) ==> SelectionConsistent(m')
  {
    var prev := m.selectedIndex;
    var cleared := m.buttons[prev := m.buttons[prev].(selected := false)];
    m.(buttons := cleared[i := cleared[i].(selected := true)], selectedIndex := i)
  }

  /**
   * Menu::navigateUp: the selection moves one button up, from the first
   * button round to the last. The game computes the index with an unsigned
   * remainder; NavigateIsModular shows this is the same value.
   */
  function NavigateUp(m: Menu): (m': Menu)
    requires 0 <= m.selectedIndex < |m.buttons|
    ensures 0 <= m'.selectedIndex < |m'.buttons| == |m.buttons|
    ensures m'.selectedIndex == if m.selectedIndex == 0 then |m.buttons| - 1 else m.selectedIndex - 1
    ensures m' == MoveSelection(m, m'.selectedIndex)
  {
    MoveSelection(m, if m.selectedIndex == 0 then |m.buttons| - 1 else m.selectedIndex - 1)
  }

  /** Menu::navigateDown: the selection moves one button down, from the last button round to the first. */
  function NavigateDown(m: Menu): (m': Menu)
    requires 0 <= m.selectedIndex < |m.buttons|
    ensures 0 <= m'.selectedIndex < |m'.buttons| == |m.buttons|
    ensures m'.selectedIndex == if m.selectedIndex == |m.buttons| - 1 then 0 else m.selectedIndex + 1
    ensures m' == MoveSelection(m, m'.selectedIndex)
  {
    MoveSelection(m, if m.selectedIndex == |m.buttons| - 1 then 0 else m.selectedIndex + 1)
  }

  /** The navigation functions compute the game's own unsigned modular formulas. */
  lemma NavigateIsModular(m: Menu)
    requires 0 <= m.selectedIndex < |m.buttons|
    ensures NavigateUp(m).selectedIndex == (m.selectedIndex + |m.buttons| - 1) % |m.buttons|
    ensures NavigateDown(m).selectedIndex == (m.selectedIndex + 1) % |m.buttons|
  {
    ModOnce(m.selectedIndex + |m.buttons| - 1, |m.buttons|);
    ModOnce(m.selectedIndex + 1, |m.buttons|);
  }

  /** Moving the selection away and back again restores a consistently highlighted menu. */
  lemma MoveSelectionBack(m: Menu, i: int)
    requires SelectionConsistent(m) && 0 <= i < |m.buttons|
    ensures MoveSelection(MoveSelection(m, i), m.selectedIndex) == m
  {
    var a := MoveSelection(MoveSelection(m, i), m.selectedIndex);
    forall j | 0 <= j < |m.buttons|
      ensures a.buttons[j] == m.buttons[j]
    {
      assert a.buttons[j] == m.buttons[j].(selected := a.buttons[j].selected);
    }
    assert a.buttons == m.buttons;
  }

  /** Up then down, or down then up, restores the selected index, and the whole menu when its highlight was consistent. */
  lemma NavigateInverse(m: Menu)
    requires 0 <= m.selectedIndex < |m.buttons|
    ensures NavigateDown(NavigateUp(m)).selectedIndex == m.selectedIndex
    ensures NavigateUp(NavigateDown(m)).selectedIndex == m.selectedIndex
    ensures SelectionConsistent(m) ==> NavigateDown(NavigateUp(m)) == m && NavigateUp(NavigateDown(m)) == m
  {
    if SelectionConsistent(m) {
      MoveSelectionBack(m, NavigateUp(m).selectedIndex);
      MoveSelectionBack(m, NavigateDown(m).selectedIndex);
    }
  }

  /** `k` presses of the down key. */
  function NavigateDownTimes(m: Menu, k: nat): (m': Menu)
    requires 0 <= m.selectedIndex < |m.buttons|
    decreases k
    ensures 0 <= m'.selectedIndex < |m'.buttons| == |m.buttons|
  {
    if k == 0 then m else NavigateDown(NavigateDownTimes(m, k - 1))
  }

  /** Index `i` moved `k` places round a ring of `n`, one place at a time. */
  function Advance(i: int, n: int, k: nat): int
    decreases k
  {
    if k == 0 then i else var j := Advance(i, n, k - 1); if j == n - 1 then 0 else j + 1
  }

  lemma {:induction false} AdvanceClosedForm(i: int, n: int, k: nat)
    requires 0 <= i < n
    decreases k
    ensures Advance(i, n, k) == (i + k) % n
  {
    if k == 0 {
      ModOnce(i, n);
    } else {
      AdvanceClosedForm(i, n, k - 1);
      ModStep(i + (k - 1), n);
    }
  }

  lemma {:induction false} NavigateDownTimesAdvance(m: Menu, k: nat)
    requires 0 <= m.selectedIndex < |m.buttons|
    decreases k
    ensures NavigateDownTimes(m, k).selectedIndex == Advance(m.selectedIndex, |m.buttons|, k)
  {
    if k > 0 {
      NavigateDownTimesAdvance(m, k - 1);
    }
  }

  /** After `k` presses of the down key the selection is `k` buttons further on, counted round the menu. */
  lemma NavigateDownTimesClosedForm(m: Menu, k: nat)
    requires 0 <= m.selectedIndex < |m.buttons|
    ensures NavigateDownTimes(m, k).selectedIndex == (m.selectedIndex + k) % |m.buttons|
  {
    NavigateDownTimesAdvance(m, k);
    AdvanceClosedForm(m.selectedIndex, |m.buttons|, k);
  }

  /**
   * Menu::selectCurrent with the mouse-button field its synthesised event
   * carries: a press at one pixel in from the selected button's top-left
   * corner, delivered to that button alone, and only when the index is in
   * range. A press never changes a button, so the menu is left as it was.
   */
  function SelectCurrentWith(m: Menu, which: int): (fired: Option<Intent>)
    ensures fired.Some? ==> 0 <= m.selectedIndex < |m.buttons| && fired.value == m.buttons[m.selectedIndex].action
  {
    if 0 <= m.selectedIndex < |m.buttons| then
      var b := m.buttons[m.selectedIndex];
      HandleButtonEvent(b, MouseButtonDown(which), b.rect.x + 1, b.rect.y + 1).fired
    else None
  }

  /**
   * Menu::selectCurrent as written: the event is built from its type alone,
   * so its mouse-button field is never set to the left button. The field is
   * left indeterminate (zero in practice); `which` stands for whatever value
   * it holds, and for every value but the left button no handler runs.
   */
  function SelectCurrentAsWritten(m: Menu, which: int): (fired: Option<Intent>)
    requires which != BUTTON_LEFT
    ensures fired == None
  {
    SelectCurrentWith(m, which)
  }

  /**
   * Menu::selectCurrent as evidently intended (the Return and Space keys
   * activate the highlighted button): the press is a left-button press. It
   * runs the selected button's handler exactly when the index is in range
   * and the button is at least one pixel wide and tall.
   */
  function SelectCurrent(m: Menu): (fired: Option<Intent>)
    ensures fired.Some? <==> 0 <= m.selectedIndex < |m.buttons| && m.buttons[m.selectedIndex].rect.w >= 1 && m.buttons[m.selectedIndex].rect.h >= 1
    ensures fired.Some? ==> fired.value == m.buttons[m.selectedIndex].action
  {
    SelectCurrentWith(m, BUTTON_LEFT)
  }

  /**
   * The keyboard and the mouse disagree in the game as written: on the
   * options screen a left click at the point selectCurrent probes runs the
   * highlighted button's handler, but selectCurrent itself runs nothing,
   * whatever the value of the field it leaves unset, as long as that value
   * is not the left button's.
   */
  lemma SelectCurrentIgnoresKeyboard(which: int)
    requires which != BUTTON_LEFT
    ensures var m := NewOptions().menu;
      var b := m.buttons[m.selectedIndex];
      && HandleButtonEvent(b, MouseButtonDown(BUTTON_LEFT), b.rect.x + 1, b.rect.y + 1).fired == Some(MusicToggle)
      && SelectCurrentAsWritten(m, which) == None
      && SelectCurrent(m) == Some(MusicToggle)
  {
    var m := NewOptions().menu;
    assert m.selectedIndex == 0 && m.buttons[0].action == MusicToggle;
    assert m.buttons[0].rect == Rect(OPTIONS_X, OPTIONS_Y, OPTIONS_BUTTON_WIDTH, OPTIONS_BUTTON_HEIGHT);
  }

  // ------------------------------------------------------------ the options screen

  /** The options screen: its menu and the settings it shows. */
  datatype Options = Options(menu: Menu, musicEnabled: bool, soundEnabled: bool, difficulty: int)

  const OPTIONS_BUTTON_WIDTH := 300
  const OPTIONS_BUTTON_HEIGHT := 60
  const OPTIONS_X := (SCREEN_WIDTH - OPTIONS_BUTTON_WIDTH) / 2
  const OPTIONS_Y := SCREEN_HEIGHT / 2 - 90
  const OPTIONS_SPACING := 80

  function OnOff(on: bool): string
  {
    if on then "ON" else "OFF"
  }

  /** The name shown for a difficulty; a value outside 1..3 has none. */
  function DifficultyName(d: int): (name: string)
    ensures name != "" <==> 1 <= d <= 3
  {
    if d == 1 then "Easy" else if d == 2 then "Normal" else if d == 3 then "Hard" else ""
  }

  /** The three difficulties have three different names, so a label names exactly one. */
  lemma DifficultyNameIdentifies(a: int, b: int)
    requires 1 <= a <= 3 && 1 <= b <= 3 && DifficultyName(a) == DifficultyName(b)
    ensures a == b
  {
  }

  /** The music, sound and difficulty buttons show the settings actually in force. */
  predicate LabelsAgree(o: Options)
  {
    && |o.menu.buttons| >= 3
    && o.menu.buttons[0].text == "Music: " + OnOff(o.musicEnabled)
    && o.menu.buttons[1].text == "Sound Effects: " + OnOff(o.soundEnabled)
    && o.menu.buttons[2].text == "Difficulty: " + DifficultyName(o.difficulty)
  }

  /** The OptionsMenu constructor with the difficulty button's first label as a parameter. */
  function OptionsWithLabel(difficultyLabel: string): (o: Options)
    ensures o.musicEnabled && o.soundEnabled && o.difficulty == 1
    ensures |o.menu.buttons| == 4 && SelectionConsistent(o.menu) && o.menu.selectedIndex == 0
    ensures o.menu.buttons[0].text == "Music: ON" && o.menu.buttons[1].text == "Sound Effects: ON"
    ensures o.menu.buttons[2].text == difficultyLabel
    ensures o.menu.buttons[0].action == MusicToggle && o.menu.buttons[1].action == SoundToggle
    ensures o.menu.buttons[2].action == DifficultyUp && o.menu.buttons[3].action == Show(MainMenu)
    ensures forall k :: 0 <= k < 4 ==>
      o.menu.buttons[k].rect == Rect(OPTIONS_X, OPTIONS_Y + OPTIONS_SPACING * k, OPTIONS_BUTTON_WIDTH, OPTIONS_BUTTON_HEIGHT)
  {
    var w, h := OPTIONS_BUTTON_WIDTH, OPTIONS_BUTTON_HEIGHT;
    var m0 := NewMenu("OPTIONS");
    AddButtonKeepsSelection(m0, OPTIONS_X, OPTIONS_Y, w, h, "Music: ON", MusicToggle);
    var m1 := AddButton(m0, OPTIONS_X, OPTIONS_Y, w, h, "Music: ON", MusicToggle);
    AddButtonKeepsSelection(m1, OPTIONS_X, OPTIONS_Y + OPTIONS_SPACING, w, h, "Sound Effects: ON", SoundToggle);
    var m2 := AddButton(m1, OPTIONS_X, OPTIONS_Y + OPTIONS_SPACING, w, h, "Sound Effects: ON", SoundToggle);
    AddButtonKeepsSelection(m2, OPTIONS_X, OPTIONS_Y + OPTIONS_SPACING * 2, w, h, difficultyLabel, DifficultyUp);
    var m3 := AddButton(m2, OPTIONS_X, OPTIONS_Y + OPTIONS_SPACING * 2, w, h, difficultyLabel, DifficultyUp);
    AddButtonKeepsSelection(m3, OPTIONS_X, OPTIONS_Y + OPTIONS_SPACING * 3, w, h, "Back", Show(MainMenu));
    var m4 := AddButton(m3, OPTIONS_X, OPTIONS_Y + OPTIONS_SPACING * 3, w, h, "Back", Show(MainMenu));
    assert m4.buttons[0] == m2.buttons[0] == m1.buttons[0] by {
      assert m4.buttons[0] == m4.buttons[..3][0] == m3.buttons[0] == m3.buttons[..2][0];
      assert m2.buttons[0] == m2.buttons[..1][0];
    }
    assert m4.buttons[1] == m2.buttons[1] by {
      assert m4.buttons[1] == m4.buttons[..3][1] == m3.buttons[1] == m3.buttons[..2][1];
    }
    assert m4.buttons[2] == m3.buttons[2] by {
      assert m4.buttons[2] == m4.buttons[..3][2];
    }
    Options(m4, true, true, 1)
  }

  /**
   * The OptionsMenu constructor as written: the difficulty starts at 1,
   * whose name is "Easy", but the difficulty button is labelled "Normal".
   */
  function NewOptionsAsWritten(): (o: Options)
    ensures o.difficulty == 1 && !LabelsAgree(o)
  {
    var o := OptionsWithLabel("Difficulty: Normal");
    assert o.menu.buttons[2].text[12] == 'N';
    o
  }

  /** The OptionsMenu constructor with the difficulty button labelled after the difficulty in force. */
  function NewOptions(): (o: Options)
    ensures o.musicEnabled && o.soundEnabled && o.difficulty == 1
    ensures LabelsAgree(o) && SelectionConsistent(o.menu) && |o.menu.buttons| == 4
    ensures o.menu.selectedIndex == 0 && o.menu.buttons[0].action == MusicToggle
    ensures o.menu.buttons[0].rect == Rect(OPTIONS_X, OPTIONS_Y, OPTIONS_BUTTON_WIDTH, OPTIONS_BUTTON_HEIGHT)
  {
    OptionsWithLabel("Difficulty: " + DifficultyName(1))
  }

  /** Button `k` remade with the same rectangle, a new label and a new action, highlighted or not. */
  function Remake(m: Menu, k: int, text: string, action: Intent, selected: bool): (m': Menu)
    requires 0 <= k < |m.buttons|
    ensures |m'.buttons| == |m.buttons| && m'.title == m.title && m'.selectedIndex == m.selectedIndex
    ensures m'.buttons[k] == Button(m.buttons[k].rect, text, selected, action)
    ensures forall j :: 0 <= j < |m.buttons| && j != k ==> m'.buttons[j] == m.buttons[j]
  {
    var b := m.buttons[k];
    m.(buttons := m.buttons[k := NewButton(b.rect.x, b.rect.y, b.rect.w, b.rect.h, text, action).(selected := selected)])
  }

  /** OptionsMenu::toggleMusic: the music setting flips and its button is relabelled and highlighted. */
  function ToggleMusic(o: Options): (o': Options)
    requires |o.menu.buttons| >= 1
    ensures o'.musicEnabled == !o.musicEnabled
    ensures o' == o.(musicEnabled := o'.musicEnabled, menu := o'.menu)
    ensures o'.menu == Remake(o.menu, 0, "Music: " + OnOff(o'.musicEnabled), MusicToggle, true)
    ensures LabelsAgree(o) ==> LabelsAgree(o')
  {
    var on := !o.musicEnabled;
    o.(musicEnabled := on, menu := Remake(o.menu, 0, "Music: " + OnOff(on), MusicToggle, true))
  }

  /** OptionsMenu::toggleSound: the sound setting flips and its button is relabelled, not highlighted. */
  function ToggleSound(o: Options): (o': Options)
    requires |o.menu.buttons| >= 2
    ensures o'.soundEnabled == !o.soundEnabled
    ensures o' == o.(soundEnabled := o'.soundEnabled, menu := o'.menu)
    ensures o'.menu == Remake(o.menu, 1, "Sound Effects: " + OnOff(o'.soundEnabled), SoundToggle, false)
    ensures LabelsAgree(o) ==> LabelsAgree(o')
  {
    var on := !o.soundEnabled;
    o.(soundEnabled := on, menu := Remake(o.menu, 1, "Sound Effects: " + OnOff(on), SoundToggle, false))
  }

  /** Toggling twice restores the setting; after one toggle, two more restore the whole screen. */
  lemma TogglesAreInvolutions(o: Options)
    requires |o.menu.buttons| >= 2
    ensures ToggleMusic(ToggleMusic(o)).musicEnabled == o.musicEnabled
    ensures ToggleSound(ToggleSound(o)).soundEnabled == o.soundEnabled
    ensures ToggleMusic(ToggleMusic(ToggleMusic(o))) == ToggleMusic(o)
    ensures ToggleSound(ToggleSound(ToggleSound(o))) == ToggleSound(o)
  {
    var a := ToggleMusic(o);
    assert ToggleMusic(ToggleMusic(a)).menu.buttons == a.menu.buttons;
    var b := ToggleSound(o);
    assert ToggleSound(ToggleSound(b)).menu.buttons == b.menu.buttons;
  }

  /**
   * Toggling sound while its button is the selected one leaves no button
   * highlighted, although the selection stays on it.
   */
  lemma ToggleSoundClearsHighlight(o: Options)
    requires SelectionConsistent(o.menu) && |o.menu.buttons| >= 2 && o.menu.selectedIndex == 1
    ensures var m := ToggleSound(o).menu;
      m.selectedIndex == 1 && forall j :: 0 <= j < |m.buttons| ==> !m.buttons[j].selected
  {
  }

  /** OptionsMenu::increaseDifficulty: 1, 2, 3 and round to 1; the button is relabelled and keeps raising. */
  function IncreaseDifficulty(o: Options): (o': Options)
    requires |o.menu.buttons| >= 3
    ensures 1 <= o.difficulty <= 3 ==> o'.difficulty == if o.difficulty == 3 then 1 else o.difficulty + 1
    ensures o.difficulty >= 0 ==> 1 <= o'.difficulty <= 3
    ensures o' == o.(difficulty := o'.difficulty, menu := o'.menu)
    ensures o'.menu == Remake(o.menu, 2, "Difficulty: " + DifficultyName(o'.difficulty), DifficultyUp, false)
    ensures LabelsAgree(o) ==> LabelsAgree(o')
  {
    var d := Rem(o.difficulty, 3) + 1;
    o.(difficulty := d, menu := Remake(o.menu, 2, "Difficulty: " + DifficultyName(d), DifficultyUp, false))
  }

  /**
   * OptionsMenu::decreaseDifficulty: 3, 2, 1 and round to 3; the button is
   * relabelled and from then on lowers the difficulty when clicked.
   */
  function DecreaseDifficulty(o: Options): (o': Options)
    requires |o.menu.buttons| >= 3
    ensures 1 <= o.difficulty <= 3 ==> o'.difficulty == if o.difficulty == 1 then 3 else o.difficulty - 1
    ensures o.difficulty >= -1 ==> 1 <= o'.difficulty <= 3
    ensures o' == o.(difficulty := o'.difficulty, menu := o'.menu)
    ensures o'.menu == Remake(o.menu, 2, "Difficulty: " + DifficultyName(o'.difficulty), DifficultyDown, false)
    ensures LabelsAgree(o) ==> LabelsAgree(o')
  {
    var d := Rem(o.difficulty + 1, 3) + 1;
    o.(difficulty := d, menu := Remake(o.menu, 2, "Difficulty: " + DifficultyName(d), DifficultyDown, false))
  }

  /**
   * The options screen's own button handlers: the music, sound and
   * difficulty buttons call the screen's toggles on the screen itself.
   * Every other intent is for the game and leaves the screen as it is.
   */
  function PerformOnOptions(o: Options, i: Intent): (o': Options)
    requires |o.menu.buttons| >= 3
    ensures |o'.menu.buttons| == |o.menu.buttons| && o'.menu.selectedIndex == o.menu.selectedIndex
    ensures LabelsAgree(o) ==> LabelsAgree(o')
    ensures o'.musicEnabled == (if i == MusicToggle then !o.musicEnabled else o.musicEnabled)
    ensures o'.soundEnabled == (if i == SoundToggle then !o.soundEnabled else o.soundEnabled)
    ensures i != DifficultyUp && i != DifficultyDown ==> o'.difficulty == o.difficulty
    ensures i == DifficultyUp && 1 <= o.difficulty <= 3 ==> o'.difficulty == if o.difficulty == 3 then 1 else o.difficulty + 1
    ensures i == DifficultyDown && 1 <= o.difficulty <= 3 ==> o'.difficulty == if o.difficulty == 1 then 3 else o.difficulty - 1
    ensures i.Show? || i == Exit || i == Retry ==> o' == o
  {
    match i
    case MusicToggle => ToggleMusic(o)
    case SoundToggle => ToggleSound(o)
    case DifficultyUp => IncreaseDifficulty(o)
    case DifficultyDown => DecreaseDifficulty(o)
    case _ => o
  }

  /** Raising and lowering the difficulty undo each other on 1..3, and three raises come back round. */
  lemma DifficultyCycle(o: Options)
    requires |o.menu.buttons| >= 3 && 1 <= o.difficulty <= 3
    ensures DecreaseDifficulty(IncreaseDifficulty(o)).difficulty == o.difficulty
    ensures IncreaseDifficulty(DecreaseDifficulty(o)).difficulty == o.difficulty
    ensures IncreaseDifficulty(IncreaseDifficulty(IncreaseDifficulty(o))).difficulty == o.difficulty
    ensures LabelsAgree(o) ==> LabelsAgree(DecreaseDifficulty(IncreaseDifficulty(o)))
  {
  }
}
