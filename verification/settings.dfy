/**
  The few settings of the "Bothers" tab whose edits do more than store the
  widget's value: the two hotkeys, which are kept within a fixed choice;
  the item inspection rate limiter, which refuses negative counts; and the
  two ContentsFinder switches, where the one-time confirm needs the plain
  confirm.
 */
module Settings {

  import opened Seqs

  /** A Windows virtual-key code. */
  type KeyCode = nat

  const NoKey: KeyCode := 0x00
  const Shift: KeyCode := 0x10
  const Control: KeyCode := 0x11
  const Menu: KeyCode := 0x12

  /** The keys a hotkey may be, in the order the combo box lists them. */
  const HotkeyValues: seq<KeyCode> := [NoKey, Control, Menu, Shift]

  /** The combo box's labels, position for position. */
  const HotkeyChoices: seq<string> := ["None", "Control", "Alt", "Shift"]

  datatype Config = Config(
    disableKey: KeyCode,
    forcedYesKey: KeyCode,
    itemInspectionResultRateLimiter: int,
    contentsFinderConfirm: bool,
    contentsFinderOneTimeConfirm: bool)

  // ---------------------------------------------------------------------
  // Hotkeys

  /** A stored hotkey outside the choice is reset to no key before it is shown. */
  function Normalize(k: KeyCode): (r: KeyCode)
    ensures r in HotkeyValues
    ensures k in HotkeyValues ==> r == k
    ensures k !in HotkeyValues ==> r == NoKey
  {
    if k in HotkeyValues then k else NoKey
  }

  /** The combo box position shown for a hotkey, once normalised. */
  function HotkeyIndex(k: KeyCode): (i: int)
    ensures 0 <= i < |HotkeyValues| && i < |HotkeyChoices|
    ensures HotkeyValues[i] == Normalize(k)
  {
    IndexOf(HotkeyValues, Normalize(k))
  }

  /** The key stored when the combo box reports position `i`. */
  function ChooseHotkey(i: int): (k: KeyCode)
    requires 0 <= i < |HotkeyValues|
    ensures k in HotkeyValues
    ensures HotkeyIndex(k) == i
  {
    HotkeyValues[i]
  }

  /** Showing a hotkey and choosing the position shown stores the normalised key. */
  lemma HotkeyRoundTrip(k: KeyCode)
    ensures ChooseHotkey(HotkeyIndex(k)) == Normalize(k)
    ensures Normalize(Normalize(k)) == Normalize(k)
  {
  }

  /** Drawing the tab normalises both stored hotkeys. */
  function ShowHotkeys(c: Config): (d: Config)
    ensures d.disableKey in HotkeyValues && d.forcedYesKey in HotkeyValues
    ensures c.disableKey in HotkeyValues ==> d.disableKey == c.disableKey
    ensures c.forcedYesKey in HotkeyValues ==> d.forcedYesKey == c.forcedYesKey
    ensures c.disableKey !in HotkeyValues ==> d.disableKey == NoKey
    ensures c.forcedYesKey !in HotkeyValues ==> d.forcedYesKey == NoKey
    ensures d.(disableKey := c.disableKey, forcedYesKey := c.forcedYesKey) == c
  {
    c.(disableKey := Normalize(c.disableKey), forcedYesKey := Normalize(c.forcedYesKey))
  }

  /** Picking an entry of the "Disable Hotkey" combo box. */
  function PickDisableKey(c: Config, i: int): (d: Config)
    requires 0 <= i < |HotkeyValues|
    ensures d.disableKey in HotkeyValues && HotkeyIndex(d.disableKey) == i
    ensures d.(disableKey := c.disableKey) == c
  {
    c.(disableKey := ChooseHotkey(i))
  }

  /** Picking an entry of the "Forced Yes Hotkey" combo box. */
  function PickForcedYesKey(c: Config, i: int): (d: Config)
    requires 0 <= i < |HotkeyValues|
    ensures d.forcedYesKey in HotkeyValues && HotkeyIndex(d.forcedYesKey) == i
    ensures d.(forcedYesKey := c.forcedYesKey) == c
  {
    c.(forcedYesKey := ChooseHotkey(i))
  }

  /** Both hotkeys are among the choices. */
  predicate HotkeysValid(c: Config)
  {
    c.disableKey in HotkeyValues && c.forcedYesKey in HotkeyValues
  }

  /**
    Once the tab has been drawn the hotkeys are valid, and every later pick
    keeps them so; drawing again then changes nothing.
   */
  lemma HotkeysStayValid(c: Config, i: int, j: int)
    requires 0 <= i < |HotkeyValues| && 0 <= j < |HotkeyValues|
    ensures HotkeysValid(ShowHotkeys(c))
    ensures HotkeysValid(c) ==> ShowHotkeys(c) == c
    ensures HotkeysValid(c) ==> HotkeysValid(PickDisableKey(c, i)) && HotkeysValid(PickForcedYesKey(c, j))
    ensures ShowHotkeys(PickForcedYesKey(PickDisableKey(ShowHotkeys(c), i), j))
            == PickForcedYesKey(PickDisableKey(ShowHotkeys(c), i), j)
  {
  }

  // ---------------------------------------------------------------------
  // Item inspection rate limiter

  /**
    Entering a count for the rate limiter: a negative count is dropped and
    the stored one kept; any other count is stored.
   */
  function SetRateLimiter(c: Config, v: int): (d: Config)
    ensures v < 0 ==> d == c
    ensures v >= 0 ==> d.itemInspectionResultRateLimiter == v
    ensures d.(itemInspectionResultRateLimiter := c.itemInspectionResultRateLimiter) == c
  {
    if v < 0 then c else c.(itemInspectionResultRateLimiter := v)
  }

  /** No sequence of entries makes a non-negative limiter negative. */
  lemma {:induction false} RateLimiterStaysNonNegative(c: Config, vs: seq<int>)
    requires c.itemInspectionResultRateLimiter >= 0
    ensures EnterAll(c, vs).itemInspectionResultRateLimiter >= 0
    ensures EnterAll(c, vs).(itemInspectionResultRateLimiter := c.itemInspectionResultRateLimiter) == c
    ensures (exists k :: 0 <= k < |vs| && vs[k] >= 0) ==>
              EnterAll(c, vs).itemInspectionResultRateLimiter == LastNonNegative(vs)
    decreases |vs|
  {
    if |vs| > 0 {
      var last := vs[|vs| - 1];
      var init := vs[..|vs| - 1];
      RateLimiterStaysNonNegative(c, init);
      if last < 0 {
        if exists k :: 0 <= k < |vs| && vs[k] >= 0 {
          var k :| 0 <= k < |vs| && vs[k] >= 0;
          assert init[k] >= 0;
        }
      }
    }
  }

  /** The entries made one after the other. */
  function EnterAll(c: Config, vs: seq<int>): Config
    decreases |vs|
  {
    if |vs| == 0 then c else SetRateLimiter(EnterAll(c, vs[..|vs| - 1]), vs[|vs| - 1])
  }

  /** The last non-negative entry, or 0 when there is none. */
  function LastNonNegative(vs: seq<int>): int
    decreases |vs|
  {
    if |vs| == 0 then 0
    else if vs[|vs| - 1] >= 0 then vs[|vs| - 1]
    else LastNonNegative(vs[..|vs| - 1])
  }

  // ---------------------------------------------------------------------
  // ContentsFinder confirm switches

  /** The one-time confirm is only ever on together with the plain confirm. */
  predicate Coupled(c: Config)
  {
    c.contentsFinderOneTimeConfirm ==> c.contentsFinderConfirm
  }

  /** The "ContentsFinderConfirm" checkbox; switching it off switches the one-time confirm off too. */
  function SetConfirm(c: Config, on: bool): (d: Config)
    ensures d.contentsFinderConfirm == on
    ensures d.contentsFinderOneTimeConfirm == (on && c.contentsFinderOneTimeConfirm)
    ensures Coupled(d)
    ensures d.(contentsFinderConfirm := c.contentsFinderConfirm,
               contentsFinderOneTimeConfirm := c.contentsFinderOneTimeConfirm) == c
  {
    var d := c.(contentsFinderConfirm := on);
    if !on then d.(contentsFinderOneTimeConfirm := false) else d
  }

  /** The "ContentsFinderOneTimeConfirm" checkbox; switching it on switches the plain confirm on too. */
  function SetOneTimeConfirm(c: Config, on: bool): (d: Config)
    ensures d.contentsFinderOneTimeConfirm == on
    ensures d.contentsFinderConfirm == (on || c.contentsFinderConfirm)
    ensures Coupled(d)
    ensures d.(contentsFinderConfirm := c.contentsFinderConfirm,
               contentsFinderOneTimeConfirm := c.contentsFinderOneTimeConfirm) == c
  {
    var d := c.(contentsFinderOneTimeConfirm := on);
    if on then d.(contentsFinderConfirm := true) else d
  }

  /**
    On a coupled configuration, setting either switch to the value it
    already has changes nothing; turning the one-time confirm on and then
    the confirm off leaves both off.
   */
  lemma SwitchesSettle(c: Config)
    requires Coupled(c)
    ensures SetConfirm(c, c.contentsFinderConfirm) == c
    ensures SetOneTimeConfirm(c, c.contentsFinderOneTimeConfirm) == c
    ensures var d := SetConfirm(SetOneTimeConfirm(c, true), false);
            !d.contentsFinderConfirm && !d.contentsFinderOneTimeConfirm
  {
  }
}
