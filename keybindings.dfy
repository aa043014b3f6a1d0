/** The key-binding table of config.h and the binding scan that
    keyPressHandler (meowmeow.c) runs on every key event. */
module KeyBindings {

  datatype Option<T> = None | Some(value: T)

  /** An X11 keysym, as XkbKeycodeToKeysym returns it. */
  type KeySym = nat

  /** The modifier state of a key event (XKeyEvent.state, a bit mask). */
  type ModMask = bv32

  /** Keysym values of X11's keysymdef.h. */
  const KeyQ: KeySym := 0x0071
  const KeyP: KeySym := 0x0070
  const KeyTab: KeySym := 0xff09
  const KeyReturn: KeySym := 0xff0d

  /** Modifier bits of X11's X.h. */
  const ShiftMask: ModMask := 1
  const Mod1Mask: ModMask := 8

  /** The functions a binding can name, with their argument. */
  datatype Action =
    | Quit
    | TabNextWindow
    | CloseCurWindow
    | Spawn(argv: seq<string>)

  /** struct KeyBinding. */
  datatype KeyBinding = KeyBinding(keysym: KeySym, modifier: ModMask, action: Action)

  /** The table of config.h, in its order. */
  const Bindings: seq<KeyBinding> := [
    KeyBinding(KeyQ, Mod1Mask, Quit),
    KeyBinding(KeyTab, Mod1Mask, TabNextWindow),
    KeyBinding(KeyP, Mod1Mask, Spawn(["dmenu_run"])),
    KeyBinding(KeyReturn, Mod1Mask, Spawn(["st"]))
  ]

  /** A binding fires on its keysym with exactly its modifier mask: a
      superset of the modifiers does not match. */
  predicate Matches(b: KeyBinding, ks: KeySym, state: ModMask) {
    b.keysym == ks && b.modifier == state
  }

  /** The index of the first binding that matches, if any. */
  function FirstMatch(table: seq<KeyBinding>, ks: KeySym, state: ModMask): (r: Option<nat>)
    ensures r.Some? ==> r.value < |table| && Matches(table[r.value], ks, state)
    ensures r.Some? ==> forall j :: 0 <= j < r.value ==> !Matches(table[j], ks, state)
    ensures r.None? ==> forall j :: 0 <= j < |table| ==> !Matches(table[j], ks, state)
  {
    if table == [] then None
    else if Matches(table[0], ks, state) then Some(0)
    else
      match FirstMatch(table[1..], ks, state)
      case None => None
      case Some(i) => Some(i + 1)
  }

  /** The scan loop of keyPressHandler: walks the table in order and
      stops at the first binding whose keysym and modifier both match. */
  method FindBinding(table: seq<KeyBinding>, ks: KeySym, state: ModMask) returns (r: Option<nat>)
    ensures r == FirstMatch(table, ks, state)
  {
    var i := 0;
    while i < |table|
      invariant 0 <= i <= |table|
      invariant forall j :: 0 <= j < i ==> !Matches(table[j], ks, state)
    {
      if Matches(table[i], ks, state) {
        FirstMatchIsUnique(table, ks, state, i);
        return Some(i);
      }
      i := i + 1;
    }
    FirstMatchIsUnique(table, ks, state, |table|);
    return None;
  }

  /** The first match is determined by the table: if position i matches
      and nothing before it does, it is the first match; if nothing in
      the whole table matches, there is none. */
  lemma FirstMatchIsUnique(table: seq<KeyBinding>, ks: KeySym, state: ModMask, i: nat)
    requires i <= |table|
    requires forall j :: 0 <= j < i ==> !Matches(table[j], ks, state)
    requires i < |table| ==> Matches(table[i], ks, state)
    ensures FirstMatch(table, ks, state) == if i < |table| then Some(i) else None
  {
  }

  /** Alt+q selects quit, the first entry of the table. */
  lemma AltQSelectsQuit()
    ensures FirstMatch(Bindings, KeyQ, Mod1Mask) == Some(0)
    ensures Bindings[0].action == Quit
  {
  }

  /** Alt+Shift+q selects nothing: modifier masks are compared exactly. */
  lemma AltShiftQSelectsNothing()
    ensures FirstMatch(Bindings, KeyQ, Mod1Mask | ShiftMask) == None
  {
  }
}
