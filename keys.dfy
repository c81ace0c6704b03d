/**
 * The key handler of the terminal front end: a decision table over the
 * key code and its modifiers, with one pending-key slot for the two-key
 * sequences `gg`, `zo`, `zc`, `zR` and `zM`.
 */
module Keys {
  import opened Wrappers

  datatype KeyCode = Char(c: char) | Up | Down | Tab | OtherKey

  datatype Modifier = Shift | Control | Alt | Super | Hyper | Meta

  /** The modifier flags held with a key; the handler compares them
      for equality, so Shift+Control is neither SHIFT nor CONTROL. */
  type Modifiers = set<Modifier>

  const NONE: Modifiers := {}
  const SHIFT: Modifiers := {Shift}
  const CONTROL: Modifiers := {Control}

  /** What a key asks the application to do (quitting aside). */
  datatype Command =
    | GotoTop | GotoBottom | MoveUp | MoveDown
    | ExpandNode | CollapseNode | ToggleExpand | ExpandAll | CollapseAll
    | TogglePane | ScrollDetailDown | ScrollDetailUp

  /** The effect of one key press: a command to run, whether to quit,
      and what the pending-key slot holds afterwards. */
  datatype Outcome = Outcome(command: Option<Command>, quit: bool, pending: Option<char>)

  const NoEffect := Outcome(None, false, None)

  /** The command completed by a second key, given the pending first key. */
  function SequenceCommand(pending: char, code: KeyCode, mods: Modifiers): (r: Option<Command>)
    ensures r.Some? ==> code.Char? && (mods == NONE || mods == SHIFT)
    ensures r == Some(GotoTop) <==> pending == 'g' && code == Char('g') && mods == NONE
    ensures pending != 'g' && pending != 'z' ==> r == None
  {
    if pending == 'g' && code == Char('g') && mods == NONE then Some(GotoTop)
    else if pending == 'z' && code == Char('o') && mods == NONE then Some(ExpandNode)
    else if pending == 'z' && code == Char('c') && mods == NONE then Some(CollapseNode)
    else if pending == 'z' && code == Char('R') && mods == SHIFT then Some(ExpandAll)
    else if pending == 'z' && code == Char('M') && mods == SHIFT then Some(CollapseAll)
    else None
  }

  /** The table used when no sequence is completed. */
  function NormalKey(code: KeyCode, mods: Modifiers): (r: Outcome)
    ensures r.quit <==> (code == Char('q') && mods == NONE) || (code == Char('c') && mods == CONTROL)
    ensures r.quit ==> r.command.None? && r.pending.None?
    ensures r.pending.Some? <==> mods == NONE && (code == Char('g') || code == Char('z'))
    ensures r.pending.Some? ==> code == Char(r.pending.value) && r.command.None?
    ensures mods != NONE && mods != SHIFT && mods != CONTROL ==> r == NoEffect
  {
    if mods == NONE then
      match code
      case Char('q') => Outcome(None, true, None)
      case Char('j') => Outcome(Some(MoveDown), false, None)
      case Down => Outcome(Some(MoveDown), false, None)
      case Char('k') => Outcome(Some(MoveUp), false, None)
      case Up => Outcome(Some(MoveUp), false, None)
      case Char('g') => Outcome(None, false, Some('g'))
      case Char('l') => Outcome(Some(ToggleExpand), false, None)
      case Char('h') => Outcome(Some(CollapseNode), false, None)
      case Char('z') => Outcome(None, false, Some('z'))
      case Tab => Outcome(Some(TogglePane), false, None)
      case _ => NoEffect
    else if mods == SHIFT then
      if code == Char('G') then Outcome(Some(GotoBottom), false, None) else NoEffect
    else if mods == CONTROL then
      match code
      case Char('c') => Outcome(None, true, None)
      case Char('d') => Outcome(Some(ScrollDetailDown), false, None)
      case Char('u') => Outcome(Some(ScrollDetailUp), false, None)
      case _ => NoEffect
    else NoEffect
  }

  /** One key press: the pending key is always taken; a completed
      sequence runs its command, anything else goes to the normal table. */
  function HandleKey(pending: Option<char>, code: KeyCode, mods: Modifiers): (r: Outcome)
    ensures r.quit <==> (code == Char('q') && mods == NONE) || (code == Char('c') && mods == CONTROL)
    ensures r.quit ==> r.command.None?
    ensures r.pending.Some? <==>
      mods == NONE && (code == Char('g') || code == Char('z')) && !(pending == Some('g') && code == Char('g'))
    ensures r.pending.Some? ==> code == Char(r.pending.value) && r.command.None?
    ensures pending.None? ==> r == NormalKey(code, mods)
    ensures pending.Some? && SequenceCommand(pending.value, code, mods).Some? ==>
      r == Outcome(SequenceCommand(pending.value, code, mods), false, None)
    ensures pending.Some? && SequenceCommand(pending.value, code, mods).None? ==> r == NormalKey(code, mods)
  {
    if pending.Some? && SequenceCommand(pending.value, code, mods).Some? then
      Outcome(SequenceCommand(pending.value, code, mods), false, None)
    else
      NormalKey(code, mods)
  }

  /** `gg` goes to the top and leaves nothing pending. */
  lemma DoubleG()
    ensures HandleKey(Some('g'), Char('g'), NONE) == Outcome(Some(GotoTop), false, None)
  {
  }

  /** The four `z` sequences. */
  lemma ZSequences()
    ensures HandleKey(Some('z'), Char('o'), NONE) == Outcome(Some(ExpandNode), false, None)
    ensures HandleKey(Some('z'), Char('c'), NONE) == Outcome(Some(CollapseNode), false, None)
    ensures HandleKey(Some('z'), Char('R'), SHIFT) == Outcome(Some(ExpandAll), false, None)
    ensures HandleKey(Some('z'), Char('M'), SHIFT) == Outcome(Some(CollapseAll), false, None)
  {
  }

  /** A second key that completes no sequence is handled exactly as if
      nothing had been pending. */
  lemma FallThrough(pending: char, code: KeyCode, mods: Modifiers)
    requires SequenceCommand(pending, code, mods).None?
    ensures HandleKey(Some(pending), code, mods) == HandleKey(None, code, mods)
  {
  }

  /** `z` then `z` arms `z` again; `z` then Ctrl-c quits; `g` then `z` arms `z`. */
  lemma FallThroughExamples()
    ensures HandleKey(Some('z'), Char('z'), NONE) == Outcome(None, false, Some('z'))
    ensures HandleKey(Some('z'), Char('c'), CONTROL) == Outcome(None, true, None)
    ensures HandleKey(Some('g'), Char('z'), NONE) == Outcome(None, false, Some('z'))
  {
  }

  /** A key outside the table does nothing but clear the pending key. */
  lemma UnboundKeyIgnored(pending: Option<char>, code: KeyCode, mods: Modifiers)
    requires code.OtherKey? || (code.Char? && code.c !in "qjkgGlhzcduoRM")
    ensures HandleKey(pending, code, mods) == NoEffect
  {
  }

  /** Keys held with a combination other than none, Shift or Control alone
      do nothing but clear the pending key. */
  lemma OtherModifiersIgnored(pending: Option<char>, code: KeyCode, mods: Modifiers)
    requires mods != NONE && mods != SHIFT && mods != CONTROL
    ensures HandleKey(pending, code, mods) == NoEffect
  {
  }

  /** The sequence table, as an independent listing. */
  const Sequences: map<(char, KeyCode, Modifiers), Command> := map[
    ('g', Char('g'), NONE) := GotoTop,
    ('z', Char('o'), NONE) := ExpandNode,
    ('z', Char('c'), NONE) := CollapseNode,
    ('z', Char('R'), SHIFT) := ExpandAll,
    ('z', Char('M'), SHIFT) := CollapseAll
  ]

  /** The normal table's commands, as an independent listing. */
  const Bindings: map<(KeyCode, Modifiers), Command> := map[
    (Char('j'), NONE) := MoveDown,
    (Down, NONE) := MoveDown,
    (Char('k'), NONE) := MoveUp,
    (Up, NONE) := MoveUp,
    (Char('G'), SHIFT) := GotoBottom,
    (Char('l'), NONE) := ToggleExpand,
    (Char('h'), NONE) := CollapseNode,
    (Tab, NONE) := TogglePane,
    (Char('d'), CONTROL) := ScrollDetailDown,
    (Char('u'), CONTROL) := ScrollDetailUp
  ]

  lemma SequenceCommandMatchesListing(pending: char, code: KeyCode, mods: Modifiers)
    ensures SequenceCommand(pending, code, mods) ==
      if (pending, code, mods) in Sequences then Some(Sequences[(pending, code, mods)]) else None
  {
  }

  lemma NormalCommandMatchesListing(code: KeyCode, mods: Modifiers)
    ensures NormalKey(code, mods).command ==
      if (code, mods) in Bindings then Some(Bindings[(code, mods)]) else None
  {
  }
}
