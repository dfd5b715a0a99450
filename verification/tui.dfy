/**
 * The terminal interface's selection state machine (tui.go): choose a
 * group, then a first and a second file of it, then look at their diff.
 * Key presses arrive as the strings the terminal library names them by.
 * The diff itself is an outcome handed in from outside.
 */
module Tui {
  datatype State = SelectGroup | SelectFirstFile | SelectSecondFile | ViewDiff

  /** The interface model (tui.go:31-42) without the window size. */
  datatype Model = Model(
    groups: seq<seq<string>>,
    currentGroup: nat,
    state: State,
    cursor: nat,
    firstFile: string,
    secondFile: string,
    diffOutput: string)

  /** The command returned with a new model: nothing, or end the program. */
  datatype Cmd = NoCmd | Quit

  /** What the external diff tool produced for two files. */
  datatype DiffOutcome = DiffText(text: string) | DiffError(message: string)

  /** initialModel (tui.go:45-53). */
  function Initial(groups: seq<seq<string>>): (m: Model)
    ensures m.groups == groups
    ensures m.state == SelectGroup && m.currentGroup == 0 && m.cursor == 0
    ensures m.firstFile == "" && m.secondFile == "" && m.diffOutput == ""
    ensures Inv(m)
  {
    Model(groups, 0, SelectGroup, 0, "", "", "")
  }

  /** getCurrentGroup (tui.go:235-240): empty when the index is past the last group. */
  function CurrentGroup(m: Model): (g: seq<string>)
    ensures m.currentGroup < |m.groups| ==> g == m.groups[m.currentGroup]
    ensures m.currentGroup >= |m.groups| ==> g == []
    ensures g == [] || g in m.groups
  {
    if m.currentGroup >= |m.groups| then [] else m.groups[m.currentGroup]
  }

  /** The largest cursor position the down key may reach (tui.go:96-104), -1 when there is none. */
  function MaxCursor(m: Model): int
  {
    if m.state == SelectGroup then |m.groups| - 1 else |CurrentGroup(m)| - 1
  }

  /** While choosing the second file, the cursor steps over the first one. */
  predicate Skipping(m: Model)
  {
    m.state == SelectSecondFile && m.firstFile != ""
  }

  // ------------------------------------------------------------ key handling

  /** The up key (tui.go:73-93). */
  function MoveUp(m: Model): (m': Model)
    ensures m'.(cursor := m.cursor) == m
    ensures m.cursor == 0 ==> m' == m
    ensures 0 < m.cursor && !Skipping(m) ==> m'.cursor == m.cursor - 1
    ensures 0 < m.cursor && Skipping(m) ==>
      var g := CurrentGroup(m);
      var c := m.cursor - 1;
      if c >= |g| || g[c] != m.firstFile then m'.cursor == c
      else if c > 0 then m'.cursor == c - 1
      // stepping over the first file at the top wraps to the last entry, or the one before it
      else m'.cursor == if |g| > 1 && g[|g| - 1] == m.firstFile then |g| - 2 else |g| - 1
  {
    if m.cursor == 0 then m
    else
      var c := m.cursor - 1;
      var g := CurrentGroup(m);
      if Skipping(m) && c < |g| && g[c] == m.firstFile then
        if c > 0 then m.(cursor := c - 1)
        else
          // at the top: wrap to the bottom, and step over the first file there too
          var last := |g| - 1;
          if last > 0 && g[last] == m.firstFile then m.(cursor := last - 1) else m.(cursor := last)
      else m.(cursor := c)
  }

  /** The down key (tui.go:95-124). */
  function MoveDown(m: Model): (m': Model)
    ensures m'.(cursor := m.cursor) == m
    ensures m.state == ViewDiff || m.cursor >= MaxCursor(m) ==> m' == m
    ensures m.state != ViewDiff && m.cursor < MaxCursor(m) && !Skipping(m) ==> m'.cursor == m.cursor + 1
    ensures m.state != ViewDiff ==> m'.cursor <= if m.cursor < MaxCursor(m) then MaxCursor(m) else m.cursor
    ensures m.state != ViewDiff && m.cursor < MaxCursor(m) && Skipping(m) ==>
      var g := CurrentGroup(m);
      var c := m.cursor + 1;
      if c >= |g| || g[c] != m.firstFile then m'.cursor == c
      else if c < MaxCursor(m) then m'.cursor == c + 1
      // stepping over the first file at the bottom wraps to the top, or the entry after it
      else m'.cursor == if g[0] == m.firstFile && 0 < MaxCursor(m) then 1 else 0
  {
    if m.state == ViewDiff then m
    else
      var max := MaxCursor(m);
      if m.cursor < max then
        var c := m.cursor + 1;
        var g := CurrentGroup(m);
        if Skipping(m) && c < |g| && g[c] == m.firstFile then
          if c < max then m.(cursor := c + 1)
          else
            // at the bottom: wrap to the top, and step over the first file there too
            if g[0] == m.firstFile && 0 < max then m.(cursor := 1) else m.(cursor := 0)
        else m.(cursor := c)
      else m
  }

  /** The `n` key (tui.go:132-140): the next group, only while choosing a group. */
  function NextGroup(m: Model): (m': Model)
    ensures m.state != SelectGroup || m.currentGroup + 1 >= |m.groups| ==> m' == m
    ensures m.state == SelectGroup && m.currentGroup + 1 < |m.groups| ==>
      m' == m.(currentGroup := m.currentGroup + 1, cursor := 0)
  {
    if m.state == SelectGroup && m.currentGroup < |m.groups| - 1 then
      m.(currentGroup := m.currentGroup + 1, cursor := 0)
    else m
  }

  /** handleEnter (tui.go:148-204); `diff` stands for the diff executor. */
  function HandleEnter(m: Model, diff: (string, string) -> DiffOutcome): (r: (Model, Cmd))
    ensures r.1 == Quit <==> m.state == SelectGroup && |m.groups| == 0
    ensures r.1 == Quit ==> r.0 == m
    ensures m.state == SelectGroup && |m.groups| > 0 ==> r.0 == m.(state := SelectFirstFile, cursor := 0)
    ensures m.state == SelectFirstFile && m.cursor < |CurrentGroup(m)| ==>
      var g := CurrentGroup(m);
      // the cursor starts on the top entry, or on the next one when the top entry is the chosen file
      r.0 == m.(firstFile := g[m.cursor], state := SelectSecondFile, cursor := if g[0] == g[m.cursor] && |g| > 1 then 1 else 0)
    ensures m.state in {SelectFirstFile, SelectSecondFile} && m.cursor >= |CurrentGroup(m)| ==> r.0 == m
    ensures m.state == SelectSecondFile && m.cursor < |CurrentGroup(m)| ==>
      var selected := CurrentGroup(m)[m.cursor];
      if selected == m.firstFile then r.0 == m
      else
        && r.0 == m.(secondFile := selected, state := ViewDiff, diffOutput := r.0.diffOutput)
        && match diff(m.firstFile, selected)
           case DiffText(text) => r.0.diffOutput == text
           case DiffError(message) => r.0.diffOutput == "Error generating diff: " + message
    ensures m.state == ViewDiff ==>
      r.0 == m.(state := SelectFirstFile, firstFile := "", secondFile := "", diffOutput := "", cursor := 0)
    ensures r.0.groups == m.groups && r.0.currentGroup == m.currentGroup
  {
    match m.state
    case SelectGroup =>
      if |m.groups| == 0 then (m, Quit) else (m.(state := SelectFirstFile, cursor := 0), NoCmd)
    case SelectFirstFile =>
      var g := CurrentGroup(m);
      if m.cursor < |g| then
        var first := g[m.cursor];
        var cursor := if g[0] == first && |g| > 1 then 1 else 0;
        (m.(firstFile := first, state := SelectSecondFile, cursor := cursor), NoCmd)
      else (m, NoCmd)
    case SelectSecondFile =>
      var g := CurrentGroup(m);
      if m.cursor < |g| then
        var selected := g[m.cursor];
        if selected == m.firstFile then (m, NoCmd)
        else
          var output := match diff(m.firstFile, selected)
            case DiffText(text) => text
            case DiffError(message) => "Error generating diff: " + message;
          (m.(secondFile := selected, diffOutput := output, state := ViewDiff), NoCmd)
      else (m, NoCmd)
    case ViewDiff =>
      (m.(state := SelectFirstFile, firstFile := "", secondFile := "", diffOutput := "", cursor := 0), NoCmd)
  }

  /** handleEscape (tui.go:207-232): one step back, cursor at the top. */
  function HandleEscape(m: Model): (m': Model)
    ensures m.state == SelectGroup ==> m' == m
    ensures m.state != SelectGroup ==> m'.cursor == 0
    ensures m.state == SelectFirstFile ==> m' == m.(state := SelectGroup, cursor := 0)
    ensures m.state == SelectSecondFile ==> m' == m.(state := SelectFirstFile, firstFile := "", cursor := 0)
    ensures m.state == ViewDiff ==> m' == m.(state := SelectSecondFile, secondFile := "", diffOutput := "", cursor := 0)
  {
    match m.state
    case SelectGroup => m
    case SelectFirstFile => m.(state := SelectGroup, cursor := 0)
    case SelectSecondFile => m.(state := SelectFirstFile, firstFile := "", cursor := 0)
    case ViewDiff => m.(state := SelectSecondFile, secondFile := "", diffOutput := "", cursor := 0)
  }

  /** Update for a key press (tui.go:68-144); unknown keys change nothing. */
  function Update(m: Model, key: string, diff: (string, string) -> DiffOutcome): (r: (Model, Cmd))
    ensures r.1 == Quit <==> key in {"ctrl+c", "q"} || (key in {"enter", " "} && m.state == SelectGroup && |m.groups| == 0)
    ensures r.1 == Quit ==> r.0 == m
    ensures r.0.groups == m.groups
    ensures key !in {"ctrl+c", "q", "up", "k", "down", "j", "enter", " ", "esc", "n"} ==> r == (m, NoCmd)
  {
    match key
    case "ctrl+c" => (m, Quit)
    case "q" => (m, Quit)
    case "up" => (MoveUp(m), NoCmd)
    case "k" => (MoveUp(m), NoCmd)
    case "down" => (MoveDown(m), NoCmd)
    case "j" => (MoveDown(m), NoCmd)
    case "enter" => HandleEnter(m, diff)
    case " " => HandleEnter(m, diff)
    case "esc" => (HandleEscape(m), NoCmd)
    case "n" => (NextGroup(m), NoCmd)
    case _ => (m, NoCmd)
  }

  // ------------------------------------------------------------- invariant

  /** The cursor points into the list on screen, or at its top when the list is empty. */
  predicate CursorFits(cursor: nat, length: nat)
  {
    cursor == 0 || cursor < length
  }

  /**
   * What every reachable model satisfies: the group index is valid, the
   * cursor stays on the list it selects from, and the selections made so
   * far are files of the current group, cleared when the state has not
   * reached them.
   */
  predicate Inv(m: Model)
  {
    && CursorFits(m.currentGroup, |m.groups|)
    && match m.state
       case SelectGroup =>
         CursorFits(m.cursor, |m.groups|) && m.firstFile == "" && m.secondFile == "" && m.diffOutput == ""
       case SelectFirstFile =>
         |m.groups| > 0 && CursorFits(m.cursor, |CurrentGroup(m)|)
         && m.firstFile == "" && m.secondFile == "" && m.diffOutput == ""
       case SelectSecondFile =>
         |m.groups| > 0 && CursorFits(m.cursor, |CurrentGroup(m)|)
         && m.firstFile in CurrentGroup(m) && m.secondFile == "" && m.diffOutput == ""
       case ViewDiff =>
         |m.groups| > 0 && m.firstFile in CurrentGroup(m) && m.secondFile in CurrentGroup(m)
         && m.firstFile != m.secondFile
  }

  /** Every key press keeps the invariant. */
  lemma UpdateKeepsInv(m: Model, key: string, diff: (string, string) -> DiffOutcome)
    requires Inv(m)
    ensures Inv(Update(m, key, diff).0)
  {
  }

  /**
   * While choosing the second file in a group of distinct files, an up or
   * down press that moves the cursor never leaves it on the first file;
   * at either end it wraps around.
   */
  lemma MoveSkipsFirstFile(m: Model, key: string, diff: (string, string) -> DiffOutcome)
    requires Inv(m) && m.state == SelectSecondFile && m.firstFile != ""
    requires |CurrentGroup(m)| >= 2
    requires forall a, b :: 0 <= a < b < |CurrentGroup(m)| ==> CurrentGroup(m)[a] != CurrentGroup(m)[b]
    requires key in {"up", "k", "down", "j"}
    ensures var m' := Update(m, key, diff).0;
      m'.cursor < |CurrentGroup(m)| && (m'.cursor != m.cursor ==> CurrentGroup(m)[m'.cursor] != m.firstFile)
    ensures key in {"up", "k"} && m.cursor == 1 && CurrentGroup(m)[0] == m.firstFile ==>
      Update(m, key, diff).0.cursor == |CurrentGroup(m)| - 1
    ensures key in {"down", "j"} && m.cursor + 2 == |CurrentGroup(m)| && CurrentGroup(m)[m.cursor + 1] == m.firstFile ==>
      Update(m, key, diff).0.cursor == 0
  {
  }

  /** Away from the second-file step, down undoes up. */
  lemma DownUndoesUp(m: Model)
    requires m.state in {SelectGroup, SelectFirstFile} && 0 < m.cursor <= MaxCursor(m)
    ensures MoveDown(MoveUp(m)) == m
  {
  }

  /** Escape undoes a successful enter, apart from the cursor, which goes back to the top. */
  lemma EscapeUndoesEnter(m: Model, diff: (string, string) -> DiffOutcome)
    requires Inv(m)
    requires m.state == SelectGroup ==> |m.groups| > 0
    requires m.state in {SelectFirstFile, SelectSecondFile} ==> m.cursor < |CurrentGroup(m)|
    requires m.state == SelectSecondFile ==> CurrentGroup(m)[m.cursor] != m.firstFile
    requires m.state != ViewDiff
    ensures HandleEscape(HandleEnter(m, diff).0) == m.(cursor := 0)
  {
  }
}
