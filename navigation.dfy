/** The navigation engine as pure functions on the part of the viewer's
    state that key presses and commands change. `App.HandleKeyEvent` and
    `App.ExecuteCommand` (module HexViewer) are proved to compute these
    functions; the properties of the engine are proved here about them. */
module Navigation {
  import opened Uint
  import opened HexFormat
  import opened OffsetParser
  import opened Tokens

  datatype Mode = Normal | Command

  /** The key codes the engine distinguishes; `OtherKey` stands for the rest. */
  datatype Key =
    | Char(c: char) | Up | Down | PageUp | PageDown | Home | End
    | Enter | Esc | Backspace | OtherKey

  /** The status line, by kind and the numbers it shows (not its wording). */
  datatype Status =
    | FileInfo(size: u64)
    | CommandPrompt
    | MovedTo(offset: u64)
    | MovedToStart
    | MovedToEnd
    | NormalMode
    | EndOfFile(offset: u64)
    | NoCommand
    | MovedPages(forward: bool, pages: u64, offset: u64)
    | MovedToNextPage(offset: u64)
    | BadPageCount(forward: bool)
    | BadPageSign
    | BadPageFormat
    | Jumped(offset: u64)
    | BadOffset(error: ParseError)
    | ReadFailed
  {
    /** The statuses that report a malformed command. */
    predicate IsError() {
      BadPageCount? || BadPageSign? || BadPageFormat? || BadOffset?
    }
  }

  /** What a key press or a command can change. `panicked` records that the
      process has aborted on an arithmetic overflow. */
  datatype View = View(
    offset: u64, mode: Mode, input: string, quit: bool,
    pageSize: u64, status: Status, panicked: bool)

  /** The largest offset the view may show: `file_size.saturating_sub(1)`. */
  function LastOffset(fileSize: u64): u64 {
    SatSub(fileSize, 1)
  }

  /** The hard clamp `offset.min(file_size.saturating_sub(1))`: the offset
      lies in [0, max(file_size, 1)) afterwards, and one already there is kept. */
  function Clamp(offset: u64, fileSize: u64): (r: u64)
    ensures r <= offset && r <= LastOffset(fileSize)
    ensures r < fileSize || r == 0
    ensures offset <= LastOffset(fileSize) ==> r == offset
    ensures r == offset || r == LastOffset(fileSize)
  {
    Min(offset, LastOffset(fileSize))
  }

  /** A key in Normal mode, before the clamp. The status shows the offset
      reached before clamping. */
  function NormalKey(v: View, k: Key, fileSize: u64, bytesPerLine: u64): View {
    if k == Char('q') || k == Char('Q') then v.(quit := true)
    else if k == Char(':') then v.(mode := Command, input := "", status := CommandPrompt)
    else if k == Down || k == Char('j') then
      var o := SatAdd(v.offset, bytesPerLine); v.(offset := o, status := MovedTo(o))
    else if k == Up || k == Char('k') then
      var o := SatSub(v.offset, bytesPerLine); v.(offset := o, status := MovedTo(o))
    else if k == PageDown || k == Char(' ') then
      var o := SatAdd(v.offset, v.pageSize); v.(offset := o, status := MovedTo(o))
    else if k == PageUp then
      var o := SatSub(v.offset, v.pageSize); v.(offset := o, status := MovedTo(o))
    else if k == Home then v.(offset := 0, status := MovedToStart)
    else if k == End then v.(offset := SatSub(fileSize, v.pageSize), status := MovedToEnd)
    else v
  }

  /** A key in Command mode, before the clamp. */
  function CommandKey(v: View, k: Key, fileSize: u64): View
    requires !v.panicked
  {
    match k
    case Enter =>
      var e := RunCommand(v, fileSize);
      if e.panicked then e else e.(mode := Normal, input := "")
    case Esc => v.(mode := Normal, input := "", status := NormalMode)
    case Backspace => if v.input == [] then v else v.(input := v.input[..|v.input| - 1])
    case Char(c) => v.(input := v.input + [c])
    case _ => v
  }

  /** `handle_key_event`: the key's action in the current mode, then the clamp.
      Whatever the mode and the key, the offset stays inside the file and the
      page size stays as it was. */
  function HandleKey(v: View, k: Key, fileSize: u64, bytesPerLine: u64): (r: View)
    requires !v.panicked
    ensures !r.panicked ==> r.offset <= LastOffset(fileSize)
    ensures r.panicked ==> r.offset == v.offset && v.mode == Command && k == Enter
    ensures r.pageSize == v.pageSize
  {
    var s := match v.mode
      case Normal => NormalKey(v, k, fileSize, bytesPerLine)
      case Command => CommandKey(v, k, fileSize);
    if s.panicked then s else s.(offset := Clamp(s.offset, fileSize))
  }

  /** The arguments of a `page` command, before the clamp. A page count whose
      product with the page size leaves the u64 range aborts the process, as
      the unchecked multiplication does. */
  function PageCommand(v: View, args: seq<string>): (r: View)
    requires !v.panicked
    ensures r.pageSize == v.pageSize && r.mode == v.mode && r.input == v.input && r.quit == v.quit
    ensures r.panicked ==> r.offset == v.offset
  {
    if |args| == 1 then
      var arg := args[0];
      if |arg| > 0 && arg[0] == '+' then
        match FromStrRadix(arg[1..], 10)
        case Ok(pages) =>
          if pages * v.pageSize > U64_MAX then v.(panicked := true)
          else
            var o := SatAdd(v.offset, pages * v.pageSize);
            v.(offset := o, status := MovedPages(true, pages, o))
        case Err(_) => v.(status := BadPageCount(true))
      else if |arg| > 0 && arg[0] == '-' then
        match FromStrRadix(arg[1..], 10)
        case Ok(pages) =>
          if pages * v.pageSize > U64_MAX then v.(panicked := true)
          else
            var o := SatSub(v.offset, pages * v.pageSize);
            v.(offset := o, status := MovedPages(false, pages, o))
        case Err(_) => v.(status := BadPageCount(false))
      else v.(status := BadPageSign)
    else if |args| == 0 then
      var o := SatAdd(v.offset, v.pageSize);
      v.(offset := o, status := MovedToNextPage(o))
    else v.(status := BadPageFormat)
  }

  /** An offset literal, before the clamp. */
  function JumpCommand(v: View, token: string): View {
    match ParseOffset(token)
    case Ok(n) => v.(offset := n, status := Jumped(n))
    case Err(e) => v.(status := BadOffset(e))
  }

  /** `execute_command` on the typed input. An empty input and `q` return
      early; every other branch ends with the clamp. */
  function RunCommand(v: View, fileSize: u64): (r: View)
    requires !v.panicked
    ensures r.pageSize == v.pageSize && r.mode == v.mode && r.input == v.input
    ensures v.offset <= LastOffset(fileSize) ==> r.offset <= LastOffset(fileSize)
    ensures r.panicked ==> r.offset == v.offset
  {
    var words := SplitWhitespace(Trim(v.input));
    if words == [] then v.(status := NoCommand)
    else
      var cmd := ToAsciiLower(words[0]);
      if cmd == "q" then v.(quit := true)
      else
        var s := if cmd == "page" then PageCommand(v, words[1..]) else JumpCommand(v, words[0]);
        if s.panicked then s else s.(offset := Clamp(s.offset, fileSize))
  }

  /** The state every reachable view satisfies: the offset inside the file,
      and no pending input outside Command mode. */
  predicate Invariant(v: View, fileSize: u64) {
    v.offset <= LastOffset(fileSize) && (v.mode == Normal ==> v.input == "")
  }

  /** A run of key presses; a panic ends the run. */
  function RunKeys(v: View, keys: seq<Key>, fileSize: u64, bytesPerLine: u64): View
    requires !v.panicked
    decreases |keys|
  {
    if keys == [] then v
    else
      var w := HandleKey(v, keys[0], fileSize, bytesPerLine);
      if w.panicked then w else RunKeys(w, keys[1..], fileSize, bytesPerLine)
  }

  // ---------------------------------------------------------------------
  // The key state machine

  /** One key press keeps the invariant, in either mode and whatever the key. */
  lemma HandleKeyKeepsInvariant(v: View, k: Key, fileSize: u64, bytesPerLine: u64)
    requires !v.panicked && Invariant(v, fileSize)
    ensures Invariant(HandleKey(v, k, fileSize, bytesPerLine), fileSize)
  {
  }

  /** Every run of key presses keeps the invariant and the page size. */
  lemma {:induction false} RunKeysKeepsInvariant(v: View, keys: seq<Key>, fileSize: u64, bytesPerLine: u64)
    requires !v.panicked && Invariant(v, fileSize)
    ensures Invariant(RunKeys(v, keys, fileSize, bytesPerLine), fileSize)
    ensures RunKeys(v, keys, fileSize, bytesPerLine).pageSize == v.pageSize
    decreases |keys|
  {
    if keys != [] {
      var w := HandleKey(v, keys[0], fileSize, bytesPerLine);
      HandleKeyKeepsInvariant(v, keys[0], fileSize, bytesPerLine);
      if !w.panicked {
        RunKeysKeepsInvariant(w, keys[1..], fileSize, bytesPerLine);
      }
    }
  }

  /** Normal mode: line and page steps saturate at 0 and stop at the last
      byte; Home goes to 0; End goes to `file_size - page_size` (at least 0,
      at most the last byte); a key without a binding changes nothing. */
  lemma NormalModeMoves(v: View, k: Key, fileSize: u64, bytesPerLine: u64)
    requires !v.panicked && v.mode == Normal && Invariant(v, fileSize)
    ensures var r := HandleKey(v, k, fileSize, bytesPerLine);
      && (k == Down || k == Char('j') ==> r.offset == Min(v.offset + bytesPerLine, LastOffset(fileSize)))
      && (k == Up || k == Char('k') ==> r.offset == if v.offset >= bytesPerLine then v.offset - bytesPerLine else 0)
      && (k == PageDown || k == Char(' ') ==> r.offset == Min(v.offset + v.pageSize, LastOffset(fileSize)))
      && (k == PageUp ==> r.offset == if v.offset >= v.pageSize then v.offset - v.pageSize else 0)
      && (k == Home ==> r.offset == 0)
      && (k == End ==> r.offset == Min(if fileSize >= v.pageSize then fileSize - v.pageSize else 0, LastOffset(fileSize)))
      && (k !in {Char('q'), Char('Q'), Char(':'), Down, Char('j'), Up, Char('k'), PageDown, Char(' '), PageUp, Home, End}
          ==> r == v)
  {
  }

  /** Normal mode: `q`/`Q` asks to quit and `:` opens Command mode with an
      empty input; no other key changes the mode, the input or the quit flag. */
  lemma NormalModeSwitches(v: View, k: Key, fileSize: u64, bytesPerLine: u64)
    requires !v.panicked && v.mode == Normal && Invariant(v, fileSize)
    ensures var r := HandleKey(v, k, fileSize, bytesPerLine);
      && (r.quit <==> v.quit || k == Char('q') || k == Char('Q'))
      && (r.mode == Command <==> k == Char(':'))
      && r.input == "" && !r.panicked
      && (k == Char('q') || k == Char('Q') || k == Char(':') ==> r.offset == v.offset)
  {
  }

  /** A line down then a line up comes back, away from the end of the file. */
  lemma LineStepsCancel(v: View, fileSize: u64, bytesPerLine: u64)
    requires !v.panicked && v.mode == Normal && v.offset + bytesPerLine <= LastOffset(fileSize)
    ensures HandleKey(HandleKey(v, Down, fileSize, bytesPerLine), Up, fileSize, bytesPerLine).offset == v.offset
  {
  }

  /** A page down then a page up comes back, away from the end of the file. */
  lemma PageStepsCancel(v: View, fileSize: u64, bytesPerLine: u64)
    requires !v.panicked && v.mode == Normal && v.offset + v.pageSize <= LastOffset(fileSize)
    ensures HandleKey(HandleKey(v, PageDown, fileSize, bytesPerLine), PageUp, fileSize, bytesPerLine).offset == v.offset
  {
  }

  /** Pressing Home again changes nothing. */
  lemma HomeIdempotent(v: View, fileSize: u64, bytesPerLine: u64)
    requires !v.panicked && v.mode == Normal
    ensures var h := HandleKey(v, Home, fileSize, bytesPerLine);
      h.offset == 0 && HandleKey(h, Home, fileSize, bytesPerLine) == h
  {
  }

  /** Pressing End again changes nothing while the page size stays. */
  lemma EndIdempotent(v: View, fileSize: u64, bytesPerLine: u64)
    requires !v.panicked && v.mode == Normal
    ensures var e := HandleKey(v, End, fileSize, bytesPerLine);
      HandleKey(e, End, fileSize, bytesPerLine) == e
  {
  }

  /** After End, a page read from the new offset reaches the last byte of a
      non-empty file: the offset is inside the file and the end of the file
      lies within one page of it. */
  lemma EndShowsLastByte(v: View, fileSize: u64, bytesPerLine: u64)
    requires !v.panicked && v.mode == Normal && 1 <= v.pageSize && 1 <= fileSize
    ensures var e := HandleKey(v, End, fileSize, bytesPerLine);
      e.offset < fileSize <= e.offset + v.pageSize
  {
  }

  /** Command mode: a typed character and a Backspace cancel out. */
  lemma TypeThenErase(v: View, c: char, fileSize: u64, bytesPerLine: u64)
    requires !v.panicked && v.mode == Command && Invariant(v, fileSize)
    ensures HandleKey(HandleKey(v, Char(c), fileSize, bytesPerLine), Backspace, fileSize, bytesPerLine) == v
  {
    var t := HandleKey(v, Char(c), fileSize, bytesPerLine);
    assert t.input == v.input + [c];
    assert (v.input + [c])[..|v.input|] == v.input;
  }

  /** Command mode: Backspace removes the last character typed, and on an
      empty input changes nothing; any character key appends that character. */
  lemma CommandModeEditing(v: View, k: Key, fileSize: u64, bytesPerLine: u64)
    requires !v.panicked && v.mode == Command && Invariant(v, fileSize)
    ensures var r := HandleKey(v, k, fileSize, bytesPerLine);
      && (k == Backspace ==>
            && r.mode == Command && r.offset == v.offset
            && (v.input == [] ==> r == v)
            && (v.input != [] ==> r.input + [v.input[|v.input| - 1]] == v.input))
      && (k.Char? ==> r.mode == Command && r.offset == v.offset && r.input == v.input + [k.c])
  {
  }

  /** Command mode: Esc and Enter leave Command mode with an empty input (unless
      the command aborted the process); Esc keeps the offset. */
  lemma LeavingCommandMode(v: View, k: Key, fileSize: u64, bytesPerLine: u64)
    requires !v.panicked && v.mode == Command && Invariant(v, fileSize)
    requires k == Esc || k == Enter
    ensures var r := HandleKey(v, k, fileSize, bytesPerLine);
      && (!r.panicked ==> r.mode == Normal && r.input == "")
      && (k == Esc ==> r.offset == v.offset && r.status == NormalMode && !r.panicked)
  {
  }

  // ---------------------------------------------------------------------
  // The command interpreter

  /** Only a `page +N` or `page -N` whose N pages overflow a u64 aborts a command. */
  predicate PageCountOverflows(words: seq<string>, pageSize: u64) {
    && |words| == 2
    && ToAsciiLower(words[0]) == "page"
    && |words[1]| > 0 && (words[1][0] == '+' || words[1][0] == '-')
    && FromStrRadix(words[1][1..], 10).Ok?
    && FromStrRadix(words[1][1..], 10).value * pageSize > U64_MAX
  }

  lemma CommandPanics(v: View, fileSize: u64)
    requires !v.panicked
    ensures RunCommand(v, fileSize).panicked <==> PageCountOverflows(SplitWhitespace(v.input), v.pageSize)
  {
    TrimSplit(v.input);
    var words := SplitWhitespace(v.input);
    if words != [] && PageCountOverflows(words, v.pageSize) {
      LowerIsQ(words[0]);
    }
  }

  /** An input of whitespace only reports that no command was entered and
      changes nothing else. */
  lemma EmptyCommand(v: View, fileSize: u64)
    requires !v.panicked && AllWhitespace(v.input)
    ensures RunCommand(v, fileSize) == v.(status := NoCommand)
  {
    TrimSplit(v.input);
    SplitEmpty(v.input);
  }

  /** A first word `q` or `Q` quits, whatever words follow and however the
      words are spaced, and changes nothing else. */
  lemma QuitWhateverFollows(v: View, fileSize: u64)
    requires !v.panicked
    requires var words := SplitWhitespace(v.input);
      words != [] && (words[0] == "q" || words[0] == "Q")
    ensures RunCommand(v, fileSize) == v.(quit := true)
  {
    TrimSplit(v.input);
    LowerIsQ(SplitWhitespace(v.input)[0]);
  }

  /**
   * A command that ends with an error status leaves the offset where it was,
   * also when the status before it was already an error; only a first word
   * `q` changes `quit`, and a fresh error never comes with an abort.
   */
  lemma CommandErrorsKeepOffset(v: View, fileSize: u64)
    requires !v.panicked && v.offset <= LastOffset(fileSize)
    ensures var r := RunCommand(v, fileSize);
      r.status.IsError() && !r.panicked ==> r.offset == v.offset
    ensures var words := SplitWhitespace(v.input);
      words == [] || ToAsciiLower(words[0]) != "q" ==> RunCommand(v, fileSize).quit == v.quit
    ensures var r := RunCommand(v, fileSize);
      !v.status.IsError() && r.status.IsError() ==> r.quit == v.quit && !r.panicked
  {
    TrimSplit(v.input);
  }

  /** The typed command `page` followed by the words `args`, one space apart. */
  function PageInput(page: string, args: seq<string>): string {
    Join([page] + args)
  }

  lemma PageWords(page: string, args: seq<string>)
    requires IsWord(page)
    requires forall i :: 0 <= i < |args| ==> IsWord(args[i])
    ensures SplitWhitespace(PageInput(page, args)) == [page] + args
  {
    var words := [page] + args;
    assert forall i :: 0 <= i < |words| ==> IsWord(words[i]);
    SplitJoin(words);
  }

  /** The malformed `page` commands, however the words are spaced: a count
      that is no numeral after its sign, a second word without a sign, or
      more than one word after `page`. Each reports its error and changes
      nothing else. */
  lemma PageCommandErrors(v: View, fileSize: u64)
    requires !v.panicked && v.offset <= LastOffset(fileSize)
    requires var words := SplitWhitespace(v.input);
      words != [] && ToAsciiLower(words[0]) == "page"
    ensures var args := SplitWhitespace(v.input)[1..];
      var r := RunCommand(v, fileSize);
      && (|args| >= 2 ==> r == v.(status := BadPageFormat))
      && (|args| == 1 && args[0][0] != '+' && args[0][0] != '-' ==>
            r == v.(status := BadPageSign))
      && (|args| == 1 && args[0][0] == '+' && !IsNumeral(args[0][1..], 10) ==>
            r == v.(status := BadPageCount(true)))
      && (|args| == 1 && args[0][0] == '-' && !IsNumeral(args[0][1..], 10) ==>
            r == v.(status := BadPageCount(false)))
  {
    TrimSplit(v.input);
    var words := SplitWhitespace(v.input);
    if |words| == 2 {
      assert IsWord(words[1]);
      FromStrRadixMeaning(words[1][1..], 10);
    }
  }

  /** `page` alone, however spaced, moves one page forward, saturating, then
      clamped, and reports the unclamped offset. */
  lemma PageAlone(v: View, fileSize: u64)
    requires !v.panicked
    requires var words := SplitWhitespace(v.input);
      |words| == 1 && ToAsciiLower(words[0]) == "page"
    ensures var o := SatAdd(v.offset, v.pageSize);
      RunCommand(v, fileSize) == v.(offset := Clamp(o, fileSize), status := MovedToNextPage(o))
  {
    TrimSplit(v.input);
  }

  /** `page +N` moves N pages forward and `page -N` moves N pages back,
      however the two words are spaced: each saturating and then clamped,
      reporting the unclamped offset, unless N pages overflow a u64, which
      aborts and changes nothing else. */
  lemma PageCountMoves(v: View, fileSize: u64, n: u64)
    requires !v.panicked
    requires var words := SplitWhitespace(v.input);
      && |words| == 2 && ToAsciiLower(words[0]) == "page"
      && (words[1][0] == '+' || words[1][0] == '-')
      && FromStrRadix(words[1][1..], 10) == Ok(n)
    ensures var forward := SplitWhitespace(v.input)[1][0] == '+';
      var r := RunCommand(v, fileSize);
      && (n * v.pageSize > U64_MAX ==> r == v.(panicked := true))
      && (n * v.pageSize <= U64_MAX ==>
            var o := if forward then SatAdd(v.offset, n * v.pageSize) else SatSub(v.offset, n * v.pageSize);
            r == v.(offset := Clamp(o, fileSize), status := MovedPages(forward, n, o)))
  {
    TrimSplit(v.input);
  }

  /** A signed count typed after `page`. */
  lemma SignedCount(sign: char, count: string)
    requires IsWord(count) && !IsWhitespace(sign)
    ensures var arg := [sign] + count; IsWord(arg) && arg[0] == sign && arg[1..] == count
  {
    var arg := [sign] + count;
    forall i | 0 <= i < |arg| ensures !IsWhitespace(arg[i]) {
      if i > 0 { assert arg[i] == count[i - 1]; }
    }
  }

  /** Away from both ends of the file, `page -N` undoes `page +N`. */
  lemma PageForwardThenBack(v: View, fileSize: u64, page: string, count: string, n: u64)
    requires !v.panicked && ToAsciiLower(page) == "page"
    requires IsWord(count) && FromStrRadix(count, 10) == Ok(n)
    requires v.offset + n * v.pageSize <= LastOffset(fileSize)
    ensures var f := RunCommand(v.(input := PageInput(page, ["+" + count])), fileSize);
      && !f.panicked && f.offset == v.offset + n * v.pageSize
      && RunCommand(f.(input := PageInput(page, ["-" + count])), fileSize).offset == v.offset
  {
    LowerIsPage(page);
    assert IsWord(page);
    SignedCount('+', count);
    SignedCount('-', count);
    PageWords(page, ["+" + count]);
    PageWords(page, ["-" + count]);
    var f := RunCommand(v.(input := PageInput(page, ["+" + count])), fileSize);
    PageCountMoves(v.(input := PageInput(page, ["+" + count])), fileSize, n);
    PageCountMoves(f.(input := PageInput(page, ["-" + count])), fileSize, n);
  }

  /** A first word that is neither `q` nor `page` is an offset to jump to,
      whatever words follow: the offset it parses to, clamped, or the parse
      error. */
  lemma OffsetWord(v: View, fileSize: u64)
    requires !v.panicked
    requires var words := SplitWhitespace(v.input);
      words != [] && ToAsciiLower(words[0]) != "q" && ToAsciiLower(words[0]) != "page"
    ensures var j := JumpCommand(v, SplitWhitespace(v.input)[0]);
      RunCommand(v, fileSize) == j.(offset := Clamp(j.offset, fileSize))
  {
    TrimSplit(v.input);
  }

  /** A word that starts with a digit is neither `q` nor `page`, and typed
      alone it is the only word. */
  lemma DigitWord(s: string)
    requires IsWord(s) && '0' <= s[0] <= '9'
    ensures SplitWhitespace(s) == [s]
    ensures ToAsciiLower(s) != "q" && ToAsciiLower(s) != "page"
  {
    SplitJoin([s]);
    assert ToAsciiLower(s)[0] == s[0];
  }

  /** Typing the label of a row (`{:08X}`) after `0x` jumps to that row's
      offset, clamped to the file. */
  lemma JumpToRowLabel(v: View, fileSize: u64, n: u64)
    requires !v.panicked && v.input == "0x" + PadHex(n, 8)
    ensures var r := RunCommand(v, fileSize);
      r.offset == Clamp(n, fileSize) && r.status == Jumped(n) && r.quit == v.quit
  {
    LabelIsWord(n);
    DigitWord(v.input);
    OffsetWord(v, fileSize);
    ParsePaddedHex(n, 8);
  }

  /** A typed row label is one word. */
  lemma LabelIsWord(n: u64)
    ensures IsWord("0x" + PadHex(n, 8))
  {
    var h := PadHex(n, 8);
    var s := "0x" + h;
    PadHexUpper(n, 8);
    forall i | 0 <= i < |s| ensures !IsWhitespace(s[i]) {
      if i >= 2 {
        assert s[i] == h[i - 2];
      }
    }
  }

  /** Example, first step: with a page of 32 bytes at offset
      0 of a large enough file, `page +2` goes to 64. */
  lemma ExamplePageForward(v: View, fileSize: u64)
    requires !v.panicked && v.offset == 0 && v.pageSize == 32 && 65 <= fileSize
    requires v.input == "page +2"
    ensures RunCommand(v, fileSize).offset == 64
  {
    var words := ["page", "+2"];
    assert SplitWhitespace(v.input) == words by {
      assert IsWord("page") && IsWord("+2");
      assert forall i :: 0 <= i < |words| ==> IsWord(words[i]);
      SplitJoin(words);
      assert Join(words) == "page" + " " + "+2" == "page +2";
    }
    assert ToAsciiLower("page") == "page";
    assert "+2"[0] == '+' && "+2"[1..] == "2";
    assert FromStrRadix("2", 10) == Ok(2);
    PageCountMoves(v, fileSize, 2);
  }

  /** Second step: `page -1` at offset 64 goes back to 32. */
  lemma ExamplePageBack(v: View, fileSize: u64)
    requires !v.panicked && v.offset == 64 && v.pageSize == 32 && 65 <= fileSize
    requires v.input == "page -1"
    ensures RunCommand(v, fileSize).offset == 32
  {
    var words := ["page", "-1"];
    assert SplitWhitespace(v.input) == words by {
      assert IsWord("page") && IsWord("-1");
      assert forall i :: 0 <= i < |words| ==> IsWord(words[i]);
      SplitJoin(words);
      assert Join(words) == "page" + " " + "-1" == "page -1";
    }
    assert ToAsciiLower("page") == "page";
    assert "-1"[0] == '-' && "-1"[1..] == "1";
    assert FromStrRadix("1", 10) == Ok(1);
    PageCountMoves(v, fileSize, 1);
  }

  /** Third step: `0x40` goes to 64. */
  lemma ExampleJump(v: View, fileSize: u64)
    requires !v.panicked && 65 <= fileSize && v.input == "0x40"
    ensures RunCommand(v, fileSize).offset == 64
  {
    assert IsWord("0x40");
    DigitWord(v.input);
    OffsetWord(v, fileSize);
    assert ToHex(64) == ToHex(4) + [HexDigit(0)] == "40";
    assert "0x40" == "0x" + PadHex(64, 2);
    ParsePaddedHex(64, 2);
  }
}
