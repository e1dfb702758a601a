# hexv — a verified model of the navigation and rendering core

hexv is a terminal hex viewer. It shows a file as rows of `{:08X}` offsets,
two-digit hexadecimal byte cells and a printable-ASCII column. The user moves
through the file with keys (line and page steps, Home, End) and with typed
commands (`q`, `page`, `page +N`, `page -N`, or an offset in decimal or
`0x` hexadecimal). This project models the core of `src/main.rs` in Dafny and
proves what that code promises:

- **the offset parser** `parse_offset_or_length`, including the standard
  library's `u64::from_str_radix` digit loop with its error kinds
  (`OffsetParser`);
- **the key state machine** `handle_key_event`, with its two modes and the
  hard clamp of the offset into the file (`Navigation`, `HexViewer.App`);
- **the command interpreter** `execute_command`, with the `str::trim`,
  `split_whitespace` and `to_ascii_lowercase` it relies on (`Tokens`,
  `Navigation`, `HexViewer.App`);
- **the viewport read** `read_current_chunk`: the page size follows the
  terminal height, and the read fetches a page or the rest of the file
  (`Viewport`, `HexViewer.App`);
- **the row builder** in `ui`, which cuts the bytes read into rows of
  `bytes_per_line` and renders each row (`Rows`, `HexViewer.App.Draw`).

The module structure:

| module | file | contents |
|---|---|---|
| `Uint` | uint.dfy | u8/u16/u64 ranges, `min`, `saturating_add`, `saturating_sub` |
| `HexFormat` | hex_format.dfy | `{:X}` and `{:0wX}` rendering |
| `OffsetParser` | offset_parser.dfy | `from_str_radix` and `parse_offset_or_length`, and what they accept |
| `Tokens` | tokens.dfy | `trim`, `split_whitespace`, `to_ascii_lowercase` |
| `Navigation` | navigation.dfy | the key and command engine as functions on a `View` of the state, and its properties |
| `Viewport` | viewport.dfy | page size and bytes to read |
| `Rows` | rows.dfy | the row layout, and the loops that build the rows |
| `HexViewer` | app.dfy | class `App`: the session object whose fields the methods update in place |

`App`'s methods are imperative, as in the source. Each method is proved to
compute a pure function: `HandleKeyEvent` computes `Navigation.HandleKey`,
`ExecuteCommand` computes `Navigation.RunCommand`, and `Draw` computes the
rows that `Rows.FormatRow` describes. The properties are proved about those
functions.

Modelling choices:

- The file is the immutable byte sequence `App.contents`. Its length is the
  file size.
- The outcome of the seek and read is the parameter `ReadOutcome`. Either
  the file delivers at most `limit` bytes (a short read), or the read fails.
- The status line is the datatype `Status`. It records the kind of message
  and the numbers it shows, not its wording.
- Two situations abort the process: an overflowing `pages *
  default_page_size` (debug build), and slicing the buffer after a failed
  read. Both set `App.panicked` and change nothing further.
- Integers are unbounded in Dafny. Where the source uses u64 or u16 ranges,
  subset types enforce them. Saturation is written out in `SatAdd` and
  `SatSub`.

Two behaviours of the code are easy to overlook, and the model keeps both:

- `u64::from_str_radix` accepts one leading `+`. So `+26` and `0x+1A` both
  parse to 26, and `page ++3` moves three pages (`OffsetParser.Unsigned`,
  `OffsetParser.ParseOffsetExamples`).
- In a debug build, the unchecked product `pages * default_page_size`
  (src/main.rs lines 241 and 256) aborts once it leaves the u64 range
  (`Navigation.CommandPanics`).

## Model

| member | source | states |
|---|---|---|
| Uint.Min | src/main.rs:98 | the result is one of the two arguments and is at most both |
| Uint.SatAdd | src/main.rs:163-165 | `saturating_add`: the exact sum when it fits in a u64; u64::MAX otherwise; never below either argument |
| Uint.SatSub | src/main.rs:169-171 | `saturating_sub`: the exact difference when it is not negative; 0 otherwise; never above the minuend |
| HexFormat.HexDigit | src/main.rs:335 | an upper-case hexadecimal digit, and a decimal digit exactly for values below 10 |
| HexFormat.ToHex | src/main.rs:335 | `{:X}` is non-empty and has no leading zero |
| HexFormat.ToHexUpper | src/main.rs:335 | `{:X}` writes only the digits 0-9 and the upper-case letters A-F |
| HexFormat.PadHex | src/main.rs:335 | `{:0wX}` has at least `width` characters, and no more than it needs |
| HexFormat.PadHexUpper | src/main.rs:335 | `{:08X}` writes only the digits 0-9 and the upper-case letters A-F |
| OffsetParser.CharValue | src/main.rs:44 | `char::to_digit` is below 10 exactly for the decimal digits |
| OffsetParser.AccumulateValue | src/main.rs:44 | the digit loop succeeds iff all further characters are digits and the whole numeral fits in a u64, and yields its value |
| OffsetParser.FromStrRadixMeaning | src/main.rs:44-46 | `from_str_radix` succeeds iff the input is an optional `+` followed by a non-empty numeral whose value fits in a u64, and returns that value |
| OffsetParser.ParseOffsetMeaning | src/main.rs:42-48 | `parse_offset_or_length` succeeds iff the input is a hexadecimal numeral after `0x`/`0X`, or a decimal numeral otherwise, and returns its value |
| OffsetParser.ToHexValue | src/main.rs:335 | `{:X}` of n consists of hexadecimal digits whose value is n |
| OffsetParser.PadHexValue | src/main.rs:335 | `{:0wX}` of n consists of hexadecimal digits whose value is n, and has no sign |
| OffsetParser.ParsePaddedHex | src/main.rs:42-48 | a u64 rendered with `{:0wX}` and typed back after `0x` parses to the same number (round trip) |
| OffsetParser.ParseOffsetExamples | src/main.rs:42-48 | "0x1A", "26" and "+26" give 26; "0xFF" gives 255; "-1" and "0xZZ" fail with InvalidDigit; "" and "0x" fail with Empty |
| Tokens.WordLength | src/main.rs:220 | the leading word is the maximal run of non-whitespace characters at the start of the input |
| Tokens.SplitWhitespace | src/main.rs:220 | `split_whitespace` yields only non-empty words free of whitespace |
| Tokens.ToAsciiLower | src/main.rs:227 | each character is lowered exactly when it is an ASCII capital; the length is kept |
| Tokens.SplitJoin | src/main.rs:220 | splitting words joined by single spaces gives the words back (round trip) |
| Tokens.SplitKeepsCharacters | src/main.rs:220 | the words together hold exactly the input's non-whitespace characters, in order |
| Tokens.SplitEmpty | src/main.rs:220-222 | the split is empty iff the input is all whitespace |
| Tokens.TrimSplit | src/main.rs:219-220 | trimming before the split does not change the words |
| Tokens.LowerIsQ | src/main.rs:227-228 | a word lowers to `q` iff it is `q` or `Q` |
| Tokens.LowerIsPage | src/main.rs:227-233 | a word lowers to `page` iff it spells `page` in any mix of cases |
| Navigation.Clamp | src/main.rs:215 | the clamped offset lies in [0, max(file size, 1)), is never above the input, and keeps an offset that is already inside |
| Navigation.HandleKey | src/main.rs:153-216 | after any key in either mode, the offset is at most the last byte and the page size is unchanged; only Enter in Command mode can abort, and it then leaves the offset |
| Navigation.PageCommand | src/main.rs:233-279 | a `page` command changes only the offset, the status and the abort flag, and an abort leaves the offset |
| Navigation.RunCommand | src/main.rs:218-295 | a command keeps the offset inside the file, changes neither the page size nor the mode nor the input, and an abort leaves the offset |
| Navigation.HandleKeyKeepsInvariant | src/main.rs:153-216 | one key press keeps the invariant: offset inside the file, and no pending input in Normal mode |
| Navigation.RunKeysKeepsInvariant | src/main.rs:153-216 | every sequence of key presses keeps the invariant and the page size |
| Navigation.NormalModeMoves | src/main.rs:155-192 | Down/j and PageDown/Space add a line or a page, stopping at the last byte; Up/k and PageUp subtract, stopping at 0; Home gives 0; End gives file size minus page size, clamped; an unbound key changes nothing |
| Navigation.NormalModeSwitches | src/main.rs:155-161 | `q`/`Q` sets quit and `:` enters Command mode (both iff); neither moves the offset; the input stays empty |
| Navigation.LineStepsCancel | src/main.rs:162-173 | Down then Up returns to the same offset, away from the end of the file |
| Navigation.PageStepsCancel | src/main.rs:174-183 | PageDown then PageUp returns to the same offset, away from the end of the file |
| Navigation.HomeIdempotent | src/main.rs:184-187 | Home gives offset 0, and pressing it again changes nothing |
| Navigation.EndIdempotent | src/main.rs:188-191 | pressing End again changes nothing while the page size stays |
| Navigation.EndShowsLastByte | src/main.rs:188-191 | after End, the offset is inside the file and the last byte lies within one page of it |
| Navigation.TypeThenErase | src/main.rs:205-210 | in Command mode, typing a character and then Backspace restores the state |
| Navigation.CommandModeEditing | src/main.rs:205-210 | Backspace drops the last typed character and does nothing on empty input; a character key appends it; neither leaves Command mode or moves the offset |
| Navigation.LeavingCommandMode | src/main.rs:195-204 | Esc and Enter return to Normal mode with empty input, unless the command aborted; Esc keeps the offset |
| Navigation.CommandPanics | src/main.rs:233-265 | a command aborts iff its words are `page` and a signed count whose N pages exceed u64::MAX |
| Navigation.EmptyCommand | src/main.rs:219-225 | an all-whitespace input reports that no command was entered and changes nothing else |
| Navigation.QuitWhateverFollows | src/main.rs:227-231 | a first word `q` or `Q` sets quit and changes nothing else, whatever words follow and however they are spaced |
| Navigation.CommandErrorsKeepOffset | src/main.rs:218-295 | a command that ends with an error status and does not abort leaves the offset where it was, also right after another error; only a first word `q` changes the quit flag; a command that turns a non-error status into an error neither aborts nor quits |
| Navigation.PageWords | src/main.rs:219-233 | `page` and its arguments typed one space apart split back into those words |
| Navigation.PageCommandErrors | src/main.rs:233-279 | for any input whose first word lowers to `page`: two or more further words, a second word without a sign, or a count that is no numeral after its sign each report their own error and change nothing else |
| Navigation.PageAlone | src/main.rs:271-276 | `page` as the only word, however spaced, moves one page forward, saturating, then clamped, and reports the unclamped offset; nothing else changes |
| Navigation.PageCountMoves | src/main.rs:234-265 | `page +N` and `page -N`, however spaced: N pages overflowing a u64 aborts and changes nothing else; otherwise they move N pages, saturating, then clamped, and report the unclamped offset |
| Navigation.PageForwardThenBack | src/main.rs:236-265 | away from both ends of the file, `page -N` undoes `page +N` |
| Navigation.DigitWord | src/main.rs:227-233 | a word starting with a digit is neither `q` nor `page`, and typed alone it is the only word |
| Navigation.OffsetWord | src/main.rs:280-294 | a first word that is neither `q` nor `page` (in any case) is parsed as an offset, whatever follows: the jump to that offset, clamped, or its parse error |
| Navigation.JumpToRowLabel | src/main.rs:280-294 | typing a row's `{:08X}` label after `0x` jumps to that offset, clamped |
| Navigation.ExamplePageForward | src/main.rs:236-250 | page size 32 at offset 0: `page +2` gives 64 |
| Navigation.ExamplePageBack | src/main.rs:251-265 | page size 32 at offset 64: `page -1` gives 32 |
| Navigation.ExampleJump | src/main.rs:280-294 | `0x40` gives 64 in a file of at least 65 bytes |
| Viewport.VisibleLines | src/main.rs:119 | `height.saturating_sub(4)` is 0 iff height ≤ 4, and otherwise height − 4 |
| Viewport.PageSizeFits | src/main.rs:120-121 | a page fits in a u64 whenever the line width leaves room for the tallest terminal |
| Viewport.BytesToRead | src/main.rs:124-125 | the read is a whole page, or the rest of the file when that is less |
| Viewport.Resize | src/main.rs:137 | `Vec::resize(n, 0)` keeps the first n bytes and pads with zeros |
| Viewport.NothingToRead | src/main.rs:119-135 | with the offset inside the file, nothing is read iff the file is empty or the height is at most 4 |
| Viewport.TailExample | src/main.rs:119-125 | 100-byte file, offset 90, height 20, 16 bytes per line: 10 bytes are read |
| Rows.ByteHex | src/main.rs:341 | `{:02X}` of a byte is two characters |
| Rows.ByteHexUpper | src/main.rs:341 | those two characters are digits or upper-case letters A-F |
| Rows.AsciiChar | src/main.rs:348-354 | a byte shows as itself iff it is in 32..=126, otherwise as `.` |
| Rows.HexCell | src/main.rs:339-345 | every column cell is three characters |
| Rows.HexCells | src/main.rs:339-345 | n columns take 3n characters |
| Rows.RowShape | src/main.rs:330-333 | row r exists iff it starts before the bytes read; every row but the last is full; the last holds 1 to `bytes_per_line` bytes |
| Rows.RowCountIs | src/main.rs:330 | the row count is the least n with count ≤ n·width, i.e. ceil(count / width) |
| Rows.ByteInRow | src/main.rs:330-333 | each byte read appears in row k / width at column k % width |
| Rows.PaddingOnlyInLastRow | src/main.rs:330-345 | every row holds 1 to `bytes_per_line` bytes, and every row but the last is full, so only the last row is padded |
| Rows.HexCellsAt | src/main.rs:339-345 | column j occupies characters 3j to 3j+3 of the hex cells |
| Rows.HexCellsLayout | src/main.rs:339-345 | a row has exactly `bytes_per_line` cells: its bytes' `{:02X} ` in order, then three-space padding cells |
| Rows.AsciiColumn | src/main.rs:348-355 | the ASCII column has one character per byte of the row, and each is that byte's `AsciiChar` |
| Rows.ByteHexParses | src/main.rs:341 | a cell's two digits read back in base 16 give the byte (round trip) |
| Rows.AsciiExample | src/main.rs:348-355 | bytes 0x41, 0x20, 0x00 render as "A ." |
| Rows.ShortRowExample | src/main.rs:339-345 | 10 bytes at 16 per line make one row whose columns 10 to 15 are padding |
| Rows.HexSpans | src/main.rs:335-345 | the column loop builds the row's label and its `bytes_per_line` cells |
| Rows.AsciiSpans | src/main.rs:348-355 | the byte loop renders each byte of the row |
| Rows.BuildHalves | src/main.rs:330-359 | the stepped loop builds ceil(count/width) hex halves and ASCII halves; row r is the row starting at byte r·width |
| Rows.JoinHalves | src/main.rs:362-368 | each row is its hex half, `" \| "` and its ASCII half |
| Rows.RenderRows | src/main.rs:327-368 | the dump has ceil(count/width) rows; row r is the formatted row of bytes r·width up to (r+1)·width, at offset base + r·width |
| HexViewer.App.constructor | src/main.rs:92-108 | the start offset is min(initial offset, file size ⊖ 1); the view starts in Normal mode with no input; a page is 16 lines; the status reports the file size |
| HexViewer.App.SetStatusMessage | src/main.rs:148-151 | the status becomes the message and nothing else changes |
| HexViewer.App.ReadCurrentChunk | src/main.rs:118-146 | the page size follows the height; nothing to read empties the buffer and reports end of file; a delivered read leaves the buffer equal to the first `last_bytes_read` ≤ wanted bytes of the file at the offset; a failed read leaves the buffer resized |
| HexViewer.App.HandleKeyEvent | src/main.rs:153-216 | the object's new state is `HandleKey` of its old state, and the invariant holds again |
| HexViewer.App.ExecuteCommand | src/main.rs:218-295 | the object's new state is `RunCommand` of its old state, and the invariant holds again |
| HexViewer.App.ExecutePage | src/main.rs:233-279 | the object's new state is `PageCommand` of its old state, with the words after `page` |
| HexViewer.App.Draw | src/main.rs:321-368 | reads the chunk and renders it. Nothing to read reports end of file; a delivered read keeps the status and leaves the buffer equal to the file's bytes at the offset; a failed read reports ReadFailed, leaves the buffer resized and `last_bytes_read` as it was. The draw aborts iff that stale `last_bytes_read` exceeds the resized buffer; otherwise the rows are exactly the formatted rows of the first `last_bytes_read` bytes of the buffer |

## Left out

- Terminal setup and teardown (raw mode, alternate screen, cursor), lines 415-431: these are terminal I/O.
- The ratatui layout, widgets, styles and cursor placement, lines 299-319 and 370-409: these are library UI code. `Draw` takes the content area's height as a parameter and returns the row strings.
- The event loop, lines 440-459: event polling and reading are I/O, and so is the second `event::read()` in the resize branch. Only key presses reach `HandleKeyEvent`, which matches the `KeyEventKind::Press` filter. The resize re-read at line 451 is `ReadCurrentChunk` with the whole terminal height, not the content area's. An I/O error there ends `run_app` instead of setting a status; the model does not capture that.
- The five-second staleness of the status line, lines 106, 150 and 377: this is wall-clock time. The status is kept as the last message set.
- The wording of status messages, and the `Display` text of parse errors (line 290): the model records the message kind, its numbers and the `ParseError` kind.
- Command-line parsing with clap, lines 24-39 and 413, and opening the file with its metadata, lines 79-90: this is I/O. The constructor receives the file's contents and the already-parsed start offset, and `file_path` is not modelled.
- HexViewer.App.constructor: requires `bytes_per_line ≥ 1` and `bytes_per_line · 65531 ≤ u64::MAX`. The source panics in `step_by(0)` when the width is 0 (line 330), and a usize overflow at line 92 or 120 is not modelled.
- ExecutePage, PageCommand: release builds wrap `pages * default_page_size` modulo 2^64 instead of aborting. The model follows the debug build, which aborts.
- Which bytes a read delivers: `ReadOutcome` fixes their number, and the bytes are always the file's bytes at the offset. Concurrent changes to the file are not modelled.
