/** The viewer's session: one `App` object whose fields the key handler, the
    command interpreter and the renderer update in place. The file is its
    immutable contents; its length is the file size read at start-up. */
module HexViewer {
  import opened Uint
  import opened OffsetParser
  import opened Tokens
  import opened Navigation
  import opened Viewport
  import opened Rows

  class App {
    const contents: seq<u8>
    const fileSize: u64
    const bytesPerLine: u64
    var currentOffset: u64
    var buffer: seq<u8>
    var lastBytesRead: nat
    var shouldQuit: bool
    var mode: Mode
    var inputBuffer: string
    var statusMessage: Status
    /** Bytes moved by a page step: one screenful at the last drawn height. */
    var defaultPageSize: u64
    /** The process has aborted (an overflow or an out-of-range slice). */
    var panicked: bool

    /** The fields that key presses and commands change. */
    function State(): View
      reads this
    {
      View(currentOffset, mode, inputBuffer, shouldQuit, defaultPageSize, statusMessage, panicked)
    }

    ghost predicate Valid()
      reads this
    {
      && |contents| == fileSize
      && 1 <= bytesPerLine && bytesPerLine * MAX_VISIBLE_LINES <= U64_MAX
      && Invariant(State(), fileSize)
    }

    /** `App::new` once the file is open: the start offset is clamped to the
        last byte (0 for an empty file) and a page is 16 lines until the
        first draw. */
    constructor (contents: seq<u8>, bytesPerLine: u64, initialOffset: u64)
      requires |contents| <= U64_MAX
      requires 1 <= bytesPerLine && bytesPerLine * MAX_VISIBLE_LINES <= U64_MAX
      ensures Valid()
      ensures this.contents == contents && fileSize == |contents| && this.bytesPerLine == bytesPerLine
      ensures currentOffset == Clamp(initialOffset, fileSize)
      ensures currentOffset == Min(initialOffset, if |contents| == 0 then 0 else |contents| - 1)
      ensures mode == Normal && inputBuffer == "" && !shouldQuit && !panicked
      ensures defaultPageSize == bytesPerLine * 16
      ensures buffer == [] && lastBytesRead == 0 && statusMessage == FileInfo(fileSize)
    {
      this.contents := contents;
      fileSize := |contents|;
      this.bytesPerLine := bytesPerLine;
      currentOffset := Min(initialOffset, SatSub(|contents|, 1));
      buffer := [];
      lastBytesRead := 0;
      shouldQuit := false;
      mode := Normal;
      inputBuffer := "";
      statusMessage := FileInfo(|contents|);
      defaultPageSize := bytesPerLine * 16;
      panicked := false;
    }

    method SetStatusMessage(message: Status)
      modifies this`statusMessage
      ensures statusMessage == message
    {
      statusMessage := message;
    }

    /** `read_current_chunk`: the page size follows the height; then a page,
        or what is left of the file, is read from the current offset. Nothing
        to read empties the buffer and reports the end of the file; a short
        read keeps only the bytes delivered; an I/O error leaves the buffer
        resized and `last_bytes_read` as it was. */
    method ReadCurrentChunk(height: u16, medium: ReadOutcome) returns (ok: bool)
      requires Valid() && !panicked
      modifies this`defaultPageSize, this`buffer, this`lastBytesRead, this`statusMessage
      ensures Valid() && !panicked
      ensures defaultPageSize == PageSize(bytesPerLine, height)
      ensures var want := BytesToRead(fileSize, currentOffset, defaultPageSize);
        && (ok <==> want == 0 || medium.Delivered?)
        && (want == 0 ==>
              buffer == [] && lastBytesRead == 0 && statusMessage == EndOfFile(currentOffset))
        && (want > 0 && medium.Delivered? ==>
              && lastBytesRead == Min(want, medium.limit)
              && buffer == contents[currentOffset .. currentOffset + lastBytesRead]
              && statusMessage == old(statusMessage))
        && (want > 0 && medium.Failed? ==>
              && buffer == Resize(old(buffer), want)
              && lastBytesRead == old(lastBytesRead)
              && statusMessage == old(statusMessage))
    {
      var linesToRead := SatSub(height, RESERVED_ROWS);
      PageSizeFits(bytesPerLine, height);
      var bytesToRead := bytesPerLine * linesToRead;
      defaultPageSize := bytesToRead;

      var actualBytesToRead := Min(fileSize - currentOffset, bytesToRead);
      if actualBytesToRead == 0 {
        buffer := [];
        lastBytesRead := 0;
        SetStatusMessage(EndOfFile(currentOffset));
        return true;
      }

      buffer := Resize(buffer, actualBytesToRead);
      match medium {
        case Failed =>
          return false;
        case Delivered(limit) =>
          var n := Min(actualBytesToRead, limit);
          buffer := contents[currentOffset .. currentOffset + n] + buffer[n..];
          lastBytesRead := n;
          if lastBytesRead < actualBytesToRead {
            buffer := buffer[..lastBytesRead];
          }
          return true;
      }
    }

    /** `handle_key_event`: the key's action in the current mode, then the
        clamp that keeps the offset inside the file. */
    method HandleKeyEvent(key: Key)
      requires Valid() && !panicked
      modifies this`currentOffset, this`mode, this`inputBuffer, this`shouldQuit, this`statusMessage, this`panicked
      ensures Valid()
      ensures State() == HandleKey(old(State()), key, fileSize, bytesPerLine)
    {
      match mode {
        case Normal =>
          if key == Char('q') || key == Char('Q') {
            shouldQuit := true;
          } else if key == Char(':') {
            mode := Command;
            inputBuffer := "";
            SetStatusMessage(CommandPrompt);
          } else if key == Down || key == Char('j') {
            currentOffset := SatAdd(currentOffset, bytesPerLine);
            SetStatusMessage(MovedTo(currentOffset));
          } else if key == Up || key == Char('k') {
            currentOffset := SatSub(currentOffset, bytesPerLine);
            SetStatusMessage(MovedTo(currentOffset));
          } else if key == PageDown || key == Char(' ') {
            currentOffset := SatAdd(currentOffset, defaultPageSize);
            SetStatusMessage(MovedTo(currentOffset));
          } else if key == PageUp {
            currentOffset := SatSub(currentOffset, defaultPageSize);
            SetStatusMessage(MovedTo(currentOffset));
          } else if key == Home {
            currentOffset := 0;
            SetStatusMessage(MovedToStart);
          } else if key == End {
            currentOffset := SatSub(fileSize, defaultPageSize);
            SetStatusMessage(MovedToEnd);
          }
        case Command =>
          match key {
            case Enter =>
              ExecuteCommand();
              if panicked {
                return;
              }
              mode := Normal;
              inputBuffer := "";
            case Esc =>
              mode := Normal;
              inputBuffer := "";
              SetStatusMessage(NormalMode);
            case Backspace =>
              if inputBuffer != [] {
                inputBuffer := inputBuffer[..|inputBuffer| - 1];
              }
            case Char(c) =>
              inputBuffer := inputBuffer + [c];
            case _ =>
          }
      }
      currentOffset := Min(currentOffset, SatSub(fileSize, 1));
    }

    /** `execute_command` on the typed input: `q`, `page`, `page +N`,
        `page -N` or an offset literal; the result is clamped. */
    method ExecuteCommand()
      requires Valid() && !panicked
      modifies this`currentOffset, this`shouldQuit, this`statusMessage, this`panicked
      ensures Valid()
      ensures State() == RunCommand(old(State()), fileSize)
    {
      var inputStr := Trim(inputBuffer);
      var parts := SplitWhitespace(inputStr);
      if parts == [] {
        SetStatusMessage(NoCommand);
        return;
      }

      var cmd := ToAsciiLower(parts[0]);
      if cmd == "q" {
        shouldQuit := true;
        return;
      }

      if cmd == "page" {
        ExecutePage(parts[1..]);
        if panicked {
          return;
        }
      } else {
        match ParseOffset(parts[0]) {
          case Ok(parsedOffset) =>
            currentOffset := parsedOffset;
            SetStatusMessage(Jumped(currentOffset));
          case Err(e) =>
            SetStatusMessage(BadOffset(e));
        }
      }
      currentOffset := Min(currentOffset, SatSub(fileSize, 1));
    }

    /** The `page` branch of `execute_command`, given the words after `page`:
        one page forward, or N pages forward or back, before the clamp. */
    method ExecutePage(args: seq<string>)
      requires Valid() && !panicked
      modifies this`currentOffset, this`statusMessage, this`panicked
      ensures mode == old(mode) && inputBuffer == old(inputBuffer)
      ensures State() == PageCommand(old(State()), args)
    {
      if |args| == 1 {
        var pageMoveStr := args[0];
        if |pageMoveStr| > 0 && pageMoveStr[0] == '+' {
          match FromStrRadix(pageMoveStr[1..], 10) {
            case Ok(pages) =>
              if pages * defaultPageSize > U64_MAX {
                panicked := true;
                return;
              }
              currentOffset := SatAdd(currentOffset, pages * defaultPageSize);
              SetStatusMessage(MovedPages(true, pages, currentOffset));
            case Err(_) =>
              SetStatusMessage(BadPageCount(true));
          }
        } else if |pageMoveStr| > 0 && pageMoveStr[0] == '-' {
          match FromStrRadix(pageMoveStr[1..], 10) {
            case Ok(pages) =>
              if pages * defaultPageSize > U64_MAX {
                panicked := true;
                return;
              }
              currentOffset := SatSub(currentOffset, pages * defaultPageSize);
              SetStatusMessage(MovedPages(false, pages, currentOffset));
            case Err(_) =>
              SetStatusMessage(BadPageCount(false));
          }
        } else {
          SetStatusMessage(BadPageSign);
        }
      } else if |args| == 0 {
        currentOffset := SatAdd(currentOffset, defaultPageSize);
        SetStatusMessage(MovedToNextPage(currentOffset));
      } else {
        SetStatusMessage(BadPageFormat);
      }
    }

    /** The content area of `ui`: read the chunk for the area's height (an
        I/O error becomes the status), then build one row per
        `bytes_per_line` bytes read. After a failed read the buffer is
        resized but `last_bytes_read` is kept from the previous draw: when it
        exceeds the buffer, slicing the buffer aborts; otherwise the rows show
        the resized buffer's stale bytes. */
    method Draw(height: u16, medium: ReadOutcome) returns (rows: seq<string>)
      requires Valid() && !panicked
      modifies this`defaultPageSize, this`buffer, this`lastBytesRead, this`statusMessage, this`panicked
      ensures Valid()
      ensures defaultPageSize == PageSize(bytesPerLine, height)
      ensures var want := BytesToRead(fileSize, currentOffset, defaultPageSize);
        && (panicked <==> want > 0 && medium.Failed? && old(lastBytesRead) > want)
        && (want == 0 || medium.Delivered? ==>
              && lastBytesRead <= want
              && buffer == contents[currentOffset .. currentOffset + lastBytesRead])
        && (want == 0 ==> statusMessage == EndOfFile(currentOffset))
        && (want > 0 && medium.Delivered? ==> statusMessage == old(statusMessage))
        && (want > 0 && medium.Failed? ==>
              && buffer == Resize(old(buffer), want)
              && lastBytesRead == old(lastBytesRead)
              && statusMessage == ReadFailed)
      ensures panicked ==> rows == []
      ensures !panicked ==>
        && |rows| == RowCount(lastBytesRead, bytesPerLine)
        && lastBytesRead <= |buffer|
        && forall r :: 0 <= r < |rows| ==>
             && r * bytesPerLine < lastBytesRead
             && rows[r] == FormatRow(currentOffset + r * bytesPerLine,
                                     RowChunk(buffer, lastBytesRead, bytesPerLine, r), bytesPerLine)
    {
      var ok := ReadCurrentChunk(height, medium);
      if !ok {
        SetStatusMessage(ReadFailed);
      }
      if lastBytesRead > |buffer| {
        panicked := true;
        return [];
      }
      rows := RenderRows(buffer, lastBytesRead, currentOffset, bytesPerLine);
    }
  }
}
