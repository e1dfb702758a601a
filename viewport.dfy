/** Viewport sizing: how many bytes one screenful holds and how many of
    them `read_current_chunk` asks the file for. */
module Viewport {
  import opened Uint

  /** Rows subtracted from the content area's height (src/main.rs:119). */
  const RESERVED_ROWS: nat := 4

  /** The most lines a u16 height can leave for bytes. */
  const MAX_VISIBLE_LINES: nat := 0xFFFF - RESERVED_ROWS

  /** `height.saturating_sub(4)`. */
  function VisibleLines(height: u16): (n: nat)
    ensures n <= MAX_VISIBLE_LINES
    ensures height <= RESERVED_ROWS <==> n == 0
    ensures 0 < n ==> n + RESERVED_ROWS == height
  {
    SatSub(height, RESERVED_ROWS)
  }

  /** The bytes of one screenful: `bytes_per_line * lines_to_read`. */
  function PageSize(bytesPerLine: nat, height: u16): nat {
    bytesPerLine * VisibleLines(height)
  }

  /** A page always fits in a u64 when the line width leaves room for the
      tallest terminal. */
  lemma PageSizeFits(bytesPerLine: nat, height: u16)
    requires bytesPerLine * MAX_VISIBLE_LINES <= U64_MAX
    ensures PageSize(bytesPerLine, height) <= bytesPerLine * MAX_VISIBLE_LINES
  {
    var n := VisibleLines(height);
    assert bytesPerLine * n <= bytesPerLine * MAX_VISIBLE_LINES by {
      assert bytesPerLine * (MAX_VISIBLE_LINES - n) >= 0;
    }
  }

  /** `(file_size - current_offset).min(bytes_to_read)`: a whole page, or what
      is left of the file when that is less. */
  function BytesToRead(fileSize: u64, offset: u64, pageSize: nat): (n: nat)
    requires offset <= fileSize
    ensures n <= pageSize && n <= fileSize - offset
    ensures n == pageSize || n == fileSize - offset
  {
    Min(fileSize - offset, pageSize)
  }

  /** What the seek-and-read on the file gives: at most `limit` bytes (a
      short read), or an I/O error. */
  datatype ReadOutcome = Delivered(limit: nat) | Failed

  /** `Vec::resize(n, 0)`: the first `n` bytes kept, zeros added after them. */
  function Resize(buffer: seq<u8>, n: nat): (r: seq<u8>)
    ensures |r| == n
    ensures forall i :: 0 <= i < n ==> r[i] == if i < |buffer| then buffer[i] else 0
  {
    if n <= |buffer| then buffer[..n] else buffer + seq(n - |buffer|, _ => 0)
  }

  /** With the offset inside the file, nothing is read exactly when the file
      is empty or the terminal leaves no line for bytes. */
  lemma NothingToRead(fileSize: u64, offset: u64, bytesPerLine: nat, height: u16)
    requires offset <= SatSub(fileSize, 1) && 1 <= bytesPerLine
    ensures BytesToRead(fileSize, offset, PageSize(bytesPerLine, height)) == 0
      <==> fileSize == 0 || height <= RESERVED_ROWS
  {
    var n := VisibleLines(height);
    if n > 0 {
      assert bytesPerLine * n >= n by {
        assert bytesPerLine * n == (bytesPerLine - 1) * n + n;
        assert (bytesPerLine - 1) * n >= 0;
      }
    }
  }

  /** Example: 100 bytes, offset 90, a content area 20 rows
      high and 16 bytes per line read 10 bytes. */
  lemma TailExample()
    ensures PageSize(16, 20) == 256
    ensures BytesToRead(100, 90, PageSize(16, 20)) == 10
  {
  }
}
