/** The hex/ASCII dump: the buffer cut into rows of `bytes_per_line` bytes,
    each shown as an `{:08X}` offset, one `{:02X}` cell per column (blank
    cells after the last byte of a short row), a separator, and the
    printable-ASCII rendering of the row's bytes. */
module Rows {
  import opened Uint
  import opened HexFormat
  import opened OffsetParser

  /** `{:02X}` of a byte. */
  function ByteHex(b: u8): (s: string)
    ensures |s| == 2
  {
    assert b >= 16 ==> ToHex(b) == ToHex(b / 16) + [HexDigit(b % 16)];
    PadHex(b, 2)
  }

  /** A byte's cell digits are upper-case hexadecimal. */
  lemma ByteHexUpper(b: u8)
    ensures UpperHex(ByteHex(b))
  {
    PadHexUpper(b, 2);
  }

  /** The ASCII column's character for a byte: the byte itself when it is
      printable (32 to 126), otherwise '.'. */
  function AsciiChar(b: u8): (c: char)
    ensures 32 <= c as int <= 126
    ensures c as int == b <==> 32 <= b <= 126
    ensures c as int != b ==> c == '.'
  {
    if 32 <= b <= 126 then b as char else '.'
  }

  /** Column `j` of a row: the byte's two digits and a space, or three
      spaces where the row has no byte. */
  function HexCell(chunk: seq<u8>, j: nat): (s: string)
    ensures |s| == 3
  {
    if j < |chunk| then ByteHex(chunk[j]) + " " else "   "
  }

  /** The first `n` columns of a row. */
  function HexCells(chunk: seq<u8>, n: nat): (s: string)
    ensures |s| == 3 * n
  {
    if n == 0 then "" else HexCells(chunk, n - 1) + HexCell(chunk, n - 1)
  }

  /** The ASCII column: one character per byte of the row. */
  function AsciiColumn(chunk: seq<u8>): (s: string)
    ensures |s| == |chunk| && forall j :: 0 <= j < |chunk| ==> s[j] == AsciiChar(chunk[j])
  {
    seq(|chunk|, j requires 0 <= j < |chunk| => AsciiChar(chunk[j]))
  }

  /** `{:08X}: `. */
  function OffsetLabel(offset: nat): string {
    PadHex(offset, 8) + ": "
  }

  /** The hex half of a row: its offset label and `width` columns. */
  function HexLine(offset: nat, chunk: seq<u8>, width: nat): string {
    OffsetLabel(offset) + HexCells(chunk, width)
  }

  /** A whole row: the hex half, the separator, the ASCII column. */
  function FormatRow(offset: nat, chunk: seq<u8>, width: nat): string {
    HexLine(offset, chunk, width) + " | " + AsciiColumn(chunk)
  }

  /** The number of rows `count` bytes fill: ceil(count / width). */
  function RowCount(count: nat, width: nat): nat
    requires 1 <= width
  {
    (count + width - 1) / width
  }

  /** The bytes of row `r`: `buffer[r*width .. min((r+1)*width, count)]`. */
  function RowChunk(buffer: seq<u8>, count: nat, width: nat, r: nat): seq<u8>
    requires 1 <= width && count <= |buffer| && r * width <= count
  {
    buffer[r * width .. Min(r * width + width, count)]
  }

  // ---------------------------------------------------------------------
  // Properties of the layout

  lemma DivideExactly(x: nat, w: nat, n: nat)
    requires 1 <= w && n * w <= x < n * w + w
    ensures x / w == n
  {
    var q := x / w;
    assert x == q * w + x % w;
    if q < n {
      MulLe(q + 1, n, w);
      assert false;
    } else if q > n {
      MulLe(n + 1, q, w);
      assert false;
    }
  }

  lemma MulLe(a: nat, b: nat, w: nat)
    requires a <= b
    ensures a * w <= b * w
  {
    assert b * w == a * w + (b - a) * w;
  }

  /** Row `r` of `count` bytes exists exactly when it starts before `count`;
      every row but the last is full, and the last holds the remaining 1 to
      `width` bytes. */
  lemma RowShape(count: nat, width: nat, r: nat)
    requires 1 <= width
    ensures r < RowCount(count, width) <==> r * width < count
    ensures r + 1 < RowCount(count, width) ==> r * width + width <= count
    ensures r + 1 == RowCount(count, width) ==> r * width < count <= r * width + width
  {
    var n := RowCount(count, width);
    var x := count + width - 1;
    DivideExactly(x, width, n) by {
      assert n * width <= x < n * width + width by {
        assert x == n * width + x % width;
      }
    }
    if r < n {
      MulLe(r + 1, n, width);
    } else {
      MulLe(n, r, width);
    }
    if r + 1 < n {
      MulLe(r + 2, n, width);
    }
  }

  /** The row count is the least number of rows that holds `count` bytes. */
  lemma RowCountIs(count: nat, width: nat, n: nat)
    requires 1 <= width && count <= n * width && (n == 0 || (n - 1) * width < count)
    ensures RowCount(count, width) == n
  {
    if n == 0 {
      DivideExactly(count + width - 1, width, 0);
    } else {
      assert (n - 1) * width == n * width - width;
      DivideExactly(count + width - 1, width, n);
    }
  }

  /** Every row but the last holds `width` bytes, so only the last row has
      padding cells; every row holds at least one byte. */
  lemma PaddingOnlyInLastRow(buffer: seq<u8>, count: nat, width: nat, r: nat)
    requires 1 <= width && count <= |buffer| && r < RowCount(count, width)
    ensures r * width < count
    ensures 1 <= |RowChunk(buffer, count, width, r)| <= width
    ensures r + 1 < RowCount(count, width) ==> |RowChunk(buffer, count, width, r)| == width
  {
    RowShape(count, width, r);
  }

  /** Every byte below `count` appears once, in row k / width at column
      k % width. */
  lemma ByteInRow(buffer: seq<u8>, count: nat, width: nat, k: nat)
    requires 1 <= width && count <= |buffer| && k < count
    ensures (k / width) * width <= k < count
    ensures k / width < RowCount(count, width)
    ensures RowChunk(buffer, count, width, k / width)[k % width] == buffer[k]
  {
    var r := k / width;
    assert k == r * width + k % width;
    RowShape(count, width, r);
  }

  /** Column j of the first n columns sits at characters 3j to 3j+3. */
  lemma {:induction false} HexCellsAt(chunk: seq<u8>, n: nat, j: nat)
    requires j < n
    ensures HexCells(chunk, n)[3 * j .. 3 * j + 3] == HexCell(chunk, j)
    decreases n
  {
    var prefix := HexCells(chunk, n - 1);
    SliceOfAppend(prefix, HexCell(chunk, n - 1), 3 * j);
    if j < n - 1 {
      HexCellsAt(chunk, n - 1, j);
    }
  }

  /** A three-character slice of `a + b` lies in `a` or is `b` itself. */
  lemma SliceOfAppend(a: string, b: string, k: nat)
    requires |b| == 3 && |a| % 3 == 0 && k % 3 == 0 && k <= |a|
    ensures k < |a| ==> (a + b)[k .. k + 3] == a[k .. k + 3]
    ensures k == |a| ==> (a + b)[k .. k + 3] == b
  {
  }

  /** A row's hex half has exactly `width` cells of three characters: the
      row's bytes in order, then blank padding cells only after them. */
  lemma HexCellsLayout(chunk: seq<u8>, width: nat, j: nat)
    requires j < width
    ensures |HexCells(chunk, width)| == 3 * width
    ensures j < |chunk| ==> HexCells(chunk, width)[3 * j .. 3 * j + 3] == ByteHex(chunk[j]) + " "
    ensures j >= |chunk| ==> HexCells(chunk, width)[3 * j .. 3 * j + 3] == "   "
  {
    HexCellsAt(chunk, width, j);
  }

  /** The two hex digits of a byte read back as a hexadecimal numeral give the byte. */
  lemma ByteHexParses(b: u8)
    ensures FromStrRadix(ByteHex(b), 16) == Ok(b)
  {
    PadHexValue(b, 2);
    FromStrRadixMeaning(ByteHex(b), 16);
  }

  /** Example: bytes 0x41, 0x20, 0x00 show as "A .". */
  lemma AsciiExample()
    ensures AsciiColumn([0x41, 0x20, 0x00]) == "A ."
  {
  }

  /** Example: 10 bytes at 16 per line make one row with
      6 padding cells. */
  lemma ShortRowExample(chunk: seq<u8>, j: nat)
    requires |chunk| == 10 && 10 <= j < 16
    ensures RowCount(10, 16) == 1
    ensures HexCells(chunk, 16)[3 * j .. 3 * j + 3] == "   "
  {
    HexCellsLayout(chunk, 16, j);
  }

  // ---------------------------------------------------------------------
  // The row-building loops of the renderer

  /** The hex spans of one row: the label, then for each column j the byte
      at `i + j` while that is below `count`, else padding. */
  method HexSpans(lineOffset: u64, chunk: seq<u8>, i: nat, count: nat, width: nat) returns (line: string)
    requires i < count && |chunk| == Min(i + width, count) - i
    ensures line == HexLine(lineOffset, chunk, width)
  {
    var cells := "";
    var j := 0;
    while j < width
      invariant 0 <= j <= width
      invariant cells == HexCells(chunk, j)
    {
      assert i + j < count <==> j < |chunk|;
      if i + j < count {
        cells := cells + (ByteHex(chunk[j]) + " ");
      } else {
        cells := cells + "   ";
      }
      j := j + 1;
    }
    line := OffsetLabel(lineOffset) + cells;
  }

  /** The ASCII spans of one row, one per byte. */
  method AsciiSpans(chunk: seq<u8>) returns (text: string)
    ensures |text| == |chunk|
    ensures forall j :: 0 <= j < |chunk| ==> text[j] == AsciiChar(chunk[j])
  {
    text := "";
    for j := 0 to |chunk|
      invariant |text| == j
      invariant forall m :: 0 <= m < j ==> text[m] == AsciiChar(chunk[m])
    {
      if 32 <= chunk[j] <= 126 {
        text := text + [chunk[j] as char];
      } else {
        text := text + ".";
      }
    }
  }

  lemma NextRow(buffer: seq<u8>, count: nat, width: nat, n: nat, i: nat)
    requires 1 <= width && count <= |buffer| && i == n * width && i < count
    ensures RowChunk(buffer, count, width, n) == buffer[i..Min(i + width, count)]
    ensures (n + 1) * width == i + width && n * width < count
  {
  }

  /** Row `r` of the dump has the hex half `hex` and the ASCII half `ascii`. */
  predicate RowHalves(buffer: seq<u8>, count: nat, base: nat, width: nat, r: nat, hex: string, ascii: string)
    requires 1 <= width && count <= |buffer|
  {
    && r * width < count
    && hex == HexLine(base + r * width, RowChunk(buffer, count, width, r), width)
    && ascii == AsciiColumn(RowChunk(buffer, count, width, r))
  }

  /** Appending the next row's halves keeps every row's halves right. */
  lemma ExtendHalves(buffer: seq<u8>, count: nat, base: nat, width: nat,
                     hexLines: seq<string>, asciiLines: seq<string>, hex: string, ascii: string)
    requires 1 <= width && count <= |buffer| && |hexLines| == |asciiLines|
    requires forall r :: 0 <= r < |hexLines| ==>
      RowHalves(buffer, count, base, width, r, hexLines[r], asciiLines[r])
    requires RowHalves(buffer, count, base, width, |hexLines|, hex, ascii)
    ensures forall r :: 0 <= r < |hexLines| + 1 ==>
      RowHalves(buffer, count, base, width, r, (hexLines + [hex])[r], (asciiLines + [ascii])[r])
  {
  }

  /** The stepped loop over the first `count` bytes of `buffer`, whose first
      byte is at file offset `base`: the hex half and the ASCII half of each row. */
  method BuildHalves(buffer: seq<u8>, count: nat, base: u64, width: nat)
    returns (hexLines: seq<string>, asciiLines: seq<string>)
    requires 1 <= width && count <= |buffer| && base + count <= U64_MAX + 1
    ensures |hexLines| == |asciiLines| == RowCount(count, width)
    ensures forall r :: 0 <= r < |hexLines| ==>
      RowHalves(buffer, count, base, width, r, hexLines[r], asciiLines[r])
  {
    hexLines, asciiLines := [], [];
    var i := 0;
    while i < count
      invariant i == |hexLines| * width && |asciiLines| == |hexLines|
      invariant |hexLines| == 0 || (|hexLines| - 1) * width < count
      invariant forall r :: 0 <= r < |hexLines| ==>
        RowHalves(buffer, count, base, width, r, hexLines[r], asciiLines[r])
    {
      ghost var n := |hexLines|;
      NextRow(buffer, count, width, n, i);
      var lineOffset := base + i;
      var lineEnd := Min(i + width, count);
      var chunk := buffer[i..lineEnd];
      var hex := HexSpans(lineOffset, chunk, i, count, width);
      var ascii := AsciiSpans(chunk);
      assert RowHalves(buffer, count, base, width, n, hex, ascii);
      ExtendHalves(buffer, count, base, width, hexLines, asciiLines, hex, ascii);
      hexLines := hexLines + [hex];
      asciiLines := asciiLines + [ascii];
      i := i + width;
    }
    RowCountIs(count, width, |hexLines|);
  }

  /** The loop that joins each row's halves with the separator. */
  method JoinHalves(hexLines: seq<string>, asciiLines: seq<string>) returns (rows: seq<string>)
    requires |hexLines| == |asciiLines|
    ensures |rows| == |hexLines|
    ensures forall r :: 0 <= r < |rows| ==> rows[r] == hexLines[r] + " | " + asciiLines[r]
  {
    rows := [];
    for k := 0 to |hexLines|
      invariant |rows| == k
      invariant forall r :: 0 <= r < k ==> rows[r] == hexLines[r] + " | " + asciiLines[r]
    {
      rows := rows + [hexLines[k] + " | " + asciiLines[k]];
    }
  }

  /** The rows of the first `count` bytes of `buffer`, whose first byte is at
      file offset `base`: the halves built by the stepped loop, joined by the
      separator. */
  method RenderRows(buffer: seq<u8>, count: nat, base: u64, width: nat) returns (rows: seq<string>)
    requires 1 <= width && count <= |buffer| && base + count <= U64_MAX + 1
    ensures |rows| == RowCount(count, width)
    ensures forall r :: 0 <= r < |rows| ==>
      r * width < count && rows[r] == FormatRow(base + r * width, RowChunk(buffer, count, width, r), width)
  {
    var hexLines, asciiLines := BuildHalves(buffer, count, base, width);
    rows := JoinHalves(hexLines, asciiLines);
    forall r | 0 <= r < |rows|
      ensures r * width < count
      ensures rows[r] == FormatRow(base + r * width, RowChunk(buffer, count, width, r), width)
    {
      assert RowHalves(buffer, count, base, width, r, hexLines[r], asciiLines[r]);
    }
  }
}
