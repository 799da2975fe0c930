/** The fixed character screen the donut is drawn on: its size, the
    addressing of a pixel in the flat frame buffer, and the text the
    print loop emits for a finished buffer. */
module Screen {

  const ScreenWidth: int := 80
  const ScreenHeight: int := 22
  const BufferSize: int := ScreenWidth * ScreenHeight

  /** The bounds test of the compositor: lower bounds inclusive, upper bounds exclusive. */
  predicate InBounds(xp: int, yp: int) {
    0 <= xp < ScreenWidth && 0 <= yp < ScreenHeight
  }

  /** Row-major offset of an in-bounds pixel. The offset lies in the buffer and
      gives back the column and the row, so distinct pixels get distinct cells. */
  function PixelIndex(xp: int, yp: int): (idx: int)
    requires InBounds(xp, yp)
    ensures 0 <= idx < BufferSize
    ensures idx % ScreenWidth == xp && idx / ScreenWidth == yp
  {
    xp + ScreenWidth * yp
  }

  /** Distinct on-screen pixels never share a buffer cell. */
  lemma PixelIndexInjective(xp: int, yp: int, xq: int, yq: int)
    requires InBounds(xp, yp) && InBounds(xq, yq)
    ensures PixelIndex(xp, yp) == PixelIndex(xq, yq) <==> xp == xq && yp == yq
  {
  }

  /** The text for `rows` rows of the buffer: every row starts with a newline
      that takes the place of the row's first glyph. */
  function SerialiseRows(b: seq<char>, rows: nat): (text: string)
    requires |b| == ScreenWidth * rows
    ensures |text| == |b|
    decreases rows
  {
    if rows == 0 then []
    else "\n" + b[1..ScreenWidth] + SerialiseRows(b[ScreenWidth..], rows - 1)
  }

  /** The characters the print loop writes for a whole frame buffer. */
  function Serialise(buffer: seq<char>): (text: string)
    requires |buffer| == BufferSize
    ensures |text| == BufferSize
  {
    SerialiseRows(buffer, ScreenHeight)
  }

  /** Character `j` of the text for `rows` rows: a newline at the start of each
      row, the buffer's own glyph everywhere else. */
  lemma {:induction false} SerialiseRowsAt(b: seq<char>, rows: nat, j: int)
    requires |b| == ScreenWidth * rows
    requires 0 <= j < |b|
    ensures SerialiseRows(b, rows)[j] == if j % ScreenWidth == 0 then '\n' else b[j]
    decreases rows
  {
    var rest := b[ScreenWidth..];
    assert SerialiseRows(b, rows) == "\n" + b[1..ScreenWidth] + SerialiseRows(rest, rows - 1);
    if j >= ScreenWidth {
      SerialiseRowsAt(rest, rows - 1, j - ScreenWidth);
      assert (j - ScreenWidth) % ScreenWidth == j % ScreenWidth;
      assert rest[j - ScreenWidth] == b[j];
    }
  }

  /** The frame text has one character per buffer cell; character `j` is a
      newline exactly at the start of a row and the cell's glyph otherwise. */
  lemma SerialiseSpec(buffer: seq<char>)
    requires |buffer| == BufferSize
    ensures |Serialise(buffer)| == BufferSize
    ensures forall j :: 0 <= j < BufferSize ==>
              Serialise(buffer)[j] == if j % ScreenWidth == 0 then '\n' else buffer[j]
  {
    forall j | 0 <= j < BufferSize
      ensures Serialise(buffer)[j] == if j % ScreenWidth == 0 then '\n' else buffer[j]
    {
      SerialiseRowsAt(buffer, ScreenHeight, j);
    }
  }
}
