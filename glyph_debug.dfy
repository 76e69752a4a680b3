/** `debug_print_glyph` of text/font_character.c: a FreeType glyph bitmap of
    `rows x width` coverage bytes, stored row by row with stride `width`, is
    turned into `rows` text lines of `width` characters each. */
module GlyphDebug {
  import opened GLTypes

  /** The character a coverage byte is drawn as: blank for no coverage, `+`
      for partial coverage below one half, `*` from one half up. */
  function Classify(b: GLubyte): (c: char)
    ensures c == ' ' <==> b == 0
    ensures c == '+' <==> 1 <= b < 128
    ensures c == '*' <==> 128 <= b
  {
    if b == 0 then ' ' else if b < 128 then '+' else '*'
  }

  /** One bitmap row drawn character by character. */
  function RenderRow(bytes: seq<GLubyte>): (line: seq<char>)
    ensures |line| == |bytes|
    ensures forall j :: 0 <= j < |bytes| ==> line[j] == Classify(bytes[j])
  {
    if bytes == [] then [] else [Classify(bytes[0])] + RenderRow(bytes[1..])
  }

  /** What `printf("%s", s)` writes for a character array: everything before
      the first NUL. */
  function CString(s: seq<char>): (r: seq<char>)
    ensures |r| <= |s| && r == s[..|r|]
    ensures '\0' !in r
    ensures |r| < |s| ==> s[|r|] == '\0'
  {
    if s == [] || s[0] == '\0' then [] else [s[0]] + CString(s[1..])
  }

  /** Row `i` of a row-major bitmap of stride `width` lies inside a buffer
      of `rows * width` bytes. */
  lemma RowInBounds(i: int, rows: int, width: int)
    requires 0 <= i < rows && 0 <= width
    ensures 0 <= i * width && i * width + width <= rows * width
  {
    assert rows * width == i * width + (rows - i) * width;
    assert (rows - i) * width >= width by {
      assert (rows - i) * width == (rows - i - 1) * width + width;
    }
  }

  /** The lines the glyph is drawn as: line `i` is bitmap row `i`. */
  function RenderGlyph(buffer: seq<GLubyte>, rows: nat, width: nat): seq<seq<char>>
    requires |buffer| == rows * width
  {
    seq(rows, i requires 0 <= i < rows =>
      RowInBounds(i, rows, width);
      RenderRow(buffer[i * width .. i * width + width]))
  }

  /** The shape of the drawing: one line per bitmap row, `width` characters
      per line, and character `j` of line `i` drawn from byte
      `i * width + j`, which is inside the buffer. */
  lemma RenderGlyphAt(buffer: seq<GLubyte>, rows: nat, width: nat, i: int, j: int)
    requires |buffer| == rows * width
    requires 0 <= i < rows && 0 <= j < width
    ensures |RenderGlyph(buffer, rows, width)| == rows
    ensures |RenderGlyph(buffer, rows, width)[i]| == width
    ensures 0 <= i * width + j < rows * width
    ensures RenderGlyph(buffer, rows, width)[i][j] == Classify(buffer[i * width + j])
  {
    RowInBounds(i, rows, width);
    var row := buffer[i * width .. i * width + width];
    assert row[j] == buffer[i * width + j];
  }

  /** A blank in the drawing marks exactly the pixels with no coverage. */
  lemma BlankExactlyWhereEmpty(buffer: seq<GLubyte>, rows: nat, width: nat, i: int, j: int)
    requires |buffer| == rows * width
    requires 0 <= i < rows && 0 <= j < width
    ensures 0 <= i * width + j < |buffer|
    ensures |RenderGlyph(buffer, rows, width)[i]| == width
    ensures RenderGlyph(buffer, rows, width)[i][j] == ' ' <==> buffer[i * width + j] == 0
  {
    RenderGlyphAt(buffer, rows, width, i, j);
    var b := buffer[i * width + j];
    assert RenderGlyph(buffer, rows, width)[i][j] == Classify(b);
  }

  /** `printf("%s")` of a character array that holds no NUL before index
      `k` and a NUL at `k` writes exactly the first `k` characters. */
  lemma {:induction false} CStringUpToTerminator(s: seq<char>, k: nat)
    requires k < |s| && s[k] == '\0'
    requires forall j :: 0 <= j < k ==> s[j] != '\0'
    ensures CString(s) == s[..k]
  {
    if k > 0 {
      CStringUpToTerminator(s[1..], k - 1);
      assert s[..k] == [s[0]] + s[1..][..k - 1];
    }
  }

  /** `debug_print_glyph`: `temp_debug` is one character longer than a
      line and NUL-terminated at `width` once; for every row the inner loop
      overwrites positions `0 .. width - 1`, and the row is then printed as a
      C string. The result is the sequence of printed lines. */
  method DebugPrintGlyph(buffer: seq<GLubyte>, rows: int, width: int) returns (lines: seq<seq<char>>)
    requires 0 <= rows && 0 <= width
    requires |buffer| == rows * width
    ensures lines == RenderGlyph(buffer, rows, width)
  {
    var tempDebug := new char[width + 1];
    tempDebug[width] := '\0';
    lines := [];
    var i := 0;
    while i < rows
      invariant 0 <= i <= rows
      invariant tempDebug[width] == '\0'
      invariant lines == RenderGlyph(buffer, rows, width)[..i]
    {
      RowInBounds(i, rows, width);
      var j := 0;
      while j < width
        invariant 0 <= j <= width
        invariant tempDebug[width] == '\0'
        invariant forall k :: 0 <= k < j ==> tempDebug[k] == Classify(buffer[i * width + k])
      {
        var b := buffer[i * width + j];
        tempDebug[j] := if b == 0 then ' ' else if b < 128 then '+' else '*';
        j := j + 1;
      }
      CStringUpToTerminator(tempDebug[..], width);
      ghost var row := buffer[i * width .. i * width + width];
      assert tempDebug[..width] == RenderRow(row);
      lines := lines + [CString(tempDebug[..])];
      i := i + 1;
    }
  }
}
