/** The texture of textures/checkerboard_texture.c: a constant 8 x 8 table
    of one-byte (red channel) texels, uploaded row by row, meant to show a
    checkerboard of white (0xFF) and black (0x00) squares. */
module Checkerboard {
  import opened GLTypes

  /** Width and height passed with the table to the texture upload. */
  const CHECKERBOARD_WIDTH: nat := 8
  const CHECKERBOARD_HEIGHT: nat := 8

  /** `checkerboard_data`: the 64 bytes in source order, one display per
      source line of the initialiser. */
  const CheckerboardData: seq<GLubyte> :=
    [0xFF, 0x00, 0xFF, 0x00, 0xFF, 0x00, 0xFF, 0x00] +
    [0x00, 0xFF, 0x00, 0xFF, 0x00, 0xFF, 0x00, 0xFF] +
    [0xFF, 0x00, 0xFF, 0x00, 0xFF, 0x00, 0xFF, 0x00] +
    [0x00, 0xFF, 0x00, 0xFF, 0x00, 0xFF, 0x00, 0xFF] +
    [0xFF, 0x00, 0xFF, 0x00, 0xFF, 0x00, 0xFF, 0x00] +
    [0x00, 0xFF, 0x00, 0xFF, 0x00, 0xFF, 0x00, 0xFF] +
    [0xFF, 0x00, 0xFF, 0x00, 0xFF, 0x00, 0xFF, 0x00] +
    [0x00, 0xFF, 0x00, 0xFF, 0x00, 0xFF, 0x00, 0xFF]

  /** The intended pattern: the square at row `r`, column `c` is white
      when `r + c` is even and black otherwise. */
  function PatternTexel(r: nat, c: nat): (t: GLubyte)
    ensures t == 0x00 || t == 0xFF
  {
    if (r + c) % 2 == 0 then 0xFF else 0x00
  }

  /** The texel the upload reads for row `r`, column `c`: rows are stored
      one after another, `CHECKERBOARD_WIDTH` bytes each. */
  function Texel(r: nat, c: nat): GLubyte
    requires r < CHECKERBOARD_HEIGHT && c < CHECKERBOARD_WIDTH
  {
    CheckerboardData[r * CHECKERBOARD_WIDTH + c]
  }

  /** The first `k` bytes of the table, in storage order, are the pattern's. */
  predicate PrefixMatches(k: nat)
    requires k <= |CheckerboardData|
  {
    k == 0 ||
    (CheckerboardData[k - 1] == PatternTexel((k - 1) / CHECKERBOARD_WIDTH, (k - 1) % CHECKERBOARD_WIDTH) &&
     PrefixMatches(k - 1))
  }

  /** A matching prefix matches at each of its positions. */
  lemma {:induction false} PrefixMatchesAt(k: nat, i: nat)
    requires k <= |CheckerboardData| && PrefixMatches(k) && i < k
    ensures CheckerboardData[i] == PatternTexel(i / CHECKERBOARD_WIDTH, i % CHECKERBOARD_WIDTH)
  {
    if i < k - 1 {
      PrefixMatchesAt(k - 1, i);
    }
  }

  /** The whole table, in storage order, is the pattern's; checked eight
      bytes (one source line) at a time. */
  lemma StorageOrderMatches()
    ensures |CheckerboardData| == CHECKERBOARD_WIDTH * CHECKERBOARD_HEIGHT
    ensures PrefixMatches(|CheckerboardData|)
  {
    assert PrefixMatches(8);
    assert PrefixMatches(16);
    assert PrefixMatches(24);
    assert PrefixMatches(32);
    assert PrefixMatches(40);
    assert PrefixMatches(48);
    assert PrefixMatches(56);
    assert PrefixMatches(64);
  }

  /** One texel of the table is the pattern's. */
  lemma TexelMatchesPattern(r: nat, c: nat)
    requires r < CHECKERBOARD_HEIGHT && c < CHECKERBOARD_WIDTH
    ensures Texel(r, c) == PatternTexel(r, c)
  {
    StorageOrderMatches();
    var i := r * CHECKERBOARD_WIDTH + c;
    PrefixMatchesAt(|CheckerboardData|, i);
    assert i / CHECKERBOARD_WIDTH == r && i % CHECKERBOARD_WIDTH == c;
  }

  /** The table holds exactly the 8 x 8 texels of the upload, and each is
      the pattern's. */
  lemma TableMatchesPattern()
    ensures |CheckerboardData| == CHECKERBOARD_WIDTH * CHECKERBOARD_HEIGHT
    ensures forall r: nat, c: nat :: r < CHECKERBOARD_HEIGHT && c < CHECKERBOARD_WIDTH ==>
      Texel(r, c) == PatternTexel(r, c)
  {
    forall r: nat, c: nat | r < CHECKERBOARD_HEIGHT && c < CHECKERBOARD_WIDTH
      ensures Texel(r, c) == PatternTexel(r, c)
    {
      TexelMatchesPattern(r, c);
    }
  }

  /** Every byte of the table is black (0x00) or white (0xFF). */
  lemma EntriesBlackOrWhite()
    ensures forall k :: 0 <= k < |CheckerboardData| ==>
      CheckerboardData[k] == 0x00 || CheckerboardData[k] == 0xFF
  {
    forall k | 0 <= k < |CheckerboardData|
      ensures CheckerboardData[k] == 0x00 || CheckerboardData[k] == 0xFF
    {
      var r, c := k / CHECKERBOARD_WIDTH, k % CHECKERBOARD_WIDTH;
      assert k == r * CHECKERBOARD_WIDTH + c;
      TexelMatchesPattern(r, c);
    }
  }

  /** The texel at row `r`, column `c` is white exactly when `r + c` is even. */
  lemma WhiteExactlyOnEvenSquares(r: nat, c: nat)
    requires r < CHECKERBOARD_HEIGHT && c < CHECKERBOARD_WIDTH
    ensures Texel(r, c) == 0xFF <==> (r + c) % 2 == 0
    ensures Texel(r, c) == 0x00 <==> (r + c) % 2 == 1
  {
    TexelMatchesPattern(r, c);
  }

  /** In the pattern, a step right or down flips the colour, and rows
      repeat with period two. */
  lemma PatternSteps(r: nat, c: nat)
    ensures PatternTexel(r, c) != PatternTexel(r, c + 1)
    ensures PatternTexel(r, c) != PatternTexel(r + 1, c)
    ensures PatternTexel(r, c) == PatternTexel(r % 2, c)
  {
  }

  /** Horizontally and vertically adjacent texels always differ. */
  lemma NeighboursDiffer(r: nat, c: nat)
    requires r < CHECKERBOARD_HEIGHT && c < CHECKERBOARD_WIDTH
    ensures c + 1 < CHECKERBOARD_WIDTH ==> Texel(r, c) != Texel(r, c + 1)
    ensures r + 1 < CHECKERBOARD_HEIGHT ==> Texel(r, c) != Texel(r + 1, c)
  {
    TableMatchesPattern();
    PatternSteps(r, c);
  }

  /** Every even row repeats row 0 and every odd row repeats row 1. */
  lemma RowsAlternate(r: nat, c: nat)
    requires r < CHECKERBOARD_HEIGHT && c < CHECKERBOARD_WIDTH
    ensures Texel(r, c) == Texel(r % 2, c)
  {
    TableMatchesPattern();
    PatternSteps(r, c);
  }
}
