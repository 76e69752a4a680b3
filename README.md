# OpenGL playground: verified model of the icon atlas, glyph dump and checkerboard

The repository is a set of small OpenGL teaching programs. Nearly all of
their code is calls into GLFW, GLEW, OpenGL, lodepng and FreeType. This
project models the three pieces of logic that stand apart from those calls
and proves what they promise.

- **Icon atlas addressing** (`textures/icons.c`). The vertex shader receives
  `icon_id = (id, n)`, where `n` is the number of icons per side of a square,
  evenly divided texture. It picks column `id mod n` and row `id / n`. It
  flips the row to `n - 1 - id / n` in unsigned 32-bit arithmetic. Then it
  scales both by `1 / n`. Module `IconAtlas` gives this as functions on exact
  integers and reals. Its lemmas prove three things. A valid id selects a
  cell that lies inside the texture and is `1 / n` wide and tall. Ids
  `0 .. n*n - 1` and grid cells correspond one to one (for n ≤ 65536,
  i.e. n*n ≤ 2^32, so that every such id fits in a `GLuint`). An id past the grid
  wraps the row out of the texture.
- **Icon selection by keyboard** (`textures/icons.c`). The global
  `icon_id = {0, 4}` and the callback `key_cb` become the class
  `IconKeys.IconState`. The callback's effect on the id is the function
  `NextIconId`, and its lemmas cover the cases:
  - a digit press selects that digit;
  - the arrow keys step by one modulo 2^32, and the two arrows undo each other;
  - every other event leaves the id unchanged.
- **Glyph bitmap dump** (`text/font_character.c`, `debug_print_glyph`).
  The method `GlyphDebug.DebugPrintGlyph` keeps the source's nested loops.
  It refills one NUL-terminated line buffer per row and prints it as a C
  string. It is proved to produce exactly `RenderGlyph`: `rows` lines of
  `width` characters each. Character `j` of line `i` is classified from byte
  `i * width + j`. That index always lies inside the buffer.
- **Checkerboard texture** (`textures/checkerboard_texture.c`). The constant
  table `checkerboard_data` is proved to be the 8 x 8 pattern that is white
  where `r + c` is even, with neighbouring texels of different colours.

`GLTypes` holds the API's integer types: `GLuint` (32-bit, with explicit
wrap-around) and `GLubyte`.

Id 0 with four icons per side maps to `[0, 0.25] x [0.75, 1]`, not to
`[0, 0.25]^2`, because the shader flips the row (`IconAtlas.CornerIcons`).
In the uploaded texture this is the bottom-left icon: lodepng decodes the
top image row first, and that row is uploaded at `v = 0`. The code never
checks an id or the side count. The model states `n > 0` as a
precondition and describes what happens to an out-of-range id in a lemma.

## Model

| member | source | states |
|---|---|---|
| GLTypes.WrapUint | textures/icons.c:166 | the result is a `GLuint`: a value in range stays unchanged, and a value one period below or above range moves by 2^32 |
| GLTypes.WrapStep | textures/icons.c:250-255 | wrapping after each `++`/`--` gives the same `GLuint` as wrapping once at the end |
| IconAtlas.Column | textures/icons.c:163-164 | the column `mod(id, n)` is below `n` |
| IconAtlas.FlippedRow | textures/icons.c:165-166 | the unsigned flipped row is below `n` exactly when `id < n*n`; then it equals `n - 1 - id/n`, and otherwise it has wrapped to `2^32 + n - 1 - id/n` |
| IconAtlas.SixOfFour | textures/icons.c:153-154 | the comment's example `(6, 4)` is row 1, column 2 and flipped row 2, i.e. the square `[0.5, 0.75]^2` |
| IconAtlas.Row | textures/icons.c:166 | the quotient `id / n` is a row of the `n x n` grid exactly when `id < n*n` |
| IconAtlas.RowColumnUnique | textures/icons.c:153-154 | `(q, c)` is the row and column of `id` exactly when `id == q*n + c` with `0 <= c < n`: the quotient and remainder are unique |
| IconAtlas.SelectedCell | textures/icons.c:163-166 | the selected cell's column is in the grid, and its flipped row is in the grid exactly when `id < n*n` |
| IconAtlas.ShaderCoord | textures/icons.c:160-166 | one component of `vs_tex_coord`, `k * square_side + x * square_side` with `square_side = 1/n`, is `k + x` cells (times `n` it is `k + x`) |
| IconAtlas.VertexTexCoord | textures/icons.c:162-166 | the shader's `vs_tex_coord`, measured in cells (times `n`), is the cell index plus the vertex's input texture coordinate |
| IconAtlas.CellRect | textures/icons.c:216-220 | the rectangle spanned by the quad's texture corners `(0,0)` and `(1,1)` is `1/n` wide and tall for any id |
| IconAtlas.CellInsideTexture | textures/icons.c:160-166 | for `n > 0` and `id < n*n`, the selected rectangle lies in `[0,1]^2` and is exactly `1/n` wide and tall |
| IconAtlas.VertexInsideCell | textures/icons.c:162-166 | every vertex texture coordinate in the unit square maps into the selected cell |
| IconAtlas.OutOfRangeLeavesTexture | textures/icons.c:166 | for `id >= n*n` the flipped row wraps to at least `n`, so the cell starts at or above `v = 1` |
| IconAtlas.CornerIcons | textures/icons.c:9 | id 0 is column 0, flipped row `n - 1` (touching `u = 0` and `v = 1`), and id `n*n - 1` is column `n - 1`, flipped row 0 (for n ≤ 65536, i.e. n*n ≤ 2^32) |
| IconAtlas.NextIdIsRightNeighbour | textures/icons.c:163-166 | the next id in the same row selects the cell one column to the right, sharing its edge |
| IconAtlas.SelectThenIconAt | textures/icons.c:164-166 | mapping a valid id to its cell and back returns the id |
| IconAtlas.IconAtThenSelect | textures/icons.c:164-166 | every cell of the `n x n` grid is selected by a valid id (for n ≤ 65536, i.e. n*n ≤ 2^32; for larger `n` some cells' ids do not fit in a `GLuint`) |
| IconAtlas.DistinctIdsDistinctCells | textures/icons.c:164-166 | distinct valid ids select distinct cells and distinct rectangles |
| IconKeys.IconState.constructor | textures/icons.c:45 | the initial state is icon 0, with 4 icons per side |
| IconKeys.NextIconId | textures/icons.c:247-255 | `key_cb`'s update of `icon_id[0]`: the id can only change on a press (definition: digit, right-arrow and left-arrow branches) |
| IconKeys.IconState.KeyCallback | textures/icons.c:241-256 | the new id is `NextIconId` of the old one; `icon_id[1]` is unchanged; a close is requested exactly on an Escape press |
| IconKeys.DigitPressSelects | textures/icons.c:247-248 | pressing digit `d` sets the id to `d`, whatever it was |
| IconKeys.ArrowPressesWrap | textures/icons.c:250-255 | left at id 0 gives 4294967295, and right at 4294967295 gives 0 |
| IconKeys.RightLeftInverse | textures/icons.c:250-255 | a right press and a left press undo each other, in either order |
| IconKeys.OtherEventsKeepId | textures/icons.c:247-255 | releases, repeats and keys other than digits and arrows leave the id unchanged |
| IconKeys.RepeatAndReleaseKeepId | textures/icons.c:247-255 | a key's auto-repeat and its release never change the id, whatever the key: only presses are handled |
| IconKeys.LastDigitWins | textures/icons.c:247-248 | after any history of events, a final digit press alone decides the id |
| IconKeys.RightPresses | textures/icons.c:250-251 | `k` right presses add `k` modulo 2^32 |
| IconKeys.LeftPresses | textures/icons.c:253-254 | `k` left presses subtract `k` modulo 2^32 |
| GlyphDebug.Classify | text/font_character.c:236 | byte 0 gives `' '`, bytes 1..127 give `'+'`, and bytes 128..255 give `'*'` (each as an if-and-only-if) |
| GlyphDebug.RenderRow | text/font_character.c:234-237 | a row is drawn as one character per byte, with character `j` classified from byte `j` |
| GlyphDebug.CString | text/font_character.c:238 | `%s` prints the longest NUL-free prefix; the model stops at the end of the sequence if there is no NUL (C would read past the array), a case `DebugPrintGlyph` never reaches since its buffer has the NUL at `width` |
| GlyphDebug.CStringUpToTerminator | text/font_character.c:228-229 | with no NUL before `k` and a NUL at `k`, exactly the first `k` characters are printed |
| GlyphDebug.RowInBounds | text/font_character.c:233-235 | row `i < rows` of stride `width` lies inside a `rows * width` buffer |
| GlyphDebug.RenderGlyphAt | text/font_character.c:231-236 | the drawing has `rows` lines of `width` characters; character `j` of line `i` comes from byte `i*width + j`, which is below `rows*width` |
| GlyphDebug.BlankExactlyWhereEmpty | text/font_character.c:235-236 | a blank appears in the drawing exactly where the byte is 0 |
| GlyphDebug.DebugPrintGlyph | text/font_character.c:223-240 | the printed lines equal `RenderGlyph`, so no character of an earlier row leaks into a later line |
| Checkerboard.CheckerboardData | textures/checkerboard_texture.c:176-185 | definition: the 64 bytes of `checkerboard_data` in source order, one row per source line |
| Checkerboard.Texel | textures/checkerboard_texture.c:186-195 | definition: the upload of an 8 x 8 `GL_RED` image reads row `r`, column `c` at byte `r*8 + c` |
| Checkerboard.PatternTexel | textures/checkerboard_texture.c:175 | the pattern is only ever black (0x00) or white (0xFF) |
| Checkerboard.PrefixMatchesAt | textures/checkerboard_texture.c:176-185 | if the first `k` bytes of the table agree with the pattern in storage order, byte `i < k` is the pattern's texel at row `i / 8`, column `i mod 8` |
| Checkerboard.StorageOrderMatches | textures/checkerboard_texture.c:176-185 | the table has 8 x 8 bytes and all of them, in storage order, agree with the pattern |
| Checkerboard.TexelMatchesPattern | textures/checkerboard_texture.c:176-185 | the table entry at row `r`, column `c` is the pattern's texel |
| Checkerboard.TableMatchesPattern | textures/checkerboard_texture.c:176-190 | the table has 64 = 8 x 8 entries, and every one matches the pattern |
| Checkerboard.EntriesBlackOrWhite | textures/checkerboard_texture.c:177-184 | every byte of the table is 0x00 or 0xFF |
| Checkerboard.WhiteExactlyOnEvenSquares | textures/checkerboard_texture.c:175-184 | an entry is 0xFF exactly when `r + c` is even, and 0x00 exactly when it is odd |
| Checkerboard.NeighboursDiffer | textures/checkerboard_texture.c:177-184 | horizontally and vertically adjacent entries differ |
| Checkerboard.RowsAlternate | textures/checkerboard_texture.c:177-184 | every even row equals row 0, and every odd row equals row 1 |

## Left out

- GL, GLEW, GLFW and GLUT calls are not modelled because they are foreign calls. This covers `display`, `init`, `main`, the render loops, `shutdown_glfw_and_exit`, window and context creation, and `compile_shader` in every file.
- `textures/image_texture.c`, `01_minimal_setup/minimal_glew_glfw.c` and `01_minimal_setup/minimal_glew_freeglut.c` are not part of this model. They hold only such calls.
- Image decoding by lodepng (`textures/icons.c:65`) is left out as an external library. So are FreeType's face and glyph loading (`text/font_character.c:242-281`). The glyph bitmap is a parameter of `DebugPrintGlyph`.
- `GlyphDebug.DebugPrintGlyph` takes the bitmap buffer as a value of `rows * width` bytes, so it does not model FreeType's row `pitch` or aliasing of the buffer. It returns the printed lines instead of writing to stdout, and leaves out the header line `"%d rows, %d width"`.
- `DebugPrintGlyph` computes `i * width + j` on unbounded integers; the source uses 32-bit signed `FT_Int`, which cannot overflow for bitmaps of glyph size.
- Shader arithmetic is on exact integers and reals. This leaves out floating-point rounding, and treats GLSL `mod`, which converts the `uint` id to a 32-bit float, as integer `mod`. That agrees with the GPU for ids below 2^24, where the conversion is exact. A larger id, such as the 4294967295 that a left press at 0 produces, may round first: the float is 4294967296.0, so the GPU column for `n = 4` is 0 where `Column` gives 3. The row (`uint` division) and `OutOfRangeLeavesTexture` are unaffected. Texture sampling, filtering, clamping and blending are GPU behaviour and are not modelled.
- `IconKeys.IconState.KeyCallback` models `glfwSetWindowShouldClose` only as the flag `closeRequested`. The GLFW codes for the keys and actions (press 1, Escape 256, right 262, left 263) are taken from GLFW 3's header, which is not part of this model.
- A side count of 0 is excluded by precondition. The shader divides by it, and on the GPU the result of that division is undefined.
