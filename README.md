# nfonts: a verified model of the ngl font engine

nfonts draws text with OpenGL from glyphs that FreeType rasterises. Its core
has four layers:

- **Text cache.** `ngl::Font` (src/nFont.cpp) lays out every string it is
  asked to `print` or `cprint` as one quad of four vertices per glyph. It
  keeps the result in a cache keyed by a 32-bit hash of the pen position
  and the string.
- **Frames.** Once per frame `update_cache` drops the strings that were not
  printed in the frame that ended. `get_geometry` then writes the surviving
  vertices, and two triangles per quad, into caller-supplied buffers.
- **Glyph face.** `FontFace` (src/nFontFace.cpp) memoises glyphs and packs
  their bitmaps into one texture atlas with a shelf packer
  (`GlyphAtlas::add_glyph`, repeated as `GLGlyphAtlas::add`). It measures
  text (`text_width`) and wraps it (`split`, in line-wrap and word-wrap
  modes).
- **Value helpers.** The sdbm-style hash `gen_hash`, the `Glyph` comparison
  operators, the first-fit `MemPool`, the colour constants and `Vec2`
  arithmetic.

The older `Font` of src/Font.cpp is modelled too. It differs from
`ngl::Font` in three ways:

- it emits no quad for a line break;
- it builds per-string triangle lists;
- it advances the index offset twice per string in `get_geometry` (see
  Findings).

Modules:

| file | module | models |
|---|---|---|
| font_types.dfy | FontTypes | status constants, `Vec2`, `Color32`, `gen_hash`, the hashed pen key, `Glyph` comparisons |
| mem_pool.dfy | MemoryPool | `MemPool` as a class over a free-chunk list |
| atlas.dfy | Atlas | the shelf packer, as a pure step `Place` and as the class `GlyphAtlas` |
| text_layout.dfy | TextLayout | specifications of `text_width` and `split`, with their properties |
| font_face.dfy | Face | `FontFace`: the glyph memo, and `text_width`/`split` as loops |
| font_cache.dfy | FontCache | vertex quads, triangulation, cache lookup, the reaper, the geometry copy |
| nfont.dfy | NFont | `ngl::Font` of src/nFont.cpp |
| legacy_font.dfy | LegacyFont | the `Font` of src/Font.cpp |

Modelling conventions:

- **FreeType.** It is an oracle `raster: Char8 -> Option<Raster>` fixed at
  construction (`None` is a failed `FT_Load_Char`), plus a `loaded` flag for
  a face that opened.
- **Integers.** Hashes and counters are integers reduced modulo 2^32.
  Triangle indices are reduced modulo 2^16.
- **UVs.** They are integer pixel corners in the atlas, not the normalised
  floats the source divides out.
- **Pen positions.** They are unbounded integers.
- **Strings.** They are sequences of 8-bit characters. `gen_hash` of a
  string sign-extends each `char` and stops at the first NUL.
- **Status constants.** `kInvalidIndex` is 0xffffffff, `EOk` is 0 and
  `ENotEnoughMemory` is -1 (include/nFontTypes.hpp:50-52).

Behaviour worth knowing:

- **Cache lifetime.** `update_cache` tests `m_cacheTTL` only for non-zero.
  It keeps exactly the entries whose `lastUsed` equals `m_counter-1`, the
  generation that just ended (src/nFont.cpp:221).
- **Palette escapes.** A two-digit `cprint` escape indexes the 16-entry
  `colors[]` array with values up to 99, reading past its end
  (src/nFont.cpp:150-151).
- **Legacy `get_geometry`.** It advances the index offset `tOff` twice per
  entry, once in the index loop and once after it (src/Font.cpp:147-152;
  see Findings).

## Model

| member | source | states |
|---|---|---|
| FontTypes.AddDifference | include/nFontTypes.hpp:188-208 | adding the difference q-p to p gives q, which is how a cached pen delta replays a layout; subtracting undoes adding; the null vector is neutral |
| FontTypes.ScalarForms | include/nFontTypes.hpp:200-213 | the scalar + and - forms act on both components: they equal adding or subtracting (s,s), and they undo each other |
| FontTypes.Vec2Ref.constructor | include/nFontTypes.hpp:163-166 | a vector built from (x,y) holds (x,y) |
| FontTypes.Vec2Ref.Set | include/nFontTypes.hpp:180-185 | set overwrites both components and returns the same object |
| FontTypes.Vec2Ref.AddAssign | include/nFontTypes.hpp:188-193 | += changes the left operand in place to the componentwise sum and returns that operand |
| FontTypes.PaletteChannels | src/nFontTypes.cpp:45-60 | the named colours, read as ABGR bytes, carry the channels their names say (white is all 255, red/green/blue are pure, black is opaque zero, orange is c4/96/3a) |
| FontTypes.FoldSnoc | src/nFontTypes.cpp:25-27 | hashing one more value applies one more mixing step, h*65599 + v mod 2^32, to the previous hash |
| FontTypes.FoldConcat | src/nFontTypes.cpp:25-27 | hashing a++b from seed s equals hashing b from the hash of a, so the pen hash can seed the string hash |
| FontTypes.Widen | src/nFontTypes.cpp:26-27 | each byte enters the hash as its unsigned value, in order |
| FontTypes.SignExtendAll | src/nFontTypes.cpp:40-41 | each char of a string enters the hash as its sign-extended 32-bit value |
| FontTypes.UpToNul | src/nFontTypes.cpp:40 | the part of a string that the C-string walk reads is the longest NUL-free prefix; it stops at the first NUL |
| FontTypes.GenHashBytes | src/nFontTypes.cpp:21-30 | no data or size 0 returns the seed; otherwise the result is the fold of the first size bytes, in order, from the seed |
| FontTypes.GenHashString | src/nFontTypes.cpp:33-44 | the empty string returns the seed; otherwise the result is the fold of the sign-extended chars before the first NUL |
| FontTypes.StringHashStopsAtNul | src/nFontTypes.cpp:40-41 | characters after an embedded NUL do not affect the string hash |
| FontTypes.AsciiHashesAgree | src/nFontTypes.cpp:21-44 | for NUL-free 7-bit text, the string overload and the byte overload give the same hash |
| FontTypes.Int32RoundTrip | src/nFont.cpp:240 | the four little-endian bytes of an int32 coordinate decode back to it |
| FontTypes.PositionBytesInjective | src/nFont.cpp:240 | two pen positions in int32 range with the same 8 hashed bytes are equal |
| FontTypes.CacheKeyIsOneFold | src/nFont.cpp:240-241 | the cache key is one fold over the pen's 8 bytes followed by the string's sign-extended chars, from seed 0 |
| FontTypes.ComputeCacheKey | src/nFont.cpp:251-252 | find_cached computes the key by hashing the pen bytes and then the string, seeded with the first hash |
| FontTypes.GlyphEqIsEquivalence | src/nFontTypes.cpp:93-97 | == (same code, owner and width) is reflexive, symmetric and transitive, and != implies not == |
| FontTypes.GlyphNeIsNotComplement | src/nFontTypes.cpp:85-90 | != holds only when all three fields differ, so some pairs are neither == nor != |
| FontTypes.NonNulCodeIsNotNull | src/nFontTypes.cpp:74-97 | a glyph whose code is not NUL never compares equal to Glyph::null |
| MemoryPool.FirstFit | src/nFontTypes.cpp:167-169 | the chosen chunk is the first whose size is at least s; no chunk fits when the search fails |
| MemoryPool.FirstFitIsFirst | src/nFontTypes.cpp:167-169 | any index k that fits with no fitting chunk before it is exactly what the search finds |
| MemoryPool.CarveReleasesExactly | src/nFontTypes.cpp:177-185 | carving s bytes out of a chunk lowers the free total by exactly s, whether the chunk shrinks or is erased |
| MemoryPool.CarveKeepsLayout | src/nFontTypes.cpp:177-185 | after a carve the free chunks are still pairwise disjoint and inside the pool, and the returned block [off,off+s) is inside the pool and overlaps no free chunk |
| MemoryPool.InitialFreeList | src/nFontTypes.cpp:139-142 | the single chunk (0,n) that init creates is a well-formed free list holding n bytes |
| MemoryPool.MemPool.constructor | src/nFontTypes.cpp:127-131 | a new pool has no data, size 0, nothing available and no free chunks |
| MemoryPool.MemPool.Init | src/nFontTypes.cpp:139-142 | init sets size and available to n and pushes the chunk (0,n) onto the free list |
| MemoryPool.MemPool.Clear | src/nFontTypes.cpp:145-153 | clear empties the pool only when it holds data; otherwise it changes nothing |
| MemoryPool.MemPool.Alloc | src/nFontTypes.cpp:161-186 | no address without data or without a fitting chunk (free list unchanged); otherwise the first fitting chunk's offset, and that chunk shrinks from the front or is erased |
| MemoryPool.AllocFromFreshPool | src/nFontTypes.cpp:139-186 | a fresh pool of n bytes grants s bytes exactly when s <= n, at offset 0, leaving n-s free |
| Atlas.Place | src/nFontFace.cpp:49-95 | wraps to a new shelf when x+w exceeds the width, without resetting the row height; fails when the glyph still does not fit (the wrap persists); otherwise places the w x h rectangle at the cursor, inside the atlas, advances x by w and raises the row height to at least h |
| Atlas.PlaceKeepsPacked | src/nFontFace.cpp:49-95 | every placed rectangle stays inside the atlas, placements never overlap, and all lie behind the cursor |
| Atlas.EmptyAtlasPacked | src/nFontFace.cpp:20-26 | a fresh atlas with cursor (0,0) and row height 0 satisfies the packing invariant |
| Atlas.RowHeightIsNeverReset | src/nFontFace.cpp:52-55 | after a 10-pixel row, later 2-pixel rows still advance y by 10 because the row height keeps its maximum |
| Atlas.GlyphAtlas.constructor | src/nGLGlyphAtlas.cpp:11-18 | a new atlas records its size, with the cursor at (0,0), row height 0 and nothing placed |
| Atlas.GlyphAtlas.Add | src/nGLGlyphAtlas.cpp:47-91 | the cursor moves as Place says; failure returns ENotEnoughMemory and leaves out untouched; success returns EOk, records the rectangle and gives out this atlas as owner and the rectangle as its UV corners (add_glyph at src/nFontFace.cpp:49-95 is the same code) |
| Face.Lookup | src/nFontFace.cpp:261-265 | the memo lookup returns the first stored glyph with the code, or reports that none has it |
| Face.LookupIsFirst | src/nFontFace.cpp:261-265 | the first index holding the code is exactly what the lookup returns |
| Face.TabIsNeverFound | src/nFontFace.cpp:255-285 | a tab is looked up as a space but stored under code '\t', so a stored tab glyph is never a memo hit |
| Face.TabMeasuresAsSpace | src/nFontFace.cpp:250-258 | a tab advances like a space, and without a loaded face every advance is 0 |
| Face.FontFace.constructor | src/nFontFace.cpp:303-328 | a face starts with no glyphs and an empty 128 x 128 atlas |
| Face.FontFace.GetGlyph | src/nFontFace.cpp:250-298 | no face gives the null glyph; a memo hit returns the first stored match and changes nothing; a failed load gives the null glyph; otherwise it appends exactly one glyph, even when the atlas add fails, and only a successful add gives it UVs and an owner; in every case the result is the null glyph exactly when the key cannot be rasterised, and otherwise carries the rasteriser's size, offset and advance for the key |
| Face.ReturnsNullExactly | src/nFontFace.cpp:250-298 | for a character other than NUL, what get_glyph returns equals Glyph::null exactly when there is no face or the key cannot be rasterised, and its advance is the one text_width measures |
| Face.FontFace.TextWidth | src/nFontFace.cpp:172-190 | the result is the widest '\n'-separated line, measured in summed advances |
| Face.BreakAt | src/nFontFace.cpp:213-242 | one non-newline character of the split loop moves the line start, width, last space and word width as the split specification's step does, and emits the line that step emits |
| Face.FontFace.SplitChar | src/nFontFace.cpp:213-242 | fetching the glyph and applying the break policy is one step of the split specification |
| Face.FontFace.SplitAt | src/nFontFace.cpp:201-243 | one loop pass, newline or not, leaves a state from which the rest of the split gives the same result |
| Face.FontFace.Split | src/nFontFace.cpp:192-248 | split appends to the caller's list, never clearing it, exactly the lines of the split specification, and returns the width of the last line |
| Face.RunLines | src/nFontFace.cpp:192-248 | lines already in the list do not affect the lines split appends |
| TextLayout.SumAdvanceConcat | src/nFontFace.cpp:176-185 | the advance of a concatenation is the sum of the parts' advances |
| TextLayout.JoinLinesOfLines | src/nFontFace.cpp:176-182 | cutting a text at its newlines and joining the pieces with newlines gives back the text |
| TextLayout.LinesOfJoinLines | src/nFontFace.cpp:176-182 | joining newline-free lines and cutting again gives back the lines |
| TextLayout.LinesHaveNoNewline | src/nFontFace.cpp:177-181 | no line of a text holds a newline |
| TextLayout.MaxOfIsMax | src/nFontFace.cpp:178-187 | the running maximum bounds every width and equals one of them |
| TextLayout.WidestLineIsMax | src/nFontFace.cpp:172-190 | the text width bounds every line's advance and equals one of them; it is 0 for the empty text |
| TextLayout.MeasureStepAt | src/nFontFace.cpp:176-185 | one pass of the measuring loop takes the (widest, current) pair for a prefix to the pair for one more character |
| TextLayout.MeasureWhole | src/nFontFace.cpp:186-189 | the final comparison of the current width with the widest yields the text width |
| TextLayout.BelowIsProduct | src/nFont.cpp:93-96 | n line breaks lower the pen by n line heights |
| TextLayout.MeasuredPenStep | src/nFont.cpp:92-96 | the pen after one more character: a newline returns to the start x one line lower; any other character adds its advance |
| TextLayout.SplitStep | src/nFontFace.cpp:201-243 | one split step keeps line start and last space within the text, and appends at most one line, keeping the earlier ones |
| TextLayout.SplitFrom | src/nFontFace.cpp:201-243 | running the split loop to the end only appends to the lines collected so far |
| TextLayout.LineWrapSplit | src/nFontFace.cpp:214-220 | line-wrap split gives lines that each end in one '\n', hold no other, and fit the width (or are one over-wide glyph); without newlines they spell the input; a non-zero result is the width of the last line, and a zero result leaves only a zero-width tail unsplit |
| TextLayout.WordWrapSplit | src/nFontFace.cpp:221-241 | word-wrap split gives lines that each end in one '\n' and hold no other; with all spaces, tabs and newlines removed they spell the input (up to a zero-width tail when the result is 0) |
| TextLayout.WordWrapCountsDroppedSpace | src/nFontFace.cpp:230-240 | a word break carries the dropped space's advance: "a b" at width 2 with unit advances returns 2 although the last line is one glyph wide |
| TextLayout.WordWidthAfterBreak | src/nFontFace.cpp:222-240 | the word width carried past a break is at least the width of the word after the space |
| FontCache.Blank | src/nFont.cpp:244 | a new vertex array of n slots holds n unwritten vertices |
| FontCache.QuadIsRectangle | src/nFont.cpp:177-198 | generate writes an axis-aligned rectangle from off+pen to off+pen+size, corner by corner, with UVs botLeft, (topRight.u, botLeft.v), topRight and (botLeft.u, topRight.v), in one colour |
| FontCache.Generate | src/nFont.cpp:177-198 | generate writes the quad into slots 4k..4k+3 and leaves every other slot unchanged |
| FontCache.OverlayTwice | src/nFont.cpp:201-213 | writing the same block over the same place twice is writing it once |
| FontCache.CopyInto | src/nFont.cpp:204 | memcpy writes src at the offset and leaves the rest of the buffer unchanged |
| FontCache.Triangulation | src/nFont.cpp:207-211 | n quads give exactly 2n triangles |
| FontCache.TriangulationAt | src/nFont.cpp:207-211 | triangles 2k and 2k+1 are (4k,4k+1,4k+3) and (4k+3,4k+1,4k+2) past the base index, reduced to 16 bits |
| FontCache.TriangulationIsExact | src/nFont.cpp:207-211 | up to 65536 vertices the 16-bit indices are exact |
| FontCache.TriangulationWraps | src/nFont.cpp:207-211 | past 65536 vertices the uint16 indices wrap: quad 0x4000 is indexed as quad 0 |
| FontCache.WriteTriangles | src/nFont.cpp:207-211 | the index loop writes the triangulation of vc/4 quads at the offset and leaves the rest of the buffer unchanged |
| FontCache.FirstWith | src/nFont.cpp:254-258 | the found entry is the first with the hash; none matches when the search fails |
| FontCache.FirstWithIsFirst | src/nFont.cpp:254-258 | an index with the hash and no match before it is exactly what the search finds |
| FontCache.FindFirst | src/nFont.cpp:254-258 | the scan of the cache list returns the first entry with the hash |
| FontCache.SurvivorsConcat | src/nFont.cpp:220-231 | the reaper treats each entry on its own: reaping a joined list is joining the reaped parts, so order is preserved |
| FontCache.SurvivorsAreLive | src/nFont.cpp:220-231 | the survivors are exactly the entries with a non-zero TTL that were used in the generation that ended, and there are no more of them than before |
| FontCache.Reap | src/nFont.cpp:216-231 | the reaping loop keeps exactly the survivors and totals their vertex counts |
| FontCache.SumOfReplace | src/nFont.cpp:73 | changing an entry without changing its vertex count keeps the total |
| FontCache.Copied | src/nFont.cpp:203-206 | the copied vertices are each entry's first vertCount vertices in list order, and their number is the total vertex count |
| FontCache.CopiedLength | src/nFont.cpp:203-208 | the total vertex count is a whole number of quads |
| FontCache.CopyEntry | src/nFont.cpp:204-205 | one pass of the copy loop appends one entry's vertices after the ones already copied and advances the offset by its vertex count |
| FontCache.SurvivorsPacked | src/nFont.cpp:220-231 | reaping keeps every surviving entry's vertex count a multiple of 4 within its array |
| FontCache.QuadHalves | src/nFont.cpp:50 | for a whole number of quads, vertCount >> 1 is two triangles per quad |
| FontCache.PreviousGeneration | src/nFont.cpp:219-221 | after ++m_counter, m_counter-1 is the old counter, also across the 32-bit wrap |
| FontCache.Hit | src/nFont.cpp:250-259 | a hit is the first entry whose hash is the key of (pen, msg); a miss means no entry has it (src/Font.cpp:200-209 is the same code) |
| NFont.PrintSlot | src/nFont.cpp:82-97 | quad slot k of the laid-out vertices holds the quad of character k at its pen, or is unwritten when its glyph is null or not yet fetched |
| NFont.PrintPenTracksMeasure | src/nFont.cpp:82-97 | for glyphs with the face's advances, null only for a character that measures 0 and never for '\n', print's pen after n characters equals the measured pen of those n characters: newlines return to the start x one line lower, even though print also draws a space for them |
| NFont.FetchedAgrees | src/nFont.cpp:84-96 | for text without NUL, and with a rasterisable space when it holds a '\n', the glyphs get_glyph returns are such glyphs |
| NFont.PrintPenIsMeasure | src/nFont.cpp:82-99 | over the glyphs get_glyph returns, print's pen ends where text_width's scan of the whole text ends (same conditions) |
| NFont.PrintOneLineWidth | src/nFont.cpp:82-99 | over the glyphs get_glyph returns, a single-line string without NUL moves print's pen right by exactly text_width and leaves it on its row |
| NFont.PaletteEntries | src/nFont.cpp:122-139 | the palette holds the 16 named colours in source order, white at 0 and orange at 15; an index of 16 or more reads the memory past the array |
| NFont.Scan | src/nFont.cpp:141-159 | each scan consumes at least one character, and reading past the end means the terminating NUL |
| NFont.TokensFrom | src/nFont.cpp:141-170 | the escape parser yields no more tokens than characters |
| NFont.TokensStep | src/nFont.cpp:141-170 | each loop pass consumes exactly the next token |
| NFont.TokensBounds | src/nFont.cpp:149-155 | an escape selects a palette index below 100, which may be past the 16 entries |
| NFont.TokensOfPlain | src/nFont.cpp:141-170 | text without '^' is one glyph per character, with newlines as line breaks |
| NFont.EscapeExamples | src/nFont.cpp:147-159 | "^12" selects colour 12, "^3" selects 3, "^^" emits a caret, a trailing '^' emits the NUL terminator, and "^x" emits x |
| NFont.CBrush | src/nFont.cpp:141-171 | cprint emits no more quads than tokens |
| NFont.CVerts | src/nFont.cpp:141-170 | cprint's vertex array keeps its 4*len size |
| NFont.CVertsPacked | src/nFont.cpp:167-171 | every slot past the emitted quads stays unwritten, so the corrected vertCount 4*vi covers every written vertex |
| NFont.Font.constructor | src/nFont.cpp:23-30 | a new font has counter 0, vertex count 0, cache not updated, TTL 1 and an empty cache |
| NFont.Font.VertexCount | src/nFont.cpp:43-45 | kInvalidIndex until update_cache has run since the last new string; then m_vertCount, unreduced |
| NFont.Font.TriCount | src/nFont.cpp:49-51 | kInvalidIndex under the same guard; otherwise m_vertCount >> 1 |
| NFont.Font.SetPosition | src/nFont.cpp:59-61 | sets both the pen and the requested pen, and nothing else |
| NFont.Font.InitPosition | src/nFont.cpp:54-56 | places the pen at x 5, one maximal glyph height below the screen height |
| NFont.Font.FindCached | src/nFont.cpp:250-259 | returns the first entry keyed by the current pen and msg, or none |
| NFont.Font.Cache | src/nFont.cpp:237-247 | appends one entry at the back with the seeded hash, lastUsed = counter and room for 4 vertices per character; clears the updated flag |
| NFont.Font.Reuse | src/nFont.cpp:71-76 | a hit stamps the entry with the current generation, moves the pen by its delta and adds no entry |
| NFont.Font.LayOut | src/nFont.cpp:80-97 | the loop's pen and vertices are print's specification over the glyphs get_glyph returned for each character ('\n' fetched as ' '); for text without NUL the pen ends at text_width's measured pen (given a space glyph when the text holds '\n'), and on one line text_width to the right of the start |
| NFont.Font.PrintAt | src/nFont.cpp:84-96 | one pass fetches what get_glyph returns for the character, '\n' looked up as ' ', skips a null glyph without moving the pen, otherwise draws quad i, advances, and after '\n' returns to the start x one line lower |
| NFont.Font.Print | src/nFont.cpp:66-100 | empty msg: no change, the glyph memo and atlas included; hit: stamp, move the pen by the delta, no new entry, no glyph fetched; miss: one new entry holding the quads of the glyphs get_glyph returned and the pen delta, the pen moved to the end, the updated flag cleared; on a miss the pen ends at text_width's measured pen for text without NUL (given a space glyph when it holds '\n'), and a single line moves it right by exactly text_width |
| NFont.Font.Draw | src/nFont.cpp:161-169 | the glyph is what get_glyph returns for the character; a null glyph draws nothing; otherwise quad vi is drawn, the pen advances and vi goes up by one |
| NFont.Font.CPrintAt | src/nFont.cpp:141-170 | one pass consumes one token: a newline moves the pen, an escape changes the colour, a glyph is drawn into the next free quad |
| NFont.Font.CLayOut | src/nFont.cpp:119-170 | the loop's pen, colour, quad count and vertices are cprint's specification over the token list and the glyphs get_glyph returned for the drawn characters, starting in white |
| NFont.Font.CPrint | src/nFont.cpp:105-174 | like print (an empty msg or a hit leaves the glyph memo and atlas untouched), but a miss stores 4 x emitted quads as the vertex count and the delta of the escape-aware pen, over the glyphs get_glyph returned |
| NFont.Font.UpdateCache | src/nFont.cpp:216-234 | the counter goes up by one mod 2^32; the cache becomes exactly the live entries in order; the vertex count is their total; the updated flag is set; the pen returns to the requested pen |
| NFont.Font.GetGeometry | src/nFont.cpp:201-213 | vb starts with the entries' vertices in order, ib with two triangles per quad over all of them, and the texture is the atlas's |
| NFont.GeometryIsRepeatable | src/nFont.cpp:201-213 | a second get_geometry with nothing printed in between writes the same buffers |
| NFont.CountsSizeGeometry | src/nFont.cpp:43-51 | after update_cache, vertex_count() and tri_count() are exactly the numbers of vertices and triangles get_geometry writes |
| LegacyFont.BlankTris | src/Font.cpp:193 | a new triangle array of n slots holds n unwritten triangles |
| LegacyFont.PrintTris | src/Font.cpp:128-129 | a string's triangle list has two slots per character |
| LegacyFont.PrintPenTracksMeasure | src/Font.cpp:93-132 | for glyphs with the face's advances, null only for a character that measures 0, print's pen after n characters is the measured pen of those n characters |
| LegacyFont.FetchedAgrees | src/Font.cpp:100-104 | for text without NUL, the glyphs get_glyph returns are such glyphs |
| LegacyFont.PrintPenIsMeasure | src/Font.cpp:91-132 | over the glyphs get_glyph returns, print's pen on text without NUL ends where text_width's scan of the whole text ends |
| LegacyFont.PrintOneLineWidth | src/Font.cpp:91-135 | over the glyphs get_glyph returns, a single-line string without NUL moves print's pen right by exactly text_width |
| LegacyFont.PrintSlot | src/Font.cpp:93-132 | quad slot k holds character k's quad at its pen, or is unwritten for a line break or a null glyph |
| LegacyFont.TriSlot | src/Font.cpp:128-129 | triangle slots 2k and 2k+1 hold the local triangles of quad k when it is drawn, and are unwritten otherwise |
| LegacyFont.EntryTrisAreTriangulation | src/Font.cpp:128-129 | a drawn character's triangles are those of the plain triangulation of the string's quads |
| LegacyFont.SkipStep | src/Font.cpp:94-104 | a line break or a null glyph writes nothing and only moves the pen |
| LegacyFont.DrawStep | src/Font.cpp:108-131 | a drawn character writes its quad and its two triangles into its own slots and advances the pen |
| LegacyFont.WriteQuadIndices | src/Font.cpp:128-129 | writes (4i,4i+1,4i+3) and (4i+3,4i+1,4i+2) into slots 2i and 2i+1 and nothing else |
| LegacyFont.AsWrittenTOffIsVertexOffset | src/Font.cpp:147-152 | as written, the triangle offset after each entry equals the vertex offset, twice what it should be |
| LegacyFont.AsWrittenOverruns | src/Font.cpp:147-152 | whenever an entry follows a non-empty one, get_geometry writes past the tri_count() triangles a caller sizes ib for |
| LegacyFont.AsWrittenTwoEntries | src/Font.cpp:147-152 | two one-quad strings: tri_count() is 4, yet the second quad's triangles go to slots 4 and 5 |
| LegacyFont.AsWrittenReachPrefix | src/Font.cpp:142-154 | the as-written writes of the first j entries end no later than those of all entries |
| FontCache.TriangulationConcat | src/nFont.cpp:207-211 | the triangulation of a quads followed by that of b quads, based after them, is the triangulation of a+b quads |
| LegacyFont.Font.constructor | src/Font.cpp:39-46 | a new font has counter 0, vertex count 0, cache not updated, TTL 1 and an empty cache |
| LegacyFont.Font.VertexCount | src/Font.cpp:59-61 | kInvalidIndex until update_cache has run since the last new string; then m_vertCount, unreduced |
| LegacyFont.Font.TriCount | src/Font.cpp:64-67 | kInvalidIndex under the same guard; otherwise m_vertCount >> 1 |
| LegacyFont.Font.SetPosition | src/Font.cpp:70-72 | sets both the pen and the requested pen, and nothing else |
| LegacyFont.Font.FindCached | src/Font.cpp:200-209 | returns the first entry keyed by the current pen and msg, or none |
| LegacyFont.Font.Cache | src/Font.cpp:185-197 | appends one entry with the seeded hash, lastUsed = counter, 4 vertex and 2 triangle slots per character; clears the updated flag |
| LegacyFont.Font.Reuse | src/Font.cpp:82-87 | a hit stamps the entry, moves the pen by its delta and adds no entry |
| LegacyFont.Font.LayOut | src/Font.cpp:91-132 | the loop's pen, vertices and triangles are print's specification over the glyphs get_glyph returned (none for '\n'); for text without NUL the pen ends at text_width's measured pen, and on one line text_width to the right of the start |
| LegacyFont.Font.PrintAt | src/Font.cpp:93-132 | one pass: a line break fetches nothing and returns to the start x one line lower; any other character gets what get_glyph returns, and a null glyph is skipped; otherwise quad i and its triangles are written and the pen advances |
| LegacyFont.Font.Print | src/Font.cpp:77-135 | empty msg: no change, the glyph memo and atlas included; hit: stamp and move by the delta, no glyph fetched; miss: one new entry with the quads and triangles of the glyphs get_glyph returned and the pen delta, and the pen moved to the end; on a miss the pen ends at text_width's measured pen for text without NUL, and a single line moves it right by exactly text_width |
| LegacyFont.Font.UpdateCache | src/Font.cpp:160-182 | the counter goes up by one; the cache becomes exactly the live entries in order; the vertex count is their total; the updated flag is set; the pen returns to the requested pen |
| LegacyFont.Font.GetGeometryAsWritten | src/Font.cpp:138-157 | vb gets the entries' vertices in order; ib gets each entry's triangles based at its vertex offset, but written at the doubled offset, so ib must reach further than tri_count() |
| LegacyFont.IndexEntryAsWritten | src/Font.cpp:147-152 | one pass of the as-written loop writes one entry's triangles at the doubled offset |
| LegacyFont.Font.GetGeometry | src/Font.cpp:138-157 | with the index offset advanced once per quad: vb gets the vertices in order, and ib gets two triangles per quad over all of them within tri_count() slots |
| LegacyFont.IndexEntry | src/Font.cpp:147-150 | one entry's triangles extend the triangulation written so far by its quads |
| LegacyFont.AppendQuads | src/Font.cpp:147-150 | writing q quads' triangles and then b more after them is writing the triangulation of q+b quads |
| LegacyFont.CountsSizeGeometry | src/Font.cpp:59-67 | after update_cache, vertex_count() and tri_count() are exactly what the corrected get_geometry writes |

## Left out

- FreeType (`FT_Load_Char`, bitmap flip, metrics, `load`, the `freetype::` init and cleanup): an oracle `raster` parameter fixed when the face is built. The 128 x 128 atlas created in `load` is kept.
- OpenGL: texture creation and upload in `init_atlas`/`add`/`add_glyph`, texture ids, `gl_error_check`. The texture id is an opaque number.
- The renderers (src/FontRenderers.cpp, src/nFontRenderers.cpp), the SDL framework and the demo programs (src/fonts.cpp, src/main.cpp).
- Floating point: UVs are integer pixel corners instead of fractions of the atlas size, and a glyph advance is an integer (the source shifts it out of 26.6 fixed point).
- Pen coordinates, `maxSize` and vertex positions are unbounded integers. The `int32` overflow of the pen is not modelled, and neither is the `uint32`-to-`int32` conversion when the line height is subtracted.
- Uninitialised memory: new vertex and triangle arrays are modelled as blank slots. A `Vec2` made by the default constructor (either `Font`'s pen and requested pen before `set_position`) starts at (0,0). The `Glyph` that get_glyph declares (src/nFontFace.cpp:282) leaves `botLeft`, `topRight` and `owner` uninitialised, and a failed atlas add does not set them; the model chooses zero corners and a null `owner`. Since `owner` is one of the fields `Glyph::operator==` compares, the model takes such a glyph for Glyph::null only when its code is NUL and its width 0.
- `size_t` counts (`m_vertCount`, `vertex_count()`, `tri_count()`, an entry's `vertCount`) are unbounded naturals; a 64-bit wrap is not modelled.
- NFont.Palette: the escapes `^16` to `^99` read past the 16-entry array; the model takes the words read there as a parameter `beyond`.
- NFont.PrintPenTracksMeasure: needs glyphs that are null only for characters measuring 0 and never for '\n'. NFont.FetchedAgrees supplies this for text without NUL. A NUL can be rasterised to a glyph equal to Glyph::null that print skips but text_width measures. A '\n' whose space glyph is missing is skipped by print, so it breaks no line.
- NFont.PrintOneLineWidth: stated for text without NUL, for the reason above.
- LegacyFont.PrintPenTracksMeasure: needs glyphs that are null only for characters measuring 0. LegacyFont.FetchedAgrees supplies this for text without NUL, for the reason above.
- LegacyFont.PrintOneLineWidth: stated for text without NUL, for the same reason.
- Cache entries hold their vertex arrays by value. Ownership, `new`/`delete`, the destructors and their leak of `tris` are not modelled, nor are copy constructors and assignment operators.
- The legacy entries' `tris` arrays are built but never read by `get_geometry`. The model builds and specifies them all the same.
- The empty `Font::generate` stubs of src/Font.cpp:212-245. They have no effect.
- `MemPool::free`, `prev_free`, `defragment`, `data`, `size` and `available`: stubs that do nothing or return fields or constants.
- `FontFace::name`/`size`, the `HashTable` template and `FontStdAllocPolicy`. They are declared or trivial accessors.
- `Vec3`, and the byte-level layout of `Color32` and `Glyph`. A colour is its 32-bit value. A glyph is a record with `owner` as an optional atlas reference, null until an atlas add succeeds.
- The stderr diagnostics.
- The header FontFace.hpp of the legacy `Font` is not part of this model. The legacy `Font` is modelled over the same `FontFace` as `ngl::Font`; it uses only `get_glyph` and `maxSize` from it.
- TextLayout.WordWrapSplit: states no width bound for word-wrapped lines. The running width that split tests includes carried word widths, so it is not the width of the line that is emitted.

## Findings

| source | as written | input that shows it | evidently intended | confidence | as-written member | corrected member |
|---|---|---|---|---|---|---|
| src/Font.cpp:152 | `get_geometry` advances `tOff` by 2 per quad inside the loop and then again by `vertCount/2` after it, so each entry's triangles land at twice the right offset. The buffer that `tri_count()` sizes is overrun. | two cached one-character strings: `tri_count()` is 4, but the second quad's triangles are written to slots 4 and 5 | advance the index offset only in the loop, as src/nFont.cpp:207-211 does, giving two triangles per quad within `tri_count()` slots | high, not executed | LegacyFont.AsWrittenTwoEntries | LegacyFont.Font.GetGeometry |
