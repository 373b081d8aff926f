# doom-nano rendering and sound core, in Dafny

This project models the integer and byte logic of the doom-nano renderer for
a 128 by 64 monochrome SSD1306 panel, together with two smaller pieces:
entity identifiers and the tone player. It proves properties of that model.

- **Framebuffer** (`framebuffer.dfy`). The display buffer is 1024 bytes,
  packed one bit per pixel. Pixel (x, y) is bit `y % 8` of byte
  `x + (y / 8) * 128`, and the least significant bit is the top row.
  - `drawPixel` and `drawByte` are pure functions on that buffer.
  - The depth-buffer reset is a small loop.
- **Blitters as call lists.** Each blitter that draws through `drawPixel`
  (sprite, bitmap, character, text) is modelled as its ordered list of
  `drawPixel` calls (a `Plot`), folded over the buffer by `Apply`. The
  loops of `drawBitmap`, `drawChar` and `drawText` are methods, and each is
  proved equal to that fold. The sprite's loops are written directly as the
  recursive functions `RowsFrom` and `RowFrom`, one call per iteration.
- **Dither shader** (`gradient.dfy`). This is `getGradientPixel`. The
  external dither table is a parameter.
- **Shaded wall column** (`vline.dfy`). This is `drawVLine` on the direct
  buffer path: bits are packed row by row into a local byte, and whole bytes
  are stored at row-group boundaries.
- **Screen melt** (`melt.dfy`). This is `getMeltedPixel` and the 30 frames
  of `meltScreen`. Each frame rewrites the buffer in place.
- **Sprites, bitmaps and text** (`sprite.dfy`, `bitmap.dfy`, `text.dfy`).
  These are `drawSprite` with its floating-point scaling given as
  parameters, `drawBitmap`, `drawChar`, and both `drawText` variants.
  `DrawSprite` follows the depth test as written. `DrawSpriteCorrected`
  uses the corrected depth test (see Findings).
- **UIDs** (`uid.dfy`, `types.dfy`). These are `create_uid` and
  `uid_get_type`, modelled once. The second copy of the two functions is
  shown to agree with the first.
- **Sound** (`sound.dfy`). This covers the divisor, prescaler and compare
  value of `setFrequency`, and `playSound`. The timer interrupt body is a
  pure step function over the player's globals.
- **Shared helpers** (`bits.dfy`, `arith.dfy`). These hold the fixed-width
  conversions of C (`uint8_t`, `uint16_t` and `int8_t` wrap-around, and
  truncating division), single-bit access, and a few arithmetic facts.

The constants are the ones `display.h` defines for itself: `Z_RES_DIVIDER`
is 4, `DISTANCE_MULTIPLIER` is 10, `RES_DIVIDER` is 2 and `MELT_SPEED` is 6.
`constants.h` defines different values for some of these, and they are not
used here. The UID bounds `LEVEL_WIDTH` (64) and `LEVEL_HEIGHT` (57) come from
`constants.h`.

Notes on the code:
- `drawVLine` does not write the depth buffer (display.h:196-225).
- The depth buffer is set to 255 only in `setupDisplay` (display.h:83).
- `drawSprite` draws the bitmap bit itself (display.h:281-287).

## Model

| member | source | states |
|---|---|---|
| Framebuffer.DrawPixel | display.h:174-191 | A write that fails the bounds test leaves the buffer unchanged. A write that passes it leaves pixel (x, y) equal to `color`. |
| Framebuffer.DrawByte | display.h:115-119 | After `drawByte`, the eight pixels of column x in row-group y / 8 are the bits of `b`, least significant bit on top. Every other pixel keeps its value. |
| Framebuffer.ByteIndex | display.h:183 | The byte holding pixel (x, y) is in the buffer. Its column is x and its row-group is y / 8. |
| Framebuffer.DrawPixelSpec | display.h:174-191 | When the pixel passes the bounds test (height 56 in viewport mode, 64 otherwise), exactly bit `y % 8` of byte `x + (y / 8) * 128` becomes `color`. Every other bit and byte keeps its value. Otherwise the buffer is returned unchanged. |
| Framebuffer.DrawPixelEffect | display.h:174-191 | Pixel view of a pixel write: only pixel (x, y) can change, and only when it passes the bounds test, in which case it becomes `color`. |
| Framebuffer.DrawByteEffect | display.h:115-119 | `drawByte` replaces the eight pixels of column x in row-group y / 8 with the bits of `b`, least significant bit on top. It changes no other pixel. |
| Framebuffer.ApplyViewportOnly | display.h:176 | A run of viewport-mode pixel writes never changes the HUD rows 56 to 63. |
| Framebuffer.InitZBuffer | display.h:83 | The reset loop leaves all 32 depth entries at 255 ("no wall"). |
| Bits.MsbIsMirroredLsb | display.h:35-36 | `read_bit(b, n)` reads bits MSB-first: it is bit `7 - n` in the least-significant-first order of the buffer. |
| Gradient.GradientPixel | display.h:160-170 | Level 0 is always dark and every level from `gradient_count - 1` up is always lit, whatever the table holds. |
| Gradient.InteriorLevel | display.h:164-169 | For an interior level of a table whose index terms fit the 16-bit `int` (width at most 128, width times height below 32768), the `max`/`min` clamp has no effect. The pixel is MSB-first bit `x % 8` of table byte `(i*w*h + w*(y mod h) + (x/h) mod w) mod 256`, the `uint8_t` index reduced modulo 256. |
| Gradient.TilingRows | display.h:165 | The dither pattern repeats every `gradient_height` rows. |
| Gradient.TilingColumns | display.h:166-169 | The dither pattern repeats every `8 * gradient_width * gradient_height` columns. |
| VerticalLine.DrawVLine | display.h:196-225 | For a non-empty clamped span and columns x, x+1 on screen, the result is the byte-level line buffer: each byte of the two columns whose row-group meets the span is replaced by its packed span byte, and every other byte is kept. The `drawByte` targets are column x's row-groups top-down, then column x+1's. |
| VerticalLine.DrawColumn | display.h:205-224 | One pass of the `c` loop leaves column `x + c` holding its span bytes in the row-groups from `lo / 8` to `hi / 8`. Every other byte is kept. The bytes are stored in top-down order. |
| VerticalLine.DrawRow | display.h:208-219 | One row keeps the loop state: the local byte holds the span bits of the current row-group above the next row, and finished row-groups have been stored, in order. |
| VerticalLine.FlushColumn | display.h:221-224 | The final partial store completes the last row-group unless the last row was bit 7, in which case nothing more is written. |
| VerticalLine.VLinePixels | display.h:198-224 | In the touched row-groups of columns x and x+1, a row inside the clamped span takes the shader's value at (column, row, intensity). A row outside the span is cleared. Every other pixel is kept. |
| VerticalLine.WritesDistinct | display.h:205-224 | No byte is stored twice. |
| VerticalLine.WritesCoverBlock | display.h:205-224 | A byte is stored if and only if it is in one of the two columns and in a row-group meeting the span. |
| VerticalLine.VLineExtremes | display.h:210 | Intensity 0 paints every pixel of the span black. The top intensity paints every pixel of the span white. |
| VerticalLine.EndsCommute | display.h:198-199 | Swapping the two end rows changes nothing. The clamped span lies within rows 0 to 55. |
| VerticalLine.WhiteLineExample | display.h:205-224 | A full-intensity line at column 10 over rows 0 to 15 fills bytes 10 and 138, and the replicated column fills bytes 11 and 139. |
| Melt.MeltOffset | display.h:101 | Every column's delay, its `MELT_OFFSETS` digit minus `'0'`, is between 1 and 7 frames. |
| Melt.MeltedPixel | display.h:100-112 | While `frame` is below the column's delay, the pixel is the same pixel of the buffer. Afterwards it is the pixel 6 rows higher, or black in the top 6 rows. The `int8_t` source row never wraps. |
| Melt.MeltFrame | display.h:130-145 | Every pixel of a melt frame is `getMeltedPixel` of the buffer as it was before the frame. |
| Melt.MeltFrameColumn | display.h:100-112 | While `frame` is below a column's delay, the column keeps its pixels. Afterwards pixel (x, y) becomes old pixel (x, y - 6), or black when y < 6. |
| Melt.MeltStore | display.h:132-145 | The byte assembled from the partly rewritten buffer equals the frame's byte. The eight reads only reach row-groups at or above the one being written, and bottom-up order has not yet overwritten those. |
| Melt.MeltFrameInPlace | display.h:130-145 | The in-place pass, bottom row-group first and left to right, yields the pure frame function of the pre-frame buffer. |
| Melt.MeltedScreenStart | display.h:123 | Before the first frame nothing has moved. |
| Melt.MeltFrameAdvances | display.h:127-157 | Frame n takes the screen as shifted after n frames to the screen as shifted after n + 1 frames. Each column has moved 6 rows for every frame past its delay, with black above. |
| Melt.MeltEndsBlack | display.h:122-157 | After 30 frames every column has moved at least 23 * 6 rows, so the screen is all black. |
| Melt.MeltBlankFixed | display.h:100-112 | A further frame on the black screen leaves it black. |
| Melt.MeltScreen | display.h:122-157 | The 30-frame loop, counted by an `uint8_t`, leaves the fully shifted screen, which is the black screen. |
| Sprite.ZIndexAsWrittenStuck | display.h:260 | The depth index as written stays in bounds but never passes entry 7. At column 100 it tests entry 7 where entry 25 covers the sprite. |
| Sprite.ZIndex | display.h:260 | The corrected depth index is in bounds. It is the entry `x / 4` covering an on-screen anchor column, and entry 0 for a negative one. |
| Sprite.CounterNoWrap | display.h:264-272 | When the loop is well formed, every value the `uint8_t` counters take is followed by an increment that does not wrap. |
| Sprite.ZIndexAgree | display.h:260 | The index as written and the corrected index are equal if and only if the anchor column is left of 32. |
| Sprite.SpritePlots | display.h:264-292 | Every pixel write of a sprite comes from a visible block whose mask bit is set. It carries that block's bitmap bit, lands inside that block, and is in viewport mode. |
| Sprite.DrawSprite | display.h:242-293 | As written, a sprite failing the depth test on entry `min(max(x, 0), 31) / 4` leaves the buffer unchanged. No sprite changes the HUD rows. |
| Sprite.DrawSpriteCorrected | display.h:258-292 | With the corrected depth test on the entry covering the anchor column, a hidden sprite leaves the buffer unchanged. No sprite changes the HUD rows. |
| Sprite.DrawSpriteAgreesLeft | display.h:258-292 | For an anchor column left of 32, the program as written and the corrected one produce the same buffer. |
| Sprite.DepthTestDiverges | display.h:258-261 | At column 100 with distance 1, when entry 7 records a nearer wall and entry 25 does not, the program as written draws nothing and the corrected one draws the whole sprite. |
| Sprite.DrawSpriteFootprint | display.h:258-292 | As written, a sprite failing the depth test of display.h:260 leaves the buffer unchanged. Otherwise it changes no HUD row and no pixel outside its masked blocks. |
| Sprite.DrawSpriteCorrectedFootprint | display.h:258-292 | The same holds with the corrected depth test. |
| Sprite.BlankMaskDrawsNothing | display.h:282-284 | With an all-zero mask the buffer is unchanged, under either depth test. |
| Sprite.SpritePlotsComplete | display.h:264-292 | Conversely, every visible block on the counters' grid whose mask bit is set is drawn in full. |
| Bitmap.BitmapPlots | display.h:297-310 | Every pixel write of the blit is the write of a (column, row) inside the bitmap whose source bit is 1. |
| Bitmap.ScanlineInBounds | display.h:300-306 | The byte read for column i of row j lies inside the `h * ((w + 7) / 8)` bytes of the bitmap. |
| Bitmap.DotStep | display.h:305-307 | After the `dot` update of column i, its top bit is the source bit of column i, whether the byte was freshly loaded or shifted. |
| Bitmap.DrawBitmapColumn | display.h:305-307 | One column extends the row's pixel writes, and keeps `dot` equal to the source byte shifted by the column's bit position. |
| Bitmap.DrawBitmapRow | display.h:304-308 | The inner loop performs the pixel writes of one source row. |
| Bitmap.DrawBitmap | display.h:297-310 | The nested loops perform the bitmap's pixel writes, row by row. |
| Bitmap.BitmapPlotsExact | display.h:300-308 | A pixel write is made if and only if it is the write of a (column, row) whose source bit is 1, read with row stride `(w + 7) / 8`. |
| Bitmap.BitmapFootprint | display.h:297-310 | A pixel onto which no set source bit maps keeps its value. |
| Bitmap.BitmapPixelShade | display.h:307 | For a bitmap of at most 256 by 256, a set source bit landing on screen leaves its pixel in the dither shade taken with row and column swapped. |
| Text.GlyphIndex | display.h:323 | The glyph used is the first map entry equal to the character, or the terminator's entry when the character is not in the map. |
| Text.FindGlyph | display.h:316-323 | The `uint8_t` linear scan stops at that entry. |
| Text.GlyphNibbles | display.h:325-329 | Even glyphs are bits 7 to 4 of their byte and odd glyphs bits 3 to 0, read left to right. |
| Text.DrawCharLine | display.h:326-331 | The inner loop plots one glyph row. |
| Text.DrawChar | display.h:315-332 | `drawChar` performs the glyph's pixel writes, row by row, for the glyph the scan finds. |
| Text.CharPlotsSet | display.h:330 | Every pixel write of a glyph sets a pixel, in full-screen mode. |
| Text.CharHits | display.h:326-331 | A glyph write lands on an on-screen pixel if and only if the pixel lies in the `CHAR_WIDTH` by `CHAR_HEIGHT` box over a set glyph bit. |
| Text.DrawCharPixel | display.h:315-332 | After `drawChar` an on-screen pixel is lit exactly when it was lit before, or it lies in the box over a set glyph bit. |
| Text.CursorStep | display.h:342 | After k characters the `uint8_t` cursor is `x + k * (CHAR_WIDTH + space)` modulo 256. |
| Text.RamCount | display.h:339-346 | The RAM `drawText` draws characters up to the terminator, stopping right after the first character whose advance takes the cursor past 128. |
| Text.DrawText | display.h:335-347 | The RAM `drawText` draws that many characters, character k at cursor k. |
| Text.FlashCount | display.h:354 | The flash `drawText` draws characters while the cursor is left of 128, up to the terminator. |
| Text.DrawTextFlash | display.h:350-359 | The flash `drawText` draws that many characters, character k at cursor k. |
| Text.FlashDrawsPrefix | display.h:335-359 | The flash variant never draws more characters than the RAM variant. |
| Text.NegativeStartExample | display.h:336-357 | The two variants differ when the start is left of the screen. At x = -3 the RAM variant draws two characters (the cursor wraps from 253 to 2) and the flash variant draws none. |
| Text.TextOnlySets | display.h:339-342 | Text never clears a pixel. |
| Uid.CreateUid | uid.cpp:5-7 | The low four bits of the UID are the low four bits of the type, whether or not the 16-bit value wraps. |
| Uid.LowNibble | uid.cpp:6 | `type & 0b00001111` is the type modulo 16. |
| Uid.UidGetType | uid.cpp:9-10 | The decoded type is below 16. |
| Uid.TypeRoundTrip | uid.cpp:5-11 | Decoding an encoded UID gives back `type & 15`, even when the 16-bit result wraps. |
| Uid.HighTypeBitsIgnored | uid.cpp:6 | Type bits above the low nibble do not affect the UID. |
| Uid.InLevelDecodes | uid.cpp:6 | For x < 64 and y < 57 the packed value does not wrap (at most 58367). `uid / 16` is `y * 64 + x`, and splits back into x and y. |
| Uid.InLevelInjective | uid.cpp:6 | Inside the level, equal UIDs mean equal type nibble, x and y. |
| Uid.NullCollision | uid.cpp:5-7 | Inside the level a UID is `UID_null` if and only if the type nibble, x and y are all 0: the null UID coincides with a type-0 entity at (0, 0). |
| Uid.NullCollisionOutside | uid.cpp:6 | Outside the level the value wraps: row 64 of column 0 also packs to `UID_null`. |
| TypesUid.CreateUid | types.cpp:16-18 | The second `create_uid` returns what the first one returns, for every input. |
| TypesUid.UidGetType | types.cpp:20-22 | The second `uid_get_type` returns what the first one returns, for every input. |
| TypesUid.TypeRoundTrip | types.cpp:16-22 | The type nibble survives encoding and decoding, under 16-bit wrap too. |
| TypesUid.TypeDiscardedAndBounded | types.cpp:17-21 | Type bits above the low nibble are discarded, and the decoded type is below 16. |
| TypesUid.InLevelInjective | types.cpp:17 | Inside the level the encoding does not overflow and is injective. |
| Sound.SetFrequency | sound.h:48-75 | The prescaler bits are 1 to 4 and select their prescaler. `top + 1` is the divisor over that prescaler, rounded to nearest, with no `uint16_t` wrap. |
| Sound.RequiredDivisor | sound.h:49 | For a 16-bit frequency of at least 1 Hz at 16 MHz, the divisor lies between 122 and 8000000, so it is never 0. |
| Sound.PrescalerTier | sound.h:53-68 | The prescaler is the first of 1, 8, 64, 256 whose 16-bit range holds the divisor, and otherwise 1024. |
| Sound.PrescalerChoice | sound.h:53-68 | For every frequency from 1 Hz, the bits are 1 to 4 and match their prescaler, the divisor fits that prescaler's range and no smaller prescaler's, and 1024 is never chosen. |
| Sound.TierBounds | sound.h:53-70 | The divisor is at least its prescaler and below the prescaler times 65536. |
| Sound.RoundedDivision | sound.h:70 | `(d + p / 2) / p` is d / p rounded to nearest, and lies in 1 to 65536 for such a divisor. |
| Sound.CompareValue | sound.h:70 | `top + 1` is the divisor over the prescaler rounded to nearest. The value neither underflows nor exceeds 65535. |
| Sound.Frequency | sound.h:84 | For a nonzero tone byte the frequency is between 77 and 19867 Hz. |
| Sound.PlaySound | sound.h:41-45 | `playSound` sets the pointer, the length and `sound`, and leaves `idx` unchanged. |
| Sound.IsrStepAsWritten | sound.h:81-92 | The interrupt as written: with sound off it changes nothing. While the old `idx` is below the length it increments `idx` and plays the byte at the new `idx`. Otherwise it rewinds, switches sound off and turns the tone off. |
| Sound.IsrStep | sound.h:81-92 | The corrected interrupt is the same, except that it plays the byte at the old `idx`. |
| Sound.PlaybackAsWrittenFrom | sound.h:83-90 | From position i, the interrupt as written plays bytes i + 1 to len, then stops and rewinds. |
| Sound.PlaybackAsWritten | sound.h:83-84 | A sound started from a rewound player plays bytes 1 to len: byte 0 is skipped and the byte after the table is read. |
| Sound.AsWrittenReadsPastTable | sound.h:83-84 | As written, the last tone of a table is read from the byte after the table. |
| Sound.PlaybackFrom | sound.h:81-92 | From position i, the corrected interrupt plays bytes i to len - 1, then stops and rewinds. |
| Sound.Playback | sound.h:81-92 | A sound started from a rewound player plays exactly its len bytes, then `len + 1` interrupts after the start the player is off and rewound. |
| Sound.IdleStays | sound.h:82 | With sound off, any number of interrupts changes nothing. |
| Sound.RestartKeepsPosition | sound.h:41-45 | Because `playSound` keeps `idx`, a sound started while another is at position i starts its own table at byte i + 1, or ends at once when its length is at most i. |
| Sound.TablesPlayable | sound.h:16-25 | Each of the five tables has its declared length and no zero byte. |
| Sound.PlayableTableTones | sound.h:84-85 | With the corrected interrupt, every byte of a playable table stored in flash is played as a tone between 77 and 19867 Hz, never as a division by zero. |
| Sound.PlayableTableTonesAsWritten | sound.h:81-92 | As written, tone k of a playable table is its byte k + 1, for every tone but the last. The sound divides by zero if and only if the byte after the table is 0. |

## Left out

- Frame pacing (`fps`, `getActualFps`) is left out: it is a busy-wait on the clock with `double` arithmetic.
- Display hardware is left out: `display.begin`, `clearDisplay`, `display.display()` and the serial message.
- The melt loop is modelled without its per-frame pacing and refresh calls.
- The non-`OPTIMIZE_SSD1306` branches are left out, because `display.h` defines the macro, which makes them dead code.
- Sprite.DrawSprite: the `double` arithmetic on `distance` is not modelled. It yields `tw`, `th`, `pixel_size` and the screen-to-source coordinate maps, and these are parameters. The depth comparison is computed from the depth buffer and `distance`, but in exact reals, not `double`.
- Sprite.CounterNoWrap: only sprites whose `uint8_t` loop counters do not wrap past 255 are modelled (`CounterEnds`). With a wrapping counter the loops would not end as intended.
- `drawText(int)` is left out: it relies on the library `itoa`.
- Text.DrawText: strings are C strings terminated within the reach of the `uint8_t` index, below 256 characters (`CString`).
- Text.DrawChar: the font must satisfy `Font.Valid`. The character map is terminated within 256 entries, the glyph rows cover the terminator's glyph, a glyph is at most 4 pixels wide, and the height fits the `uint8_t` row counter.
- Text.CharHits: stated for glyphs at most 128 rows high, so that the row wrap of `int8_t` cannot fold two glyph rows onto one pixel. The 4 by 6 font the program uses is within this bound.
- Text.DrawCharPixel: carries the same bound of at most 128 glyph rows as `Text.CharHits`, for the same reason.
- VerticalLine.DrawVLine: requires a non-empty clamped span, because otherwise the final store reads the uninitialised `bp`. It also requires `x + 1 < 128`, because the source does not check `x`: at x = 127 the second column's bytes land in column 0 of the next row-group, so the model keeps both columns in the same row-group. The renderer's even `x`, at most 126, meets this.
- Bitmap.BitmapPixelShade: stated for bitmaps of at most 256 by 256 pixels, where no two source pixels land on the same screen pixel after `int8_t` wrap.
- Gradient.GradientPixel: tables are restricted to `width` at most 128 and `width * height` below 32768 (`Table.Valid`). Beyond that, the 16-bit signed `int` operands of the index's `%` would overflow and the byte read would differ. The tile term `i * width * height` is taken exactly. On two's-complement hardware a wrap of that term would not change the `uint8_t` index.
- Sound.PlayableTableTones: proved for the corrected interrupt only. As written, the last tone reads the byte after the table, so freedom from division by zero depends on that byte (`PlayableTableTonesAsWritten`).
- Melt.MeltOffset: only the first 64 of the 73 offset digits are read (`x % 64`), so the rest are not used.
- Sound.SetFrequency: requires `freq >= 1`, since a zero frequency divides by zero. Tone bytes never produce 0, and the interrupt's zero-byte case is the separate action `DivideByZero`.
- The sound register writes are left out: `TCCR1A/B/C`, `OCR1A`, `sound_init` and the register write of `off()`. They appear only as the timer configuration and the `Off` action.
- The timer interrupt's scheduling and its concurrency with the main loop are left out. `F_CPU` is fixed at 16 MHz.
- Uid.CreateUid: the AVR `int` is 16 bits, so the intermediate `(y * 64 + x) * 16` can overflow a signed `int`. The model reduces the exact value modulo 65536, as the two's-complement hardware does.
- `types.h` is not part of this model. `UID` is taken as `uint16_t`, as `uid.h` declares it.
- The coordinate, entity, player, input and static-entity files are left out: they are `double` plumbing, GPIO, and constructors.
- The `coords_distance` function in `types.cpp` is left out: it uses `sqrt` on doubles.
- The external tables (`gradient`, `CHAR_MAP`, `bmp_font` and the sprite blobs) and their dimensions are parameters. For the gradient and sprite tables, which are reached through an `uint8_t` offset, the model holds the 256 bytes that offset can reach.

## Findings

| source | as written | input that shows it | evidently intended | confidence | as-written member | corrected member |
|---|---|---|---|---|---|---|
| display.h:260 | The depth entry is `min(max(x, 0), ZBUFFER_SIZE - 1) / Z_RES_DIVIDER`. The column is clamped to 31 before the division by 4, so only entries 0 to 7 (columns 0 to 31) are ever consulted. | A sprite anchored at x = 100 at distance 1 is compared with entry 7 (columns 28 to 31) instead of entry 25, the entry covering its own column. When entry 7 is below 10 and entry 25 is not, the sprite is not drawn. | Clamp the column to the screen (`SCREEN_WIDTH - 1`) before dividing, so the entry covering the anchor column is consulted. | not executed | Sprite.DepthTestDiverges | Sprite.ZIndex |
| sound.h:83-84 | `idx++ < snd_len` increments `idx` before the byte at `snd_ptr + idx` is read. | `playSound(walk1_snd, 3)` from a rewound player plays bytes 1, 2 and 3: byte 0 (0x8f) is never played, and byte 3 is past the end of the table. If that byte is 0, the frequency computation divides by zero. | Play bytes 0 to len - 1, reading the byte before advancing `idx`. | not executed | Sound.PlaybackAsWritten | Sound.Playback |
