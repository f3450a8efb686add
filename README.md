# papirus_rs in Dafny

A model of the core of `papirus_rs`, a Rust driver for the PaPiRus e-paper
display, with proofs of what the driver promises. The driver does three things:

* **Rendering** (`TextRendering`, `text_rendering.dfy`). It renders text onto a
  greyscale canvas and packs the canvas into the byte stream the panel
  expects.
  * `render_image` splits the text on `"\n"`. It stamps each piece, in
    order, onto a zeroed canvas with line numbers 1, 2, 3, …
  * `render_text` walks the pixels row by row, left to right.
    * It ORs bit `7 - x % 8` of an accumulator for every non-zero pixel.
    * At every flush column it pushes the bit-reversed accumulator and
      resets it. A flush column is one where `(x + 1) % 8 == 0 || x == 199`.
  * The method `RenderText` is proved to return `Pack` of the rendered
    canvas. `Pack` is the specification function, defined by the same walk
    written recursively (`Step`, `PackRowTo`, `PackRowsTo`). Everything
    proved about `Pack` then holds of `render_text`:
    * the output length;
    * the bit layout;
    * uniform canvases;
    * binarisation.
* **Device interface** (`Interface`, `interface.dfy`). The class
  `PapirusDisplay` talks to the panel through files under a root directory,
  `/dev/epd` by default.
  * Writes are modelled as appends to a log field `writes` of
    `(path, bytes)` pairs.
  * Reads are answered from a map from paths to file contents, passed in.
  * `get_display_state` classifies the state text by exact comparison.
* **Errors** (`Errors`, `errors.dfy`). These are the error kinds, their
  construction, `source()`, and the text each kind prints.

The flush literal `199` never matters. Column 199 already satisfies
`(199 + 1) % 8 == 0` (`LegacyFlushRedundant`), so flushes happen exactly at
`x % 8 == 7` for every canvas width. A w × h canvas therefore packs to
`h * (w / 8)` bytes, not `ceil(w * h / 8)` as a plain bit stream would.

When `w % 8 != 0`, the accumulator is not reset at the end of a row:
* when w ≥ 8, the last `w % 8` pixels of a row are ORed into the first byte
  of the next row;
* the tail of the last row is never pushed;
* a canvas narrower than 8 columns pushes no byte at all, since
  `h * (w / 8) == 0` (`NarrowPackEmpty`).

The model follows the code here; `CarryOverExample` shows it on a 9 × 2
canvas. The layout theorem `PackLayout` and the all-ink result `PackInk`
hold for widths that are a multiple of 8, which includes the default 200.

## Model

| member | source | states |
|---|---|---|
| TextRendering.NewRenderer | src/text_rendering.rs:18-29 | `TextRenderer::new` keeps the canvas size it is given |
| TextRendering.DefaultRenderer | src/text_rendering.rs:77-89 | the default canvas is 200 × 90, a width of 25 whole groups of 8 columns |
| TextRendering.Blank | src/text_rendering.rs:32 | the fresh canvas has the renderer's width and height and every pixel is 0 |
| TextRendering.Split | src/text_rendering.rs:33 | splitting on `"\n"` gives one piece more than there are newlines, empty pieces included, and no piece holds a newline |
| TextRendering.JoinSplit | src/text_rendering.rs:33 | splitting loses nothing: joining the pieces with `"\n"` gives back the text |
| TextRendering.SplitJoin | src/text_rendering.rs:33 | newline-free pieces are recovered exactly by splitting their join |
| TextRendering.SplitNewlinesOnly | src/text_rendering.rs:33 | empty text, or text of newlines only, splits into empty pieces only |
| TextRendering.StampLines | src/text_rendering.rs:33-35 | the canvas after `set_line` is called on each piece in order with line numbers 1, 2, 3, …; specified by StampLinesKeepsCanvas and StampEmptyLines |
| TextRendering.RenderedImage | src/text_rendering.rs:31-38 | the canvas `render_image` returns: a zeroed canvas of the renderer's size with the pieces of the text stamped on it; RenderImage computes it, and RenderedSize and BlankTextRendersBlank state its size and blank case |
| TextRendering.RenderImage | src/text_rendering.rs:31-38 | the loop stamps the pieces in order, on a zeroed canvas, with line numbers 1, 2, 3, … |
| TextRendering.StampLinesKeepsCanvas | src/text_rendering.rs:32-35 | if stamping a line keeps the canvas size, the rendered canvas has the renderer's size |
| TextRendering.RenderedSize | src/text_rendering.rs:31-55 | the rendered canvas of a renderer of size w × h packs to h * (w / 8) bytes; 2250 for the default renderer |
| TextRendering.BlankTextRendersBlank | src/text_rendering.rs:31-55 | empty or newline-only text renders a blank canvas, which packs to h * (w / 8) zero bytes |
| TextRendering.RenderText | src/text_rendering.rs:40-55 | the nested pixel loop returns exactly the packing of the rendered canvas |
| TextRendering.Pack | src/text_rendering.rs:42-54 | the bytes `render_text` returns for a canvas, the last accumulator dropped; specified by PackLength (h * (w / 8) bytes), PackLayout (which pixel is which bit), PackZero, PackInk and PackSameInk, and RenderText is proved equal to it |
| TextRendering.PackRowsTo | src/text_rendering.rs:44-53 | the walk over the first n rows, carrying the accumulator from row to row; specified by PackRowsLength and PackRowsGroups |
| TextRendering.PackRow | src/text_rendering.rs:44-53 | the walk over one whole row; specified by PackRowGroups and PackRowZero |
| TextRendering.PackRowTo | src/text_rendering.rs:44-53 | the walk over the first n columns of a row, in column order; specified by PackRowLength, PackRowZeroPrefix and AccumulatedBits |
| TextRendering.Step | src/text_rendering.rs:45-52 | one pass of the loop body on the packer state; StepUpdate proves it equal to the update as the loop writes it, and StepSameInk that it depends only on whether the pixel is zero |
| TextRendering.PixelBit | src/text_rendering.rs:45-47 | the bit a pixel ORs into the accumulator, bit 7 - x % 8 when the pixel is non-zero and nothing otherwise; OrPixelBit and OrShift tie it to the conditional `byte OR (1 << 7 - bit_offset)` |
| TextRendering.IsFlushColumn | src/text_rendering.rs:49 | the flush test `(x + 1) % 8 == 0 or x == 199`; LegacyFlushRedundant proves it holds exactly when x % 8 == 7 |
| TextRendering.OrShift | src/text_rendering.rs:46-47 | the update `byte = byte OR (1 << 7 - bit_offset)` sets bit 7 - bit_offset of the accumulator |
| TextRendering.OrPixelBit | src/text_rendering.rs:45-47 | the conditional OR adds the pixel's bit when the pixel is non-zero, and nothing otherwise |
| TextRendering.StepUpdate | src/text_rendering.rs:45-52 | one pass of the loop body ORs the pixel's bit in; on a flush column it pushes the reversed byte and resets the accumulator to 0, otherwise it keeps the byte and pushes nothing |
| TextRendering.BitIsShift | src/text_rendering.rs:47 | the byte with only bit k set is `1 << k` |
| TextRendering.LegacyFlushRedundant | src/text_rendering.rs:49 | the flush test holds exactly for columns x with x % 8 == 7; the extra `x == 199` adds no flush |
| TextRendering.PackRowLength | src/text_rendering.rs:44-53 | the first n pixels of a row push exactly n / 8 bytes and never change bytes already pushed |
| TextRendering.PackRowsLength | src/text_rendering.rs:44-53 | n rows of width w push n * (w / 8) bytes |
| TextRendering.PackLength | src/text_rendering.rs:44-53 | a w × h canvas packs to h * (w / 8) bytes, for every width |
| TextRendering.DefaultPackLength | src/text_rendering.rs:49 | a 200 × 90 canvas packs to 2250 bytes |
| TextRendering.NarrowPackEmpty | src/text_rendering.rs:44-54 | a canvas narrower than 8 columns never reaches a flush column, so `render_text` returns no bytes at all |
| TextRendering.AccumulatedBits | src/text_rendering.rs:46-47 | for a group walked from a reset accumulator (every group when w % 8 == 0), bit 7 - k of the accumulator is set exactly when column 8j + k has been walked and is non-zero |
| TextRendering.GroupByteBits | src/text_rendering.rs:45-50 | for a group walked from a reset accumulator (every group when w % 8 == 0), bit k of the byte pushed for it is pixel 8j + k, because of MSB-first accumulation followed by reversal |
| TextRendering.RowBytesSnoc | src/text_rendering.rs:49-50 | one more pixel adds a group byte exactly when it completes a group of 8 |
| TextRendering.PackRowGroups | src/text_rendering.rs:44-53 | from a reset accumulator, a row pushes one byte per complete group, and the columns after the last group stay in the accumulator |
| TextRendering.PackRowsGroups | src/text_rendering.rs:44-53 | when w % 8 == 0, every row starts from a reset accumulator and the output is the rows' group bytes in row order |
| TextRendering.RowsBytesAt | src/text_rendering.rs:44-53 | row r's group j is byte r * (w / 8) + j of RowsBytes, the rows' group bytes, which PackRowsGroups makes the output when w % 8 == 0 |
| TextRendering.PackLayout | src/text_rendering.rs:44-53 | when w % 8 == 0, bit k of output byte r * (w / 8) + j is set exactly when pixel (8j + k, r) is non-zero |
| TextRendering.CarryOverExample | src/text_rendering.rs:44-53 | on a 9 × 2 canvas with both ninth pixels set, the ninth pixel of row 0 appears in the byte pushed inside row 1, and row 1's ninth pixel is dropped from the output |
| TextRendering.PackRowZeroPrefix | src/text_rendering.rs:44-52 | zero pixels before a flush column leave the accumulator and output unchanged |
| TextRendering.PackRowZero | src/text_rendering.rs:44-53 | zero pixels keep a zero accumulator zero and push only 0x00 bytes |
| TextRendering.PackZero | src/text_rendering.rs:44-53 | an all-zero canvas of any shape packs to 0x00 bytes only |
| TextRendering.RowBytesInk | src/text_rendering.rs:44-53 | a row of non-zero pixels gives 0xFF group bytes only |
| TextRendering.PackInk | src/text_rendering.rs:44-53 | an all-ink canvas with w % 8 == 0 packs to h * (w / 8) bytes, all 0xFF |
| TextRendering.StepSameInk | src/text_rendering.rs:45 | one pixel's effect depends only on whether it is zero |
| TextRendering.PackSameInk | src/text_rendering.rs:45 | binarisation: two canvases with the same zero/non-zero pattern pack to the same bytes, so every intensity 1 to 255 counts as on |
| TextRendering.ReverseBitsAt | src/text_rendering.rs:50 | `reverse_bits` sends bit 7 - k to bit k |
| TextRendering.ReverseBitsInvolution | src/text_rendering.rs:50 | reversing twice gives the byte back |
| TextRendering.ReverseBitsExamples | src/text_rendering.rs:50 | 0x80 ↔ 0x01, 0xF0 → 0x0F, 0xA0 → 0x05; 0x00 and 0xFF are fixed |
| TextRendering.BitsDetermineByte | src/text_rendering.rs:50 | a byte is determined by its eight bits |
| TextRendering.BitSetOr | src/text_rendering.rs:47 | a bit of `a OR b` is set exactly when it is set in a or in b |
| TextRendering.BitSetSingle | src/text_rendering.rs:47 | `1 << m` has bit m set and no other |
| TextRendering.ReverseBits | src/text_rendering.rs:50 | `u8::reverse_bits`; specified by ReverseBitsAt (bit 7 - k goes to bit k), ReverseBitsInvolution and ReverseBitsExamples |
| Errors.NewError | src/errors.rs:10-14 | `Error::new` wraps the given kind unchanged |
| Errors.Source | src/errors.rs:17-26 | `source()` is `None` for every kind |
| Errors.Message | src/errors.rs:29-39 | every kind has a non-empty message, and an unexpected state's message starts with "An unexpected error has occured: " |
| Errors.UnexpectedMessage | src/errors.rs:36 | the unexpected-state message is that prefix followed by the state text verbatim, and the text can be cut back out of it |
| Errors.FixedMessagesDistinct | src/errors.rs:32-35 | the four fixed messages are pairwise distinct |
| Errors.FixedMessageNotUnexpected | src/errors.rs:32-36 | no fixed message equals an unexpected-state message, whatever the state text |
| Errors.MessageInjective | src/errors.rs:31-37 | different errors print different messages |
| Interface.DevicePath | src/interface.rs:41 | a device path is the root, then `/`, then the file name |
| Interface.DevicePathInjective | src/interface.rs:81 | under one root, different file names give different paths |
| Interface.DevicePathsDistinct | src/interface.rs:40-67 | the command, display, version, current and state files are five different paths |
| Interface.AsciiBytes | src/interface.rs:43 | `as_bytes` on ASCII text gives one byte per character, the character's code, in order; AsciiRoundTrip decodes it back |
| Interface.AsciiString | src/interface.rs:58 | `String::from_utf8` on ASCII bytes gives one character per byte, the byte's code point, in order; AsciiBytesRoundTrip encodes it back |
| Interface.AsciiRoundTrip | src/interface.rs:43 | the bytes written for an ASCII command decode back to the command |
| Interface.AsciiBytesRoundTrip | src/interface.rs:58 | ASCII bytes read from a file decode to text whose bytes are the file's content |
| Interface.CommandBytes | src/interface.rs:18-37 | the commands are the single bytes 0x55 "U", 0x50 "P", 0x46 "F" and 0x43 "C" |
| Interface.DisplayState | src/interface.rs:70-77 | the result is `Ok("Ok")` exactly when the state is "Ok"; an unexpected error carries the state text |
| Interface.DisplayStateRoundTrip | src/interface.rs:70-77 | the state text can be read back from every result |
| Interface.DisplayStateInjective | src/interface.rs:70-77 | different state texts give different results |
| Interface.KnownFaults | src/interface.rs:72-75 | "Unsupported COG", "Panel broken", "DC Failed" and "Unknown" map to their own error kinds |
| Interface.Fallback | src/interface.rs:76 | a text is unknown exactly when it yields an unexpected error carrying that exact text |
| Interface.ExactMatch | src/interface.rs:70-76 | "ok", "Ok\n" and "" are unexpected errors, because matching is exact |
| Interface.UnexpectedStateMessage | src/interface.rs:76 | an unknown state's error message is "An unexpected error has occured: " followed by the state |
| Interface.PapirusDisplay.constructor | src/interface.rs:11-16 | `new` stores the given root verbatim, and nothing has been written yet |
| Interface.PapirusDisplay.Default | src/interface.rs:89-95 | the default root is /dev/epd |
| Interface.PapirusDisplay.ExecuteCommand | src/interface.rs:39-45 | exactly one write is appended: the command's bytes to `<root>/command` |
| Interface.PapirusDisplay.FullUpdate | src/interface.rs:18-21 | appends the one-byte write "U" to `<root>/command` |
| Interface.PapirusDisplay.PartialUpdate | src/interface.rs:23-26 | appends the one-byte write "P" to `<root>/command` |
| Interface.PapirusDisplay.FastUpdate | src/interface.rs:28-32 | appends the one-byte write "F" to `<root>/command` |
| Interface.PapirusDisplay.Clear | src/interface.rs:34-37 | appends the one-byte write "C" to `<root>/command` |
| Interface.PapirusDisplay.WriteData | src/interface.rs:47-53 | appends one write of the given bytes, unchanged, to `<root>/BE/display` |
| Interface.PapirusDisplay.ReadFromInterface | src/interface.rs:80-86 | returns the whole content of `<root>/<name>` |
| Interface.PapirusDisplay.GetVersion | src/interface.rs:55-59 | returns the text of `<root>/version`; its bytes are the file's bytes |
| Interface.PapirusDisplay.GetCurrentDisplay | src/interface.rs:61-64 | returns the bytes of `<root>/current` |
| Interface.PapirusDisplay.GetDisplayState | src/interface.rs:66-78 | reads `<root>/error` and returns DisplayState of its text, so the four fault texts give their own kinds and any other text but "Ok" an unexpected error carrying it; the result is Ok exactly when the file holds "Ok", and the file's text can be read back from the result |

## Left out

- Font rasterisation is a parameter `setLine` of `RenderImage` and `RenderText`. This covers font loading, `v_metrics`, `layout`, `pixel_bounding_box` and `glyph.draw`; the model takes the canvas after one line is stamped as given. What is proved about stamping assumes only what `setLine` is stated to do (`KeepsCanvas`, `EmptyLineDrawsNothing`).
- Floating point is left out:
  - the font scale `height_px * width_scale_factor`;
  - the glyph baseline;
  - the intensity `(v * 255.0) as u8`.
- The line number passed to `set_line` is a natural number, not an `f32`.
- TextRendering.NewRenderer: keeps only the canvas size. The font path and the two scale factors feed only font rasterisation.
- Off-canvas glyph placement (the `as u32` cast of the bounding box and `put_pixel`'s bounds) is library behaviour, so no clipping policy is modelled.
- Real file I/O is left out: `File::open`, `OpenOptions` (which neither creates missing files nor truncates, so a write overwrites the file from offset 0 and leaves any longer old tail in place; the write log records what was written, not the file's resulting content), `write`, `flush`, `read_to_end` and the panics of their `unwrap`s. Writes always succeed in the model, and every byte given is written. Reads are answered from a map the caller passes.
- Interface.PapirusDisplay.ReadFromInterface: requires the file to exist. The driver panics when it does not.
- Interface.PapirusDisplay.GetVersion: requires the version file to hold ASCII bytes. The driver accepts any valid UTF-8, which this model does not decode, and panics on invalid UTF-8.
- Interface.PapirusDisplay.GetDisplayState: requires the state file to hold ASCII bytes, for the same reason. Every state text the driver recognises is ASCII.
- Byte types differ between modules:
  - Bytes in `Interface` are integers 0 to 255.
  - Bytes in `TextRendering` are `bv8`, because the packer needs bit operations.
  - Both stand for Rust's `u8`.
- `get_current_display` and `get_display_state` take the display by value. Consuming the display is not modelled: the methods leave it unchanged.
- The `fmt::Formatter` and `std::error::Error` trait plumbing is left out; messages are plain strings.
- The `serial_test` attributes of the tests are left out; they only serialise the tests.
- `src/lib.rs` is not part of this model. It only declares modules.
