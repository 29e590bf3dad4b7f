# NiceShot core, modelled in Dafny

NiceShot is a GameMaker extension for screenshots and video capture. It has
two parts: a Windows DLL with GameMaker entry points, and a standalone
converter that turns a recording of raw RGBA frames into H.264. This project
models three pieces of them and proves properties of each.

- **RGBA to YUV 4:2:0 conversion** (`Yuv420`, `yuv420.dfy`). This is the
  converter's `convert_rgba_to_yuv420p_fast`.
  - It is an imperative method over arrays, with the source's nested loops
    over 2x2 blocks.
  - It is proved against reference planes. `LumaAt` gives the luma of each
    pixel, and `UAt`/`VAt` give the chroma of each block.
  - The fixed-point arithmetic is written out: integer luma, `uint32_t`
    chroma with wrap-around and a logical shift, and truncation to `uint8_t`.
- **Recording-descriptor reading** (`RecordingDescriptor`,
  `recording_descriptor.dfy`, with `StdString` for the `std::string`
  searches).
  - It covers `extract_json_string` and the text trimming of
    `extract_json_number`.
  - It covers `parse_recording_json`, modelled as a loop over the
    descriptor's lines. A fold specifies that loop, and lemmas prove which
    line decides each field and when the descriptor is valid.
- **Extension lifecycle** (`Extension`, `extension.dfy`). The DLL's
  `g_initialized` flag becomes the class `NiceShot`. Its methods are
  `niceshot_init`, `niceshot_shutdown`, `niceshot_test`,
  `niceshot_get_version` and `niceshot_save_png`.

`extract_json_string` is modelled as written. On a descriptor line
`"raw_file": "capture.raw",` it returns the separator `: ` (colon, space),
the text between the key's closing quote and the value's opening quote, not
the value. `ExtractJsonStringOnKeyValueLine` states this. The rest of the model
uses this behaviour.

## Model

| member | source | states |
|---|---|---|
| StdString.Find | NiceShot_Converter.cpp:33-39 | `find(c, from)` returns the first position at or after `from` holding `c`, and returns none exactly when no such position exists |
| StdString.FindFirstNotOf | NiceShot_Converter.cpp:56 | `find_first_not_of` returns the first position whose character is outside the set, with every earlier character inside it; none means every character is in the set |
| StdString.FindLastNotOf | NiceShot_Converter.cpp:57 | `find_last_not_of` returns the last position whose character is outside the set, with every later character inside it; none means every character is in the set |
| StdString.FindIsFirstPosition | NiceShot_Converter.cpp:33-39 | repeated `find` calls walk the list of positions of `c` in order: each returns the head of the remaining positions |
| StdString.PositionsSound | NiceShot_Converter.cpp:33-39 | every listed position lies in the string and holds `c` |
| RecordingDescriptor.ExtractJsonString | NiceShot_Converter.cpp:32-43 | the result never contains `"`, and a non-empty result occurs as a contiguous substring of the line |
| RecordingDescriptor.ExtractJsonStringBetweenQuotes | NiceShot_Converter.cpp:32-43 | with fewer than three `"` the result is empty; otherwise it is exactly the text strictly between the second and the third `"` |
| RecordingDescriptor.ExtractJsonStringAt | NiceShot_Converter.cpp:33-42 | with quotes at `first < second < end` and none elsewhere before `end`, the result is the text strictly between `second` and `end` |
| RecordingDescriptor.ExtractJsonStringOnKeyValueLine | NiceShot_Converter.cpp:32-43 | on a line laid out as `<indent>"<key>"<sep>"<rest>` the result is the separator, not the value |
| RecordingDescriptor.ValueSegment | NiceShot_Converter.cpp:46-53 | there is no segment exactly when the line has no `:`; otherwise the segment is the text that starts right after the first `:` of the line and runs up to the first `,` after it, or to the end of the line when there is none |
| RecordingDescriptor.EraseLeading | NiceShot_Converter.cpp:56 | the result is a suffix of the text; every character removed is a space, tab or `"`, and a non-empty result starts with a character outside that set |
| RecordingDescriptor.EraseTrailing | NiceShot_Converter.cpp:57 | the result is a prefix of the text; every character removed is a space, tab, `"`, `,`, `\n` or `\r`, and a non-empty result ends with a character outside that set |
| RecordingDescriptor.NumberText | NiceShot_Converter.cpp:46-57 | there is text to convert exactly when the line has a `:`; non-empty text starts with a character outside the leading strip set and ends with one outside the trailing strip set |
| RecordingDescriptor.ExtractJsonNumber | NiceShot_Converter.cpp:45-64 | a line without `:` gives 0 without converting anything; otherwise the result is the conversion of the trimmed text |
| RecordingDescriptor.NumberTextStrips | NiceShot_Converter.cpp:46-57 | the text given to `std::stod` is missing exactly when there is no `:`; otherwise it is the value segment with the maximal leading run of space, tab and `"` removed, then the maximal trailing run of space, tab, `"`, `,`, `\n` and `\r` removed |
| RecordingDescriptor.NumberTextEmptyIff | NiceShot_Converter.cpp:55-57 | the trimmed text is empty iff every character of the segment is in the trailing strip set; a non-empty text starts and ends with a kept character |
| RecordingDescriptor.ParseRecording | NiceShot_Converter.cpp:66-104 | a file that cannot be opened yields the default `RecordingInfo`; otherwise the loop applies the if/else-if chain line by line and then sets `valid`, and the result is `Parsed`, the fold of `ApplyLine` over the lines with `valid` set to `Usable` |
| RecordingDescriptor.ApplyLine | NiceShot_Converter.cpp:77-97 | one pass of the if/else-if chain never changes `valid`, and a line that contains none of the seven keys changes nothing |
| RecordingDescriptor.MatchedFieldIsChain | NiceShot_Converter.cpp:77-97 | the field a line selects is the first key it contains, tried in the order raw_file, target_h264, target_mp4, width, height, fps, frame_count |
| RecordingDescriptor.ApplyLineSetsMatchedField | NiceShot_Converter.cpp:76-98 | one line sets at most one field, the one of its first matching key, to the value extracted from that line; every other field and `valid` keep their values |
| RecordingDescriptor.LastMatch | NiceShot_Converter.cpp:76-98 | returns the index of the last line that selects the field, with no later line selecting it; returns none when no line does |
| RecordingDescriptor.LastLineWins | NiceShot_Converter.cpp:76-98 | after all lines are read, each field holds the value from the last line that selects it, or its initial value when no line does |
| RecordingDescriptor.ValidIff | NiceShot_Converter.cpp:66-104 | an unopened file is never valid; an opened one is valid iff the last raw_file and target_h264 lines extract non-empty text and the last width, height and frame_count lines convert to non-zero values |
| RecordingDescriptor.ColonlessCountLine | NiceShot_Converter.cpp:45-96 | when the casts send 0.0 to 0, a width, height or frame_count line without a `:` sets that field to 0 |
| RecordingDescriptor.ValidIgnoresMp4AndFps | NiceShot_Converter.cpp:100-101 | appending a line that selects target_mp4, selects fps or matches no key leaves `valid` unchanged |
| Yuv420.WrapU32 | NiceShot_Converter.cpp:133-134 | `uint32_t` reduction gives a value in 0..2^32-1 that is congruent to its input modulo 2^32 |
| Yuv420.Luma | NiceShot_Converter.cpp:123-126 | `(77r + 150g + 29b) >> 8` lies in 0..255 |
| Yuv420.LumaBetweenChannels | NiceShot_Converter.cpp:123-126 | luma lies between the smallest and the largest channel, and the store to `uint8_t` does not change it |
| Yuv420.LumaGrey | NiceShot_Converter.cpp:123-126 | a grey pixel r = g = b = v has luma v, because the weights sum to 256 |
| Yuv420.Avg4 | NiceShot_Converter.cpp:128-130 | a channel's 2x2 block average lies in 0..255 |
| Yuv420.Avg4BetweenSamples | NiceShot_Converter.cpp:128-130 | the block average lies between the block's smallest and largest sample |
| Yuv420.ChromaStoreIsFloorShift | NiceShot_Converter.cpp:133-134 | the `uint32_t` wrap-around, the logical `>> 8`, the `128 +` and the `uint8_t` store give `(128 + floor(S / 256)) mod 256` for every signed sum S with -2^32 <= S < 2^32 |
| Yuv420.ChromaU | NiceShot_Converter.cpp:133 | for byte channel averages the stored U lies in 1..254 |
| Yuv420.ChromaV | NiceShot_Converter.cpp:134 | for byte channel averages the stored V lies in 1..254 |
| Yuv420.ChromaStoreInRange | NiceShot_Converter.cpp:133-134 | when `floor(S / 256)` lies in -127..126 the stored value is exactly `128 + floor(S / 256)` and lies in 1..254 |
| Yuv420.ChromaIsSignedShift | NiceShot_Converter.cpp:128-134 | for byte averages, U and V equal `128 + floor(S / 256)` of their signed sums, with no truncation |
| Yuv420.ChromaNeutral | NiceShot_Converter.cpp:128-134 | equal channel averages give U = V = 128, since each row of weights sums to zero |
| Yuv420.LumaAt | NiceShot_Converter.cpp:118-126 | the luma of a pixel lies between its smallest and largest colour channel, and a grey pixel's luma is its grey value |
| Yuv420.BlockOriginIsDivMod | NiceShot_Converter.cpp:132 | chroma sample k describes the block at pixel row `2 * (k / (w/2))` and pixel column `2 * (k % (w/2))` |
| Yuv420.BlockOriginInBounds | NiceShot_Converter.cpp:109-116 | every chroma index below `(w/2)(h/2)` names a block whose four pixels lie in the frame |
| Yuv420.ChromaIndexOfBlock | NiceShot_Converter.cpp:109-132 | the block at even (y, x) is stored at `(y/2)*(w/2) + x/2`; that index is inside the chroma plane and leads back to the block, so distinct blocks use distinct indices |
| Yuv420.BlockReadsInBounds | NiceShot_Converter.cpp:109-121 | for every block the loops visit, the lower offsets are one row below the upper ones, and every RGBA byte read lies below `4 * w * h` |
| Yuv420.ReadPixel | NiceShot_Converter.cpp:118-121 | reads the red, green and blue bytes of pixel p at offsets `4p`, `4p + 1` and `4p + 2` |
| Yuv420.PixelLuma | NiceShot_Converter.cpp:118-126 | the luma stored for pixel p is `LumaAt` of the frame at p |
| Yuv420.BlockChroma | NiceShot_Converter.cpp:118-134 | the U and V stored for a block are `BlockU` and `BlockV` of the frame at the block's top-left pixel |
| Yuv420.BlockSamples | NiceShot_Converter.cpp:113-134 | the four luma samples of the block's pixels and the block's U and V samples |
| Yuv420.ConvertBlock | NiceShot_Converter.cpp:113-134 | the block's four luma positions and its chroma index receive their samples, and every other plane entry is unchanged |
| Yuv420.RowPairStep | NiceShot_Converter.cpp:109-116 | a row pair's pixel and chroma offsets lie inside their planes; the next pair starts two pixel rows and one chroma row later; along a chroma row the block origins advance by two pixels |
| Yuv420.ConvertRowPair | NiceShot_Converter.cpp:110-135 | the inner loop writes the luma of both pixel rows and the U and V of the chroma row, and leaves every other plane entry unchanged |
| Yuv420.ConvertRgbaToYuv420p | NiceShot_Converter.cpp:107-137 | for even dimensions, luma index i < w*h ends with the luma of pixel i, and U/V index k < (w/2)(h/2) ends with the chroma of block k (the block at `2 * (k / (w/2))`, `2 * (k % (w/2))`); plane entries beyond those are unchanged |
| Extension.SavePngStatus | src/niceshot.cpp:84-102 | the status is 1.0 or 0.0; it is 1.0 exactly when the extension is initialized, buffer handle, width and height are not `<= 0`, and the path is not null |
| Extension.SavePngAcceptsNaN | src/niceshot.cpp:90 | the `<= 0` checks let NaN values and an infinite width through, and reject negative infinity |
| Extension.NiceShot.constructor | src/niceshot.cpp:22 | the extension starts uninitialized |
| Extension.NiceShot.Init | src/niceshot.cpp:27-46 | returns 1.0 and leaves the extension initialized whether it already was or not; when it already was, nothing changes |
| Extension.NiceShot.Shutdown | src/niceshot.cpp:48-67 | returns 1.0 and leaves the extension uninitialized; when it already was, nothing changes |
| Extension.NiceShot.Test | src/niceshot.cpp:69-77 | returns the -1.0 sentinel when uninitialized, and otherwise the reply computed from its own input; the flag is not modified |
| Extension.NiceShot.GetVersion | src/niceshot.cpp:79-82 | always returns the same version string; the flag is not modified |
| Extension.NiceShot.SavePng | src/niceshot.cpp:84-102 | returns `SavePngStatus` for the current flag and its arguments; the flag is not modified |
| Extension.NiceShot.RunLifecycle | src/niceshot.cpp:27-67 | a session of init and shutdown calls made through `Init` and `Shutdown` returns 1.0 for every call and leaves the flag at `FlagAfter` of its old value and the calls |
| Extension.FlagAfterLastCall | src/niceshot.cpp:27-67 | `FlagAfter`, the flag after a session of init and shutdown calls, is set iff the last call was init, and keeps its value when there was no call; so repeating a call changes nothing |

## Left out

- `convert_raw_to_h264` and `main` (NiceShot_Converter.cpp:139-334) are not part of this model. They configure and drive the x264 encoder, do file I/O, time the work and print progress.
- `std::stod`, the `double` field `fps` and the casts to `uint32_t`/`uint64_t` are not computed. They are a caller-supplied `NumberConversion` that is otherwise uninterpreted, and `stod`'s exception path (returning 0) is folded into that function.
- Opening the descriptor and the `getline` loop are replaced by an optional sequence of lines. `None` stands for a file that cannot be opened; a line is the text `getline` yields, without its newline.
- All console and error output, and `DllMain`, are left out. Apart from the next point, they do not affect any result.
- Extension.NiceShot.SavePng: the log line at src/niceshot.cpp:99 evaluates `(int)(width * height * 4)` on accepted inputs. For NaN or infinite sizes, and for products above `INT_MAX` such as 30000 by 30000, that conversion is undefined behaviour in C++. The model returns 1.0 there and does not capture that behaviour.
- Extension.NiceShot.Test: the reply to an initialized call is `Incremented(input)` rather than the double `input + 1.0`, because floating-point addition is not modelled. So the model does not show that an initialized call with input -2.0 returns -1.0, the same double as the sentinel.
- RecordingDescriptor.NumberConversion: the casts return values of `uint32_t` and `uint64_t`, but what they return for a given double (truncation, out-of-range values, NaN) is left open. Only `CastsKeepZero` (0.0 goes to 0) is stated, and only where a lemma requires it.
- The double parameters of `niceshot_save_png` are the comparison-only `Double` datatype (a finite real, either infinity or NaN). Only what `<= 0` observes is modelled.
- The null check on `filepath` is modelled as `Option<string>`; the string's contents are never inspected.
- The `try`/`catch` branches of `niceshot_init` and `niceshot_shutdown` are left out. Nothing in their `try` blocks can throw an exception the handlers would see, so the 0.0 results are unreachable.
- src/niceshot.h only declares functions, and none of its job-queue and recording API is implemented in the source, so it is not part of this model. Its `niceshot_save_png` prototype also differs from the definition, and the model follows the definition.
- test_x264.cpp is not part of this model. It only checks that x264 links and opens an encoder.
- Yuv420.ConvertRgbaToYuv420p: requires even dimensions, an RGBA buffer of at least `4 * w * h` bytes, large enough planes, and `4 * w * h <= 2^32`. The source reads pixel `x + 1` and row `y + 1` unchecked and computes its offsets in `uint32_t`. With these bounds no offset wraps, and an input outside them is not modelled.
- Yuv420.ConvertRgbaToYuv420p: requires four distinct buffers. The source takes raw pointers that could overlap, and aliasing is not modelled.
- Yuv420.ConvertRgbaToYuv420p: proves the final value of every plane entry, not a count of stores. Together with the distinct chroma indices of `ChromaIndexOfBlock`, this covers "each index is written exactly once" only up to what the final state shows.
- The conversion loop body is split into the methods `ConvertRowPair`, `ConvertBlock`, `BlockSamples`, `PixelLuma`, `BlockChroma` and `ReadPixel`.
  - The row offsets `y * width` and `(y / 2) * uv_width` are kept as running sums, and each offset `(y * width + x) * 4` is written `4 * p` for the pixel index p.
  - A pixel's bytes are read once for its luma and again for the block's chroma. The reads have no effect, so the stored values are the same.
