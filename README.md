# Agar: UCS-4/UTF-8 conversion and the GLX driver's decision logic

This project models three pieces of the Agar GUI toolkit and proves properties of them.

- **The conversion routines of `gui/unicode.c`.**
  - `AG_ImportUnicode` and `AG_CopyUnicode` turn US-ASCII or UTF-8 bytes into NUL-terminated strings of 32-bit units.
  - `AG_ExportUnicode` turns units back into UTF-8.
  - `AG_UCS4Dup` duplicates a unit string.
  - The UTF-8 here is the original form of RFC 2279 (section 2): sequences of 1 to 6 bytes carrying values up to 0x7FFFFFFF.
- **`AG_UCS4Copy` of `core/unicode/ucslcpy.c`.** It is strlcpy for unit strings. Its size argument is in bytes and its return value counts bytes.
- **The decision logic of the GLX driver `gui/drv_glx.c`, with every Xlib call abstracted away.** It covers:
  - the `_MOTIF_WM_HINTS` record;
  - the ICCCM WM_NORMAL_HINTS (section 4.1.2.3 of the ICCCM);
  - the property writes of a window's first map, WM_PROTOCOLS (section 4.1.2.7 of the ICCCM) among them;
  - keycode translation and the modifier masks;
  - the key-state array and modifier word rebuilt from a 32-byte key vector;
  - the focused-window state;
  - the refresh delays;
  - the active cursor;
  - the open-driver count;
  - the alignment tweak for new windows.

Modules:

- **`Wrappers`** holds `Option`.
- **`CStrings`** holds NUL-terminated buffers: `strlen`, and `AG_LengthUCS4` as `Length`.
- **`Utf8`** holds the value-level codec: `EncodeChar`, `EncodeAll`, `Decode` with the 3-byte lead mask as a parameter, and the round-trip lemmas.
- **`Unicode`** holds the array methods of `gui/unicode.c`. Each keeps the loops of the C code and is proved against a function of the input string.
- **`UcsCopy`** models `core/unicode/ucslcpy.c`.
- **`GlxHints`**, **`GlxKeyboard`** and **`GlxDriver`** model `gui/drv_glx.c`.

The methods model the code as written, with the caller obligations it needs. Where the code falls short of its own comments, a corrected function sits beside the faithful one, with the intended property proved about it (see "## Findings").

Assumptions about code that is not part of this model:

- **`AG_CharLengthUTF8` is not part of this model.** `Utf8.CharLength` assumes it classifies a lead byte by its RFC 2279 prefix and returns -1 for a continuation byte, 0xFE and 0xFF.
- **`AG_LengthUCS4` is the index of the first 0 unit** (`CStrings.Length`).
- **`LookupWindowByID` becomes a map from X window ids to windows**; a missing id is the NULL result.
- **The keysym tables of `drv_glx_keymaps.h` and the server's keycode-to-keysym lookup are inputs** (`GlxKeyboard.Keymap`).
- **Unshown headers:**
  - The values of `AG_KEY_*` and `AG_KEYMOD_*` follow the SDL-1.2 numbering Agar uses.
  - The X11 keysyms and `LockMask` are the X11 values.
  - A `keyState` entry is one byte and `AG_KEY_RELEASED` is 0, so `memset(kbd->keyState, 0, kbd->keyCount)` (`gui/drv_glx.c:470`) releases every one of the `keyCount` keys (`GlxKeyboard.Keyboard.ReleaseAll`).
- **Unsigned-to-signed conversion.** Storing an unsigned 32-bit value into an `int` is taken as two's complement (`GlxDriver.ToInt32`).
- **X calls become inputs and outputs:**
  - The outcomes of `XOpenDisplay` and the GLX query are inputs (`OpenEnv`). So is whether the driver's setup succeeds: `devicesOk` covers both the kqueue registration of the X connection (`gui/drv_glx.c:241-254`) and the creation of the mouse and keyboard, since a failure of either takes the same `goto fail` path.
  - The result of `XGetWindowProperty` is an input (`PropertyRead`).
  - Whether the server knows an atom is an input (`Atoms`).
  - The tick counts are inputs.
  - The pointer's modifier mask is an input; None means `XQueryPointer` failed.
  - The `XDefineCursor`/`XUndefineCursor` calls are recorded in a field.
- **A new driver starts with `cursors[0]`, the default cursor, active and no cursor calls made** (`GlxDriver.CursorState`'s constructor). `gui/drv_glx.c` itself assigns `activeCursor` only in `GLX_SetCursor` and `GLX_UnsetCursor`; the initial value is set by code that is not part of this model.
  - The hint blocks written are recorded in a field.
  - The posted "window-gainfocus"/"window-lostfocus" events are recorded in a field.

## Model

| member | source | states |
|---|---|---|
| CStrings.Length | gui/unicode.c:43 | The length of a NUL-terminated buffer is the index of its first terminator, with no terminator before it |
| CStrings.Contents | gui/unicode.c:43 | The string held by a buffer has no NUL, and it followed by a NUL is a prefix of the buffer |
| CStrings.LengthOfTerminated | gui/unicode.c:43 | A NUL-free sequence followed by a NUL has exactly its own length |
| CStrings.StrLen | gui/unicode.c:43 | The scan for the terminator returns the string's length |
| Utf8.CharLength | gui/unicode.c:57 | A lead byte announces 1 to 6 bytes, or -1; a continuation byte always gives -1 |
| Utf8.Width | gui/unicode.c:56-94 | A decoder consumes the announced length, and a single byte for an unclassified one |
| Utf8.SeqLength | gui/unicode.c:213-233 | The encoder picks a length from 1 to 6 for every value up to 0x7fffffff |
| Utf8.ShortestForm | gui/unicode.c:213-230 | The length is chosen by the cut-offs 0x80, 0x800, 0x10000, 0x200000 and 0x4000000: each length exactly for the values whose significant bits need it |
| Utf8.ContByte | gui/unicode.c:237-238 | A continuation byte is always of the form 10xxxxxx |
| Utf8.EncodeChar | gui/unicode.c:236-241 | The bytes of one unit number exactly its chosen length |
| Utf8.EncodeCharIndexed | gui/unicode.c:236-241 | The lead byte comes first, then continuation k holds bits 6*(n-1-k) upwards of the value, filled from the last byte backwards |
| Utf8.LeadAnnouncesLength | gui/unicode.c:213-241 | The lead prefix the encoder writes (0x00, 0xC0, 0xE0, 0xF0, 0xF8, 0xFC) announces exactly the length it chose |
| Utf8.EncodeCharShape | gui/unicode.c:213-241 | An encoded unit is a lead byte announcing its length followed by continuation bytes, and it contains a NUL only for the value 0 |
| Utf8.EncodeAllNoNul | gui/unicode.c:208-242 | A string without NUL units encodes to bytes without a NUL |
| Utf8.EncodeAllDecodable | gui/unicode.c:56-94 | The encoding of any string of encodable units is decodable: every sequence ends inside it |
| Utf8.Decode | gui/unicode.c:56-95 | Decoding writes one unit per sequence, so never more units than bytes |
| Utf8.DecodeAt | gui/unicode.c:56-95 | Decoding at a position yields the unit of the sequence there, then decodes on after it |
| Utf8.DecodeEncodeChar | gui/unicode.c:56-94 | Decoding one encoded unit with the 0x0f lead mask gives it back; with the code's 0x3f mask it gives AsWrittenRoundTrip |
| Utf8.DecodeLength1 | gui/unicode.c:58-60 | The 1-byte form decodes to its value |
| Utf8.DecodeLength2 | gui/unicode.c:61-64 | The 2-byte form decodes to its value |
| Utf8.DecodeLength3Fixed | gui/unicode.c:65-69 | The 3-byte form with lead mask 0x0f decodes to its value |
| Utf8.DecodeLength3AsWritten | gui/unicode.c:65-69 | The 3-byte form with the code's mask 0x3f decodes to the value with bit 17 (0x20000) added |
| Utf8.DecodeLength4 | gui/unicode.c:70-75 | The 4-byte form decodes to its value |
| Utf8.DecodeLength5 | gui/unicode.c:76-82 | The 5-byte form decodes to its value |
| Utf8.DecodeLength6 | gui/unicode.c:83-90 | The 6-byte form decodes to its value |
| Utf8.DecodeEncodeAllWith | gui/unicode.c:56-95 | Decoding the encoding of a whole string gives it back with the 0x0f mask, and gives AsWrittenRoundTripAll with the 0x3f mask |
| Utf8.RoundTripFixed | gui/unicode.c:56-95 | With the 0x0f mask, decode after encode is the identity on every string of values up to 0x7fffffff |
| Utf8.RoundTripAsWritten | gui/unicode.c:66 | As written, decode after encode gives a string back exactly when none of its units needs the 3-byte form |
| Utf8.AsWrittenRoundTripAllIdentity | gui/unicode.c:66 | The as-written round trip leaves a string unchanged iff no unit lies in 0x800..0xFFFF |
| Utf8.AsWrittenRoundTripFixes | gui/unicode.c:66 | The as-written round trip fixes a single unit iff it is not in 0x800..0xFFFF |
| Utf8.ThreeByteFormNotInverted | gui/unicode.c:66 | U+0800 encodes as E0 A0 80 and decodes back as 0x20800 |
| Unicode.WidenByte | gui/unicode.c:51 | A byte is zero-extended: below 0x100, with the byte as its low 8 bits |
| Unicode.Widen | gui/unicode.c:50-52 | Widening keeps the length and widens each byte in place |
| Unicode.AsciiAgrees | gui/unicode.c:49-97 | On 7-bit text the UTF-8 import agrees with the US-ASCII import, and export gives the bytes back |
| Unicode.AsciiDecode | gui/unicode.c:56-95 | On 7-bit text UTF-8 decoding is zero-extension |
| Unicode.AsciiEncodeAll | gui/unicode.c:208-242 | On 7-bit units UTF-8 encoding is the identity on bytes |
| Unicode.ReadSequence | gui/unicode.c:57-94 | Reading at a lead byte assembles the unit of its sequence and leaves the index on its last byte |
| Unicode.ReadUnit | gui/unicode.c:57-94 | The same, for a position in the string before the terminator |
| Unicode.ReadTwo | gui/unicode.c:61-64 | The 2-byte case assembles the sequence's unit and advances one byte |
| Unicode.ReadThree | gui/unicode.c:65-69 | The 3-byte case, with the code's lead mask, assembles the sequence's unit and advances two bytes |
| Unicode.ReadFour | gui/unicode.c:70-75 | The 4-byte case assembles the sequence's unit and advances three bytes |
| Unicode.ReadFive | gui/unicode.c:76-82 | The 5-byte case assembles the sequence's unit and advances four bytes |
| Unicode.ReadSix | gui/unicode.c:83-90 | The 6-byte case assembles the sequence's unit and advances five bytes |
| Unicode.ImportUnicode | gui/unicode.c:38-102 | The new buffer has pLen units, or strlen+1 when pLen is 0. For US-ASCII it holds the widened bytes and a 0. For UTF-8 it holds the decoded units and a 0. Any other conversion leaves it as allocated |
| Unicode.WidenInto | gui/unicode.c:49-54 | The US-ASCII loop stores the widened string followed by 0 |
| Unicode.DecodeInto | gui/unicode.c:55-97 | The UTF-8 loop stores the decoded string followed by 0, one unit per sequence |
| Unicode.DecodeStep | gui/unicode.c:56-94 | One pass stores the next decoded unit at j, moves i past its sequence and changes no other entry |
| Unicode.DecodingStep | gui/unicode.c:56-94 | Entry j of the decoding is the unit of the sequence at i, and decoding continues after it |
| Unicode.CopyUnits | gui/unicode.c:124-184 | The copy loop makes at most one output step per byte of the string |
| Unicode.CopyAt | gui/unicode.c:124-184 | When the capacity test compares the source index with ucs_len and fails, the unit is skipped but j still advances; otherwise the sequence's unit is stored |
| Unicode.CopyUnitsRoomy | gui/unicode.c:124-184 | When every source index is far enough below ucs_len, the copy stores exactly the decoding of the string |
| Unicode.CopyOverrun | gui/unicode.c:124-129 | "ab" with ucs_len 1 skips both units but still advances j to 2 |
| Unicode.Overlay | gui/unicode.c:124-184 | Stored units replace entries; skipped ones leave the old entry |
| Unicode.CopyFixedFrom | gui/unicode.c:124-186 | The corrected copy, testing the output index, always leaves room for the terminator below ucs_len |
| Unicode.CopyFixedDecodes | gui/unicode.c:124-186 | The corrected copy stores a prefix of the decoding, and the whole decoding iff it fits below ucs_len |
| Unicode.CopyUnicode | gui/unicode.c:104-191 | US-ASCII: it copies min(strlen, ucs_len) widened bytes, terminates and returns that count. UTF-8: it returns j, overlays the stored units, writes 0 at j and leaves the rest. Any other conversion returns 0 and changes nothing |
| Unicode.CopyAsciiInto | gui/unicode.c:114-122 | The US-ASCII copy stores the first len widened bytes and a 0, returns len and leaves the rest |
| Unicode.CopyDecodeInto | gui/unicode.c:123-186 | The UTF-8 copy returns the number of output steps, overlays the stored units, writes 0 at j and leaves the rest |
| Unicode.CopyLoop | gui/unicode.c:124-184 | After the loop, stored steps hold their unit, skipped steps keep the old entry and everything from j on is unchanged |
| Unicode.CopyStep | gui/unicode.c:125-183 | One pass stores (or skips) one step at j and moves i past the byte or sequence |
| Unicode.CopyingSkip | gui/unicode.c:127-129 | A failed capacity test skips one byte and one output index |
| Unicode.CopyingStore | gui/unicode.c:130-182 | A passed capacity test stores the sequence's unit and moves past it |
| Unicode.ExportFrom | gui/unicode.c:208-246 | The export never changes bytes already stored, and stores at most dst_size bytes, or one more when none fit |
| Unicode.ExportReport | gui/unicode.c:198-235 | As written, a return value other than -1 is below dst_size-1 exactly when the whole encoding and its NUL fit with a byte to spare (so the empty string into dst_size 1, fully converted, returns 0, which is not below 0). -1 is returned only for a unit above 0x7fffffff |
| Unicode.ExportComplete | gui/unicode.c:208-246 | When the encoding and its NUL fit with a byte to spare, the export stores exactly the encoding and a NUL and returns its length |
| Unicode.EncodeAllCons | gui/unicode.c:208-242 | A string encodes as its first unit's bytes followed by the rest's |
| Unicode.ExportThenImport | gui/unicode.c:208-246 | Exporting, then importing as gui/unicode.c:56-95 does, gives the string back with the 0x0f mask, and the as-written round trip with 0x3f |
| Unicode.ExportUnterminated | gui/unicode.c:234-235 | "ab" into a 3-byte buffer stores "a" with no NUL and returns 2, which the comment reads as no truncation |
| Unicode.ExportIntoNothing | gui/unicode.c:245 | As written, a buffer of size 0 still receives a NUL |
| Unicode.Terminate | gui/unicode.c:196-197 | A NUL is added exactly when the buffer has room for it |
| Unicode.ExportFixedFrom | gui/unicode.c:194-198 | The corrected export never changes bytes already stored |
| Unicode.ExportFixedFits | gui/unicode.c:194-197 | The corrected export stores at most dst_size bytes and ends with a NUL unless dst_size is 0 |
| Unicode.ExportFixedReport | gui/unicode.c:198 | For the corrected export, retval < dst_size exactly when the whole string was converted (the comment's promise); -1 only for a unit above 0x7fffffff |
| Unicode.ExportFixedComplete | gui/unicode.c:194-198 | When the encoding fits below dst_size, the corrected export stores it and a NUL and returns its length |
| Unicode.ExportUnicode | gui/unicode.c:200-250 | UTF-8 export stores exactly ExportFrom's bytes, returns its value and leaves the rest of dst; any other conversion returns -1 and stores nothing |
| Unicode.EncodeInto | gui/unicode.c:207-246 | The UTF-8 loop stores ExportFrom's bytes and returns its value |
| Unicode.StoreTerminator | gui/unicode.c:245-246 | At loop exit the NUL at dst[len] completes the export's bytes, and len is returned |
| Unicode.ExportStep | gui/unicode.c:209-242 | One pass either returns -1 or the truncation length with nothing stored, or stores the unit's sequence and goes on |
| Unicode.SequenceFor | gui/unicode.c:212-233 | The length and lead prefix chosen for a unit are those of its encoding; above 0x7fffffff the length is -1 |
| Unicode.ExportAt | gui/unicode.c:209-242 | One pass of the export loop: error, truncation or a stored sequence, by the unit and the room left |
| Unicode.ExportDone | gui/unicode.c:245-246 | At the end of the string, or with no room, the export stores the NUL and returns len |
| Unicode.EncodeAt | gui/unicode.c:236-241 | Storing one unit puts its encoding at dst[at..] and changes nothing after it |
| Unicode.StoreContinuations | gui/unicode.c:237-240 | The backwards loop fills the continuation bytes with successive 6-bit groups and leaves the lead's bits |
| Unicode.StoreContinuation | gui/unicode.c:238-239 | One continuation byte is 0x80 with the low 6 bits, and the value shifts right by 6 |
| Unicode.Assembled | gui/unicode.c:236-241 | The bytes the loop stored are the unit's encoding |
| Unicode.UCS4Dup | gui/unicode.c:252-263 | The duplicate is a fresh buffer equal to the string and its terminating 0 |
| UcsCopy.KeptUnits | core/unicode/ucslcpy.c:27-48 | The units kept never exceed the source's, and they leave one of bytes/4 units for the terminator |
| UcsCopy.Written | core/unicode/ucslcpy.c:30-54 | With bytes not 0 the destination holds a terminated prefix of the source of that many units; with bytes 0 nothing is written |
| UcsCopy.CopyLoop | core/unicode/ucslcpy.c:42-48 | The do/while copies src into dst up to the budget or through the NUL and leaves the rest |
| UcsCopy.ScanToEnd | core/unicode/ucslcpy.c:55-56 | The scan finds the source's terminator |
| UcsCopy.WrittenShape | core/unicode/ucslcpy.c:39-54 | The written units are the kept prefix followed by one 0 |
| UcsCopy.CopyPhase | core/unicode/ucslcpy.c:39-54 | The copy leaves n 0 after writing the kept units, or non-0 after copying the whole string with its NUL |
| UcsCopy.UCS4Copy | core/unicode/ucslcpy.c:34-60 | It returns 4 times the source length, and dst starts with Written's units and is otherwise unchanged |
| UcsCopy.WrittenFits | core/unicode/ucslcpy.c:26-32 | For bytes 0 or at least 4, the writes fit in bytes, and nothing is truncated iff the string and NUL fit in bytes/4 units |
| UcsCopy.TruncationReported | core/unicode/ucslcpy.c:31-32 | Truncation occurred iff the return value reaches bytes rounded down to a multiple of 4; for multiples of 4 that is the comment's retval >= bytes |
| UcsCopy.TruncationMissedAtOddSize | core/unicode/ucslcpy.c:31-32 | With bytes 9 and a 2-unit source the result is truncated yet the return value 8 is below 9 |
| UcsCopy.SmallSizeOverflows | core/unicode/ucslcpy.c:51-54 | With bytes 1 to 3 the code stores a whole 4-byte terminator |
| UcsCopy.WrittenFixedFits | core/unicode/ucslcpy.c:26-32 | The corrected copy stays within bytes, terminates when a unit fits and writes nothing otherwise |
| GlxHints.BitIf | gui/drv_glx.c:1510-1523 | A conditional flag is either the bit or 0 |
| GlxHints.MotifFor | gui/drv_glx.c:1501-1523 | flags is always FUNCTIONS, DECORATIONS and INPUT_MODE. input_mode is FULL_APPLICATION_MODAL iff the window is modal, otherwise MODELESS. status is 0. Each function and decoration bit is set iff its NO* flag is clear, and no other bit is set |
| GlxHints.MotifWrite | gui/drv_glx.c:1525-1544 | A failed read writes nothing. A property of the Motif type read back keeps its status and takes the new flags, functions, decorations and input mode. Otherwise the new record is written with status 0 |
| GlxHints.MotifWriteStable | gui/drv_glx.c:1531-1539 | Writing the hints over a property that already holds them changes nothing |
| GlxHints.NormalHintsFor | gui/drv_glx.c:1444-1457 | PPosition is set iff ANYPOS is clear. PMinSize and PMaxSize are always set, and nothing else. min/max are 32/4096, or both the window's size under NORESIZE |
| GlxHints.ProtocolsFor | gui/drv_glx.c:1846-1859 | WM_PROTOCOLS holds WM_DELETE_WINDOW iff closing is allowed and WM_TAKE_FOCUS iff focus is denied, in that order, so at most 2 entries |
| GlxHints.WindowTypeAtoms | gui/drv_glx.c:1788-1816 | _NET_WM_WINDOW_TYPE gets the window's own type first (if known), MENU for drop-down and pop-up menus, and DOCK for every type but NORMAL |
| GlxHints.HintsFor | gui/drv_glx.c:1781-1859 | The first map writes _NET_WM_WINDOW_TYPE iff the server knows that atom and at least one type atom is written, and then writes exactly the list WindowTypeAtoms proves (own type first, MENU, DOCK). It appends SKIP_TASKBAR iff the window is not NORMAL and both state atoms exist. It runs each hint setter whose atom exists and the modal and above/below setters by the flags. It sets the input hint only for DENYFOCUS, and writes the WM_PROTOCOLS list ProtocolsFor proves (DELETE then TAKE_FOCUS, at most 2) |
| GlxHints.DenyFocusConsistent | gui/drv_glx.c:1850-1856 | A window refuses the input hint exactly when it asks for WM_TAKE_FOCUS |
| GlxHints.NonNormalMarked | gui/drv_glx.c:1797-1825 | A NORMAL window is never marked dock, menu or skip-taskbar, and every other type is marked dock when the atoms exist |
| GlxKeyboard.LookupKeyCode | gui/drv_glx.c:348-380 | Keysym 0 gives no key. Class 0xff comes from the miscellany table, class 0xfe from the XKB table, and any other class gives the keysym's low byte |
| GlxKeyboard.LatinKeysKeepTheirCode | gui/drv_glx.c:375-377 | A Latin-1 keysym maps to its own code |
| GlxKeyboard.ModRow | gui/drv_glx.c:424-445 | The row found for a keysym is one of Mod1..Mod5 scanned so far |
| GlxKeyboard.ModRowLast | gui/drv_glx.c:424-445 | A keysym has no row iff no scanned entry holds it; otherwise its row is the last row holding it |
| GlxKeyboard.ScanMasksNext | gui/drv_glx.c:426-442 | Each entry of the modifier map assigns 1<<row to the mask of the keysym it holds |
| GlxKeyboard.RowScanIsScanMasks | gui/drv_glx.c:425-444 | Scanning one row entry by entry gives the masks of the whole scan up to there |
| GlxKeyboard.ModifierMasks.Init | gui/drv_glx.c:411-447 | The first call scans rows 3..7 into the masks; later calls change nothing |
| GlxKeyboard.ModifierMasks.ScanRow | gui/drv_glx.c:425-444 | Scanning row i extends the scan by that row |
| GlxKeyboard.ModifierMasks.Note | gui/drv_glx.c:435-442 | An entry sets the mask of Num_Lock, Alt_L/R, Meta_L/R or Mode_switch and nothing else |
| GlxKeyboard.ModBit | gui/drv_glx.c:484-495 | A key's modifier bit is never a lock or mode bit |
| GlxKeyboard.BitOf | gui/drv_glx.c:476 | The bit tested for j is 1<<j |
| GlxKeyboard.KeysAfter | gui/drv_glx.c:470-497 | Specification of the marking loop; its own contract only keeps the array's length, and what it marks is stated by KeysAfterPressed |
| GlxKeyboard.PointerMods | gui/drv_glx.c:464-469 | The pointer contributes only the Caps Lock, Num Lock and Mode bits |
| GlxKeyboard.KeysAfterPressed | gui/drv_glx.c:470-497 | A key is marked pressed iff some keycode whose bit is set in the vector looks up to it |
| GlxKeyboard.ModBitsDisjoint | gui/drv_glx.c:484-495 | Different modifier keys have disjoint bits |
| GlxKeyboard.ModsAfterKey | gui/drv_glx.c:471-497 | A Shift/Ctrl/Alt/Meta bit is set iff it was set before or its key was marked pressed |
| GlxKeyboard.ModifierBitIffKeyDown | gui/drv_glx.c:463-505 | In the final modifier word a Shift/Ctrl/Alt/Meta bit is set iff its key is pressed |
| GlxKeyboard.LockBitsFromPointer | gui/drv_glx.c:464-497 | The Caps Lock, Num Lock and Mode bits come from the pointer only |
| GlxKeyboard.PressedAt | gui/drv_glx.c:476-481 | Keycode 8i+j counts iff bit j of kv[i] is set and it looks up |
| GlxKeyboard.ZeroByteSkipped | gui/drv_glx.c:472-474 | A zero byte of the vector marks no key |
| GlxKeyboard.Keyboard.Update | gui/drv_glx.c:451-508 | The masks are initialised. modState is the pointer bits plus one bit per pressed modifier key. keyState marks exactly the pressed keys, then Caps Lock and Num Lock mirror modState |
| GlxKeyboard.Keyboard.MarkPressed | gui/drv_glx.c:470-497 | The nested loops release every key, then mark the pressed ones and gather their bits |
| GlxKeyboard.Keyboard.ReleaseAll | gui/drv_glx.c:470 | Every key is released, under the stated assumption that a keyState entry is one byte and AG_KEY_RELEASED is 0 |
| GlxKeyboard.Keyboard.MarkByte | gui/drv_glx.c:472-496 | One byte of the vector extends the marking by its 8 keycodes |
| GlxKeyboard.Keyboard.MarkKey | gui/drv_glx.c:476-495 | One keycode extends the marking by one |
| GlxDriver.Sub32 | gui/drv_glx.c:920-923 | Unsigned 32-bit subtraction wraps modulo 2^32 |
| GlxDriver.ToInt32 | gui/drv_glx.c:923 | Storing into an int gives a value in int range congruent to the unsigned one |
| GlxDriver.OpenCounts | gui/drv_glx.c:231-290 | An open returns 0 or -1. It succeeds iff the devices are created and the display was open or opens. On success it counts one more driver with the display open; on failure the globals are unchanged and stay consistent |
| GlxDriver.CloseCounts | gui/drv_glx.c:293-316 | A close counts one fewer, and closes the display iff it was the last driver |
| GlxDriver.CloseUndoesOpen | gui/drv_glx.c:231-316 | A successful open followed by a close restores the globals |
| GlxDriver.Closes | gui/drv_glx.c:293-316 | Helper that counts the close calls of a run for RunConsistent; its contract only bounds the count by the run's length |
| GlxDriver.RunConsistent | gui/drv_glx.c:160-316 | Any sequence of opens and closes keeps the count non-negative and the display open exactly while a driver is. A run with more close calls than the drivers open at its start plus all its open calls, successful or not, fails |
| GlxDriver.DriverClass.InitGlobals | gui/drv_glx.c:160-200 | Only the first driver opens the display; it stays open iff both the display and GLX are available |
| GlxDriver.DriverClass.DestroyGlobals | gui/drv_glx.c:204-216 | The display is closed when no driver is left |
| GlxDriver.DriverClass.Open | gui/drv_glx.c:231-290 | GLX_Open's result and new globals are OpenStep's |
| GlxDriver.DriverClass.Close | gui/drv_glx.c:293-316 | GLX_Close's new globals are CloseStep's |
| GlxDriver.NextDelayBounds | gui/drv_glx.c:920-924 | rCur after rendering is 1 to 2^31-1. It is the nominal delay less the time spent when that is positive. It is 1 when rendering took longer by at most 2^31 ms; beyond that the unsigned subtraction wraps and only the 1 to 2^31-1 bound is stated |
| GlxDriver.Refresh.SetRefreshRate | gui/drv_glx.c:1196-1206 | fps < 1 returns -1 and changes nothing; otherwise rNom becomes 1000/fps rounded down, rCur 0, and the result 0 |
| GlxDriver.RenderDue | gui/drv_glx.c:920 | The render test counts the ticks elapsed since t1 across a wrap of the 32-bit counter: t2 - t1 when t2 >= t1, t2 + 2^32 - t1 otherwise, compared with rNom |
| GlxDriver.RenderDueAfter | gui/drv_glx.c:920 | d ticks after t1 on the wrapping counter, a render is due iff d >= rNom |
| GlxDriver.Refresh.LoopStep | gui/drv_glx.c:917-924 | One pass of the loop's render branch renders iff RenderDue; a render sets t1 to the tick after it and rCur to NextDelay, otherwise t1 and rCur are unchanged |
| GlxDriver.Refresh.Rendered | gui/drv_glx.c:920-924 | After a render rCur is NextDelay of the time spent, and at least 1 |
| GlxDriver.FocusAgreementKept | gui/drv_glx.c:846-855 | The focused window is always the one whose gain-focus notice was posted last |
| GlxDriver.FocusTracked | gui/drv_glx.c:716-735 | FocusIn focuses its window. FocusOut clears the focus and posts one lost-focus notice only for the focused window, and otherwise changes nothing |
| GlxDriver.FocusInPostedTwice | gui/drv_glx.c:720-721 | As written, one FocusIn posts "window-gainfocus" twice |
| GlxDriver.DeliveredOncePostsOne | gui/drv_glx.c:716-735 | The corrected translation posts exactly one gain-focus per FocusIn, at most one notice per event, and tracks the same focus |
| GlxDriver.FocusTracker.Translate | gui/drv_glx.c:716-735 | An unknown X window gives -1 and no change; otherwise the focus updates as translated and the driver event is returned with 1 |
| GlxDriver.FocusTracker.Process | gui/drv_glx.c:846-855 | Processing a focus event updates the focus as processed |
| GlxDriver.Shown | gui/drv_glx.c:1340-1367 | After an XUndefineCursor the window shows the default cursor |
| GlxDriver.CursorState.SetCursor | gui/drv_glx.c:1328-1355 | The active cursor is left alone if already set. Otherwise the default cursor is undefined, any other defined, and it becomes active and visible; the server shows the active cursor |
| GlxDriver.CursorState.UnsetCursor | gui/drv_glx.c:1358-1376 | The default cursor becomes active with one XUndefineCursor unless it already was |
| GlxDriver.MappedWindow.Map | gui/drv_glx.c:1781-1859 | The hints are written on the first map only, then wmHintsSet stays 1; every call maps the window |
| GlxDriver.TweakAlignment | gui/drv_glx.c:2254-2272 | Only y changes, and only for top and bottom alignments |
| GlxDriver.TweakAlignmentKeepsOnScreen | gui/drv_glx.c:2254-2272 | A top-aligned window moves 50 down iff its bottom edge then fits hMax, else goes to y 0. A bottom-aligned one moves 100 up, but never above 0 |

## Left out

- **Xlib and GLX calls** are replaced by inputs and recorded outputs, as listed above. Not modelled:
  - the property formats;
  - `XSync`;
  - cursor pixmaps;
  - Xinerama;
  - the KWM, GNOME, modal and above/below hint setters, whose runs are only recorded as booleans in the hint block.
- **The event loop's waiting** is left out: `select`, kqueue, timerfd, `AG_Delay` and the timers, which are I/O and OS timers. Only its render test and render step are modelled (`Refresh.LoopStep`, `Refresh.Rendered`).
- **Locks** (`agDisplayLock`, the per-driver lock) are concurrency. They are not modelled.
- **Floating point** is not modelled: `GLX_SetOpacity` and the clear colour.
- **`au/au_dev_file.c` and `engine/widget/box.h` are not part of this model.** The first is a writer thread and libsndfile calls; the second holds declarations only.
- **Malloc failure** is not modelled: `AG_ImportUnicode` and `AG_UCS4Dup` are taken to get their buffer.
- **The decoders' caller obligations.** They read continuation bytes without an end check, so `ImportUnicode`, `CopyUnicode` and their loops require every sequence to end before the NUL (`Decodable`, `CopyFits`). They store without a length check, so they require the buffer to hold the result.
- **Unicode.ImportUnicode: UTF-8 import with a pLen too small for the result is not modelled.** The C code then writes past the buffer.
- **Unicode.ExportUnicode requires `dstSize <= dst.Length` and a non-empty `dst`.** That is the buffer the code writes into, since it stores a NUL even for dst_size 0 (see Findings).
- **UcsCopy.UCS4Copy requires `bytes <= 4 * dst.Length`.** This lets the model's array hold what the code writes; for bytes 1..3 that is one unit beyond the stated size (see Findings).
- **GlxKeyboard.Keyboard.Update: keysyms and keycodes are unbounded naturals.**
  - The C `KeySym` and `KeyCode` widths are not modelled.
  - The low byte and the class are taken with /256 and %256.
  - `keyState` must be long enough for every key the tables can yield (`KeysFit`); the C code indexes it unchecked.
- **GlxKeyboard.ModifierMasks: the `modMasksInited` flag and the `modMasks` struct are one object,** with the six masks in a single `MaskSet` field.
- **GlxDriver.TweakAlignment:**
  - `y+50` and `y-100` are computed without 32-bit signed overflow, which is undefined in C.
  - Only the comparison with `hMax`, which converts to unsigned, wraps.
- **GlxDriver.Refresh.SetRefreshRate: fps is an unbounded integer.** `1000/fps` needs no int range for fps >= 1.
- **GlxDriver.DriverClass.Close requires at least one open driver.** Debug builds stop with a fatal error otherwise.
- **GlxDriver.FocusTracker.Translate models only the FocusIn and FocusOut cases** of `GLX_GetNextEvent`. The other event types, and the processing of other driver events, are not part of the focus model.
- **GlxKeyboard.Keyboard.ReleaseAll releases every one of the keyCount entries.** `memset` clears keyCount bytes, and the keyboard header that declares the type of `keyState` is not part of this model. Were an entry wider than one byte, only the first keyCount/sizeof(entry) entries would be cleared, and keys past them would keep their earlier state. The model does not capture that case.
- **`UpdateKeyboardAll`,** which applies `UpdateKeyboard` to every GLX driver, is left out. It is iteration over the driver list.

## Findings

| source | as written | input that shows it | evidently intended | confidence | as-written member | corrected member |
|---|---|---|---|---|---|---|
| gui/unicode.c:66 | The 3-byte decoder masks the lead byte with 0x3f, keeping bit 5 of 1110xxxx (AG_CopyUnicode repeats it at line 143) | U+0800 encodes as E0 A0 80 and decodes as 0x20800 | Mask 0x0f, so decoding inverts encoding for every form | high, not executed | Utf8.ThreeByteFormNotInverted | Utf8.RoundTripFixed |
| gui/unicode.c:124-129 | The capacity tests compare the source index i with ucs_len. The skip still advances j, so the terminator stored at line 185 lands at j, past the units stored | "ab" with ucs_len 1: both units skipped, j = 2, NUL at ucs[2] | Test the output index, so the copy and its NUL stay below ucs_len | high, not executed | Unicode.CopyOverrun | Unicode.CopyFixedDecodes |
| gui/unicode.c:234-235 | A unit that exactly fills dst_size-1 bytes returns len+chlen without storing a NUL | "ab" into dst_size 3 stores "a" with no NUL and returns 2 < 3 | Every return terminates dst, and retval >= dst_size means truncation | medium, not executed | Unicode.ExportUnterminated | Unicode.ExportFixedReport |
| gui/unicode.c:245 | The terminator is stored even when dst_size is 0 | any string with dst_size 0 stores one byte | Nothing is stored for dst_size 0 | high, not executed | Unicode.ExportIntoNothing | Unicode.ExportFixedFits |
| core/unicode/ucslcpy.c:31-32 | The truncation test retval >= bytes misses truncation when bytes is not a multiple of 4 | a 2-unit source into 9 bytes keeps 1 unit and returns 8 < 9 | Compare against bytes rounded down to a multiple of 4 | medium, not executed | UcsCopy.TruncationMissedAtOddSize | UcsCopy.TruncationReported |
| core/unicode/ucslcpy.c:51-54 | bytes 1..3 still stores a whole 4-byte terminator | bytes = 1 stores 4 bytes | Store a terminator only when a unit fits | high, not executed | UcsCopy.SmallSizeOverflows | UcsCopy.WrittenFixedFits |
| gui/drv_glx.c:720-721 | "window-gainfocus" is posted at translation and again at processing (lines 847-848) | one FocusIn for window w posts GainFocus(w) twice | One notice per FocusIn, as FocusOut does | medium, not executed | GlxDriver.FocusInPostedTwice | GlxDriver.DeliveredOncePostsOne |
