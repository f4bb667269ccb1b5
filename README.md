# xterm-rs: session recording, scrollback trimming and the context menu, in Dafny

This project models four sequential pieces of the xterm-rs terminal server and proves
properties of them.

- **Cast recorder** (`src/caster/cast.rs`). Every terminal event (input, output,
  resize) is written to the cast file as one frame:
  - 4 bytes of elapsed time;
  - one kind byte (Input 0, Output 1, Resize 2);
  - the payload length as an unsigned LEB128 varint;
  - the payload.

  Heartbeats go to a separate file as 4-byte little-endian `u32`s. In verbose mode the
  frames are also buffered, and a periodic tick logs and clears a non-empty buffer. The
  writer task is the class `Cast.CastWriter`: one method per `select!` arm. Its
  invariant ties the files and the buffer to the events and heartbeats received. The
  proved round trips show that a reader gets back exactly those events, in arrival order.
- **Session logger** (`src/models/logger.rs`). It writes the same record shape, with
  two differences:
  - a payload over 256 bytes is compressed;
  - bit 7 of the kind byte says whether it was.

  The model proves that flag and kind decode independently. It also proves that the
  length field counts the bytes actually written, and that small payloads, including
  every resize payload, come back unchanged. The writer task is `Logger.LogWriter`.
- **Scrollback trimming** (`buf_trim` in `src/models/common.rs`). It walks a buffer
  backwards, counting visual lines, and returns where to cut so that the last
  `max_lines` lines remain. The step function `Common.Step`, iterated by `Common.Run`,
  specifies the loop. `Common.BufTrim` is the loop itself, proved equal to that
  specification. The lemmas give the bounds of the result and the exact cut for
  printable text. The printable branch's line-break test is corrected, as described
  under Findings; the correction provably changes nothing when `cols >= 2`.
  `default_layout` is the constant `Common.DefaultLayout`, which the menu also
  starts from.
- **Context menu** (`static/menu.mjs`). The controller is the class `Menu.ContextMenu`.
  Its state:
  - visibility and position;
  - `currentLayout`;
  - the armed one-shot window listeners, as a set keyed by event type (adding a
    listener that is already there adds nothing);
  - the `checked` class of each item;
  - the clipboard reads still pending;
  - a log of the effects issued (style writes, clipboard requests, pastes, layout
    callbacks).

  A click on an item reaches the menu's own listener first and then bubbles to the
  window's `click` listener.

Shared pieces:
- `Bytes`: bytes, little-endian integers, and the varint with its decoder.
- `Events`: the event kinds, the resize payload, the heartbeat stream and the frame
  shape that both writers use.

### How the menu's listeners behave

- Each window listener is an independent `{ once: true }` registration, and neither
  is tied to the menu being visible.
  - A click on an item hides the menu but leaves both window listeners armed. The
    same click then consumes the `click` one (`OnClick`).
  - Escape consumes only the `keydown` listener.
  - A key other than Escape consumes the `keydown` listener and leaves the menu
    visible (`OnKeydown`, `CloseOnce`). After that only a click can dismiss the menu.
- `showMenu` does not refresh the layout marks. Only the initial `updateLayoutUI()`
  call and a click on a layout item do (`ShowMenu`, `OnMenuItemClick`).

## Model

| member | source | states |
|---|---|---|
| Bytes.U32RoundTrip | src/caster/cast.rs:33 | the 4 little-endian bytes of a `u32` read back as that value |
| Bytes.U16RoundTrip | src/caster/cast.rs:140-141 | the 2 little-endian bytes of a `u16` read back as that value |
| Bytes.LittleEndianRoundTrip | src/caster/cast.rs:33 | reading a `width`-byte little-endian encoding gives back the encoded number |
| Bytes.Varint | src/caster/cast.rs:36-38 | the LEB128 encoding is non-empty, every byte but the last has the continuation bit and the last has not |
| Bytes.VarintLengthOfU32 | src/caster/cast.rs:36-37 | a `u32` length takes 1 to 5 varint bytes, so the 5-byte buffer suffices |
| Bytes.VarintRoundTrip | src/caster/cast.rs:36-38 | decoding a varint, whatever follows it, returns the number and consumes exactly the varint bytes |
| Events.KindCode | src/caster/cast.rs:16-21 | the discriminant is below 3 and `KindOfCode` maps it back to the kind |
| Events.KindOfCode | src/caster/cast.rs:16-21 | a byte names a kind exactly when it is below 3 |
| Events.ResizePayload | src/caster/cast.rs:139-141 | a resize payload is exactly 4 bytes |
| Events.DecodeResize | src/caster/cast.rs:139-141 | a payload decodes as a size exactly when it has 4 bytes |
| Events.ResizeRoundTrip | src/caster/cast.rs:138-141 | the payload reads back as rows (bytes 0-1) and cols (bytes 2-3) |
| Events.ResizeEvt | src/caster/cast.rs:138-149 | `Caster::resize` queues a Resize event with the given elapsed value and a 4-byte payload that yields the size back |
| Events.BeatsLayout | src/caster/cast.rs:92-95 | the heartbeat stream is 4 bytes per beat, and beat k is the little-endian word at bytes 4k..4k+4 |
| Events.FrameLayout | src/caster/cast.rs:30-41 | frame fields by position: elapsed bytes, tag, 1..5 varint bytes, then the data with nothing after it |
| Events.DecodeFrame | src/caster/cast.rs:30-41 | a decoded frame occupies at least 6 bytes and no more than the input |
| Events.FrameRoundTrip | src/caster/cast.rs:30-41 | a frame decodes, whatever follows it, to its elapsed value, tag and data, consuming exactly the frame |
| Events.OversizedDataTruncated | src/caster/cast.rs:37 | with 2^32 or more data bytes, the `as u32` length field no longer lets the frame round-trip |
| Cast.EncodeEvtLayout | src/caster/cast.rs:30-41 | `encode_evt` output is 4 + 1 + (1..5) + payload bytes; the kind discriminant at byte 4, elapsed LE first, payload verbatim as suffix |
| Cast.DecodeEvt | src/caster/cast.rs:30-41 | a decoded event frame occupies at least 6 bytes of the input |
| Cast.EvtRoundTrip | src/caster/cast.rs:30-41 | decoding an event frame returns the original elapsed value, kind and payload, consuming exactly the frame |
| Cast.InputOutputFrames | src/caster/cast.rs:120-137 | an input event's frame has kind byte 0 and an output event's kind byte 1, and each decodes back to its elapsed value, kind and bytes |
| Cast.StreamRoundTrip | src/caster/cast.rs:85-87 | a cast stream decodes to exactly the events written, in order |
| Cast.CastWriter.constructor | src/caster/cast.rs:70-79 | the files start with their existing content (append mode) and the verbose buffer empty |
| Cast.CastWriter.OnEvent | src/caster/cast.rs:85-91 | an event appends exactly its frame to the cast file, and in verbose mode to the buffer, and changes nothing else |
| Cast.CastWriter.OnHeartbeat | src/caster/cast.rs:92-95 | a heartbeat appends exactly its 4 LE bytes to the heartbeat file and changes nothing else |
| Cast.CastWriter.OnTick | src/caster/cast.rs:96-107 | a tick in verbose mode logs a non-empty buffer as one chunk and empties it; an empty buffer is left alone |
| Cast.CastFileDecodes | src/caster/cast.rs:85-91 | a cast file started empty decodes to the events received, in arrival order |
| Logger.EncodePayload | src/models/logger.rs:24-33 | the flag is set exactly for payloads over 256 bytes; unflagged payloads are returned unchanged |
| Logger.KindByteFields | src/models/logger.rs:39 | bit 7 of the kind byte is set iff the data is compressed; the low 7 bits are the kind discriminant |
| Logger.KindByteRoundTrip | src/models/logger.rs:39 | flag and kind decode independently from the kind byte |
| Logger.RecordLayout | src/models/logger.rs:35-48 | a record is elapsed LE, kind byte, varint of the length of the data written after compression, then that data and nothing after |
| Logger.DecodeRecord | src/models/logger.rs:35-48 | a decoded record occupies at least 6 bytes of the input |
| Logger.RecordRoundTrip | src/models/logger.rs:35-48 | a record decodes to its elapsed value, its flag, its kind and the written data, consuming exactly the record |
| Logger.UncompressedRoundTrip | src/models/logger.rs:24-46 | a record of a payload of at most 256 bytes decodes to the original kind and payload with the flag clear |
| Logger.PayloadRoundTrip | src/models/logger.rs:24-48 | with a decompressor that undoes the compressor, every record yields the original payload |
| Logger.ResizeNeverCompressed | src/models/logger.rs:106-117 | a resize record is 10 bytes, is not flagged compressed, and carries the rows/cols payload |
| Logger.RecordsRoundTrip | src/models/logger.rs:35-48 | a log of records decodes, record by record, to each event's elapsed value, flag, kind and written data, in order |
| Logger.CastLogDecodes | src/models/logger.rs:68-72 | a cast log started empty decodes to one record per event received, in arrival order, each giving back the event's elapsed value, kind and original payload |
| Logger.LogWriter.constructor | src/models/logger.rs:58-59 | both files start with their existing content (append mode) |
| Logger.LogWriter.WriteCast | src/models/logger.rs:35-48 | appending the four fields one by one appends exactly the event's record to the cast log |
| Logger.LogWriter.OnHeartbeat | src/models/logger.rs:73-76 | a heartbeat appends exactly 4 LE bytes to the heartbeat file |
| Common.CharStart | src/models/common.rs:86-89 | the backtrack stops at the nearest index at or before `i` that is 0 or not a continuation byte, having passed only continuation bytes |
| Common.LastM | src/models/common.rs:102 | `memrchr`: the last `m` at or before `i`, or None when there is none |
| Common.Step | src/models/common.rs:72-107 | every iteration moves the index strictly back and adds at most one line; the printable branch is corrected (see Findings) |
| Common.Run | src/models/common.rs:71-108 | the loop never moves the index forward, never passes `max_lines`, and stops only at index 0 or on reaching `max_lines` |
| Common.TrimScan | src/models/common.rs:66-109 | the cut is at most `buf.len()`, equals it for an empty buffer or `max_lines == 0`, and a cut above 0 has exactly `max_lines` lines |
| Common.Backtrack | src/models/common.rs:86-89 | the inner loop computes `CharStart` |
| Common.ScanByte | src/models/common.rs:72-107 | one pass of the loop body computes `Step`: newline, printable wrap (tested as `col >= cols`, see Findings), UTF-8 width with overflow kept, ESC jump to `pos - 1` saturating |
| Common.BufTrim | src/models/common.rs:66-109 | the loop returns the cut `TrimScan` specifies, at most `buf.len()`, and `buf.len()` for an empty buffer or `max_lines == 0`; for `cols >= 2` this is the source's cut (`TrimAgreesForTwoOrMoreColumns`) |
| Common.StepOnPrintable | src/models/common.rs:78-83 | a printable byte advances the column by one and wraps to a new line exactly when it reaches `cols` |
| Common.StepKeepsColBelowCols | src/models/common.rs:85-100 | with `cols >= 2`, a wide character's overflow leaves the column below `cols` |
| Common.RunKeepsColBelowCols | src/models/common.rs:71-108 | with `cols >= 2`, the column stays below `cols` for the whole scan |
| Common.RunOnPrintable | src/models/common.rs:71-84 | on printable text, the scan stops after exactly the columns left before `max_lines` lines are full, or at 0 |
| Common.TrimPrintable | src/models/common.rs:66-109 | a printable buffer keeps exactly its last `max_lines * cols` bytes (all of it if shorter) |
| Common.StepAsWritten | src/models/common.rs:78-84 | the printable branch as written, `col == cols`; every iteration still moves the index strictly back and adds at most one line |
| Common.RunAsWritten | src/models/common.rs:71-108 | the source's outer loop, for every `cols`, never moves the index forward, never passes `max_lines`, and stops only at index 0 or on reaching `max_lines` |
| Common.TrimScanAsWritten | src/models/common.rs:66-109 | the source's cut, for every `cols`, is at most `buf.len()`, equals it for an empty buffer or `max_lines == 0`, and a cut above 0 has exactly `max_lines` lines |
| Common.StepAsWrittenAgrees | src/models/common.rs:78-84 | while the column is below `cols`, the source's printable test and the corrected one give the same step |
| Common.RunAsWrittenAgrees | src/models/common.rs:71-108 | with `cols >= 2`, from a column below `cols`, the source's scan and the corrected one end in the same state |
| Common.TrimAgreesForTwoOrMoreColumns | src/models/common.rs:66-109 | with `cols >= 2`, the source's `buf_trim` returns exactly the cut `TrimScan` specifies |
| Common.AsWrittenOverfullLineNeverBreaks | src/models/common.rs:78-84 | in the source, once the column has reached or passed `cols`, a printable byte adds no line and only advances the column |
| Common.PrintableStretchBreaksLine | src/models/common.rs:78-84 | in the corrected scan, `k` printable bytes that fill the line always end it within those `k` bytes |
| Common.OneColumnCounterexample | src/models/common.rs:66-109 | on "aaa" plus a wide character with one column and two lines, the source keeps all 6 bytes with 1 line counted; the corrected scan cuts at 2 with 2 lines |
| Menu.CommandEffects | static/menu.mjs:22-33 | `copy` writes the selection once iff the terminal exists and `hasSelection` answers true; `paste` issues one read iff the terminal exists; other or absent commands issue nothing |
| Menu.LayoutEffects | static/menu.mjs:35-39 | the callback receives the layout iff the layout is truthy and the callback exists |
| Menu.ItemClickEffects | static/menu.mjs:14-40 | an item click issues the hide first and no other hide or show after it, then only the command's and layout's effects |
| Menu.RefreshChecks | static/menu.mjs:60-64 | every layout item is checked iff its layout is current; other items keep their class |
| Menu.ExactlyOneChecked | static/menu.mjs:60-64 | when layouts are distinct and the current one is among them, exactly that item is checked |
| Menu.ContextMenu.constructor | static/menu.mjs:5-65 | `currentLayout` starts as "qwerty" and the marks are refreshed once; nothing is armed or issued |
| Menu.ContextMenu.UpdateLayoutUI | static/menu.mjs:60-64 | the `forEach` loop leaves exactly the marks `RefreshChecks` specifies |
| Menu.ContextMenu.ShowMenu | static/menu.mjs:42-51 | the menu is visible at (x, y), both listeners are armed, and re-arming an armed type adds nothing |
| Menu.ContextMenu.Hide | static/menu.mjs:52-54 | the menu is hidden and one style write is logged; position, listeners, layout and marks are untouched; calling it again leaves it hidden |
| Menu.ContextMenu.CloseOnce | static/menu.mjs:55-58 | a key other than Escape does nothing; Escape or a click hides |
| Menu.ContextMenu.DispatchWindow | static/menu.mjs:49-58 | an armed once-listener is removed before its callback runs; an unarmed one does nothing |
| Menu.ContextMenu.OnContextMenu | static/menu.mjs:7-12 | only with Ctrl held is the default prevented and the menu shown; otherwise nothing changes |
| Menu.ContextMenu.RunCommand | static/menu.mjs:22-33 | the `switch (cmd)` issues `CommandEffects` and leaves one more read pending for `paste` |
| Menu.ContextMenu.OnMenuItemClick | static/menu.mjs:14-40 | the menu is hidden, the effects are `ItemClickEffects`, and a truthy layout becomes current with every mark refreshed to it |
| Menu.ContextMenu.OnClick | static/menu.mjs:14-49 | the click goes to the menu first, then consumes an armed window `click` listener; on an item a truthy layout becomes current with every mark refreshed and a paste leaves one more read pending; outside an item the menu handler changes nothing |
| Menu.ContextMenu.OnKeydown | static/menu.mjs:50-58 | a keypress consumes the armed `keydown` listener; only Escape hides, any other key leaves the menu as it was |
| Menu.ContextMenu.ResolveRead | static/menu.mjs:30 | a resolved read pastes exactly the text read, once |
| Menu.ContextMenu.RejectRead | static/menu.mjs:30 | a rejected read issues nothing |

## Left out

- The tokio machinery: `spawn`, channels, `select!` scheduling, the verbose interval and the final flushes. Each `select!` arm is one method, and any order of calls is allowed.
- I/O errors: writes are appends to sequences, and the `unwrap` panics on a failed write are not modelled.
- Compression: zstd is an abstract function parameter of the logger. In the recorder's tick, zstd, base64 and the stdout JSON `logger` are left out. A logged chunk is the raw buffer content.
- `from_utf8` and `UnicodeWidthChar::width` are folded into one abstract width function that gives 0, 1 or 2 columns for the bytes of a character.
- The `f32` elapsed time is kept as its 32-bit pattern, whose little-endian bytes are what `to_le_bytes` writes. Nothing interprets it as a number.
- `SystemTime`: the heartbeat timestamp is a parameter.
- The directory checks and file opening of `Caster::new`: the files' existing content is a constructor parameter.
- The WebSocket handlers (`src/sockets/socket_handler.rs`, `src/sockets/socket_handler_debug.rs`) and `src/main.rs` are not part of this model.
- `AppError`, the serde configuration types and the stdout `logger` of `src/models/common.rs`.
- Menu DOM details: CSS rendering, the unused `getBoundingClientRect`, and the clipboard promise machinery beyond "a read resolves with a text or is rejected". The menu is assumed hidden when the controller is set up, because its initial style comes from markup outside this source.
- Common.BufTrim: `col` is a `u16` whose additions are modelled as wrapping modulo 2^16, as in a release build. A debug build panics on that overflow instead.
- Common.RunKeepsColBelowCols: with `cols == 1` a wide character can leave the column equal to `cols`, so the bound is stated for `cols >= 2` only (see Findings).
- Menu.ContextMenu: one sequence `items` stands for both the `.menu-item` elements that `closest` finds and the `[data-layout]` elements that `updateLayoutUI` toggles. An element that is one but not the other is not modelled separately.
- Menu.ContextMenu.OnClick: a click on the menu is accepted while the menu is hidden, although a menu with `display: none` receives no clicks. The model allows more sequences of events than a browser delivers.
- Menu.ContextMenu.RunCommand: `navigator.clipboard` is assumed to exist. Without it, the `copy` and `paste` cases throw after `hide()`, and the layout block never runs. That exception path is not modelled.
- Cast.StreamRoundTrip, Events.FrameRoundTrip: payloads of 2^32 bytes or more get their length truncated by `as u32`. The round trips therefore require shorter payloads, and `Events.OversizedDataTruncated` shows the loss.

## Findings

| source | as written | input that shows it | evidently intended | confidence | as-written member | corrected member |
|---|---|---|---|---|---|---|
| src/models/common.rs:78-84 | a printable byte starts a new line only when `col == cols`; after a wide character on a one-column terminal the column is already at `cols`, so no later printable byte breaks a line until a newline resets the column (or `col` wraps at 2^16) | `buf = "aaa"` followed by a three-byte character of width 2, `cols = 1`, `max_lines = 2`: the whole buffer is kept with one line counted | a printable byte that fills or overfills the line starts a new one (`col >= cols`, keeping the overflow as the wide-character branch does) | medium, not executed | Common.OneColumnCounterexample | Common.PrintableStretchBreaksLine |

The rest of the model (`Step`, `Run`, `TrimScan`, `ScanByte`, `BufTrim`) uses the
corrected test. `Common.TrimAgreesForTwoOrMoreColumns` proves that this changes no cut
when `cols >= 2`. `Common.StepAsWritten`, `Common.RunAsWritten` and
`Common.TrimScanAsWritten` keep the source's test.

