# widefpv-relay core, modelled in Dafny

widefpv-relay carries live video from a browser to an RTMP server. The
browser encodes audio and video chunks and packs them into binary NoMux
packets. The relay unpacks them (older senders use the legacy Peercast
layout), queues the chunks per medium and releases them to an encoder
process on a wall-clock timeline. It supervises that encoder through its
statistics output, its data deadline and its exit. Every one of these
objects signals through a small synchronous event registry.

The model covers five source files, one or more Dafny modules each:

- `classes/NoMux.js`:
  - `NoMuxFormat` (nomux_format.dfy) describes the packet layout and the decoder as functions.
  - `NoMuxPacking.Packer` (nomux_packer.dfy) is the packer. It writes into a scratch `array`, backpatches the size and count fields and emits packets.
  - `NoMuxUnpacking.Unpacker` (nomux_unpacker.dfy) is the unpacker. It moves a read pointer over the packet.
  - `EntryWalk` (entries.dfy) is the entry walk both decoders share.
  - `Bytes` (bytes.dfy) holds big-endian fields and `ArrayBuffer.slice`.
- `classes/PeercastUnpacker.js`: `PeercastUnpacking` (peercast.dfy) has the legacy layout as a function and the pointer-moving unpacker as a class.
- `classes/WideEvent.js`: `WideEvent` (wide_event.dfy) has the handler table with its `null` tombstones, `$on`, `$off`, `$emit` and `$emitUpdate`.
- `classes/RtmpClient.js`: `RtmpRelay` (rtmp_client.dfy) has the per-medium queues, the timing anchor, the playout tick, the statistics reaction, `stop` and the error handlers.
- `classes/Ffmpeg.js`: `FfmpegSupervisor` (ffmpeg.dfy) has the data deadline, the `live`/`stalled` state word, the classification of diagnostic text, and `stop` guarded by `$emitUpdate`'s changed flag.
- Shared by both encoder supervisors:
  - `Params` (params.dfy) is the `formatParams` tokenizer.
  - `Telemetry` (telemetry.dfy) is the comma-joined status line.

Environmental inputs are parameters. The clock is an integer (microseconds
for the RTMP client, milliseconds for the encoder supervisor). Pipe writes and
emitted events are appended to sequences. What the statistics pattern
captures is given as a `FrameMatch` value. The idle timer of the packer is
the explicit `Flush` call.

The main results:

- **Packet layout and backpatching.** Every packet the packer emits is the
  function `Packet` (or `StopPacket`) of the frames it was fed.
  `Packer.Valid` is the invariant that the constructor, `Feed`, `Flush`,
  `SetOpts` and `Stop` establish and keep: each packet
  sent is sound, the packet index counts the packets, and the frames of
  the packets sent, followed by the open packet's, are exactly the frames fed.
- **Round trip.** `MediaRoundTrip` and `Packer.SentDecodes` show that the
  unpacker reads back a packer-made media packet in order:
  - first the index;
  - then, for each changed option, an event named by that option's key, followed by one aggregate `update` event carrying the new options;
  - then one chunk per non-empty frame, in entry order. Each chunk keeps its medium, key flag and payload. Its timestamp comes back as `floor(t/1000)*1000` and its duration multiplied by 1000.

  `LegacyRoundTrip` is the same for the Peercast layout. There the duration comes back unscaled.
- **Refusals.** `Refused` shows that a wrong version or a size field that disagrees with the length yields an error and no chunk. `StopPacketDecodes` shows that the packer's own stop packet reads back as `index`, `stop` and then a `mismatch length` error, because its size field is never backpatched.
- **Event registry.** `$on` appends with duplicates; `$off` tombstones the first occurrence only. `$emit` calls exactly the live handlers in order and then compacts. `$emitUpdate` writes every new value, emits one event per changed key, reports a change exactly when a key differed, and is idempotent.
- **Playout.** Queues keep arrival order and split the chunks by medium (a multiset partition). The anchor is set by the first chunk only. A tick releases at most one head per medium, and only at or below the gate. Released chunks followed by what remains are the queue.
- **Lifecycle.** Both `stop` operations are idempotent. A stopped RTMP client is never ready. The encoder supervisor reports `live` exactly when the frame count is positive. Its status line reads back field by field.

## Model

| member | source | states |
|---|---|---|
| Bytes.U8 | classes/NoMux.js:40-43 | a one-byte field holds the value modulo 256 |
| Bytes.U16 | classes/NoMux.js:45-48 | a 16-bit field is two bytes |
| Bytes.U32 | classes/NoMux.js:50-53 | a 32-bit field is four bytes |
| Bytes.U16RoundTrip | classes/NoMux.js:45-48 | reading back a written 16-bit field gives the value modulo 2^16 |
| Bytes.U32RoundTrip | classes/NoMux.js:50-53 | reading back a written 32-bit field gives the value modulo 2^32 |
| Bytes.U16InRange | classes/NoMux.js:149-153 | a 16-bit field reads back as written when the value is in range |
| Bytes.U32InRange | classes/NoMux.js:155-159 | a 32-bit field reads back as written when the value is in range |
| Bytes.Get16 | classes/NoMux.js:149-153 | a big-endian 16-bit read lies in [0, 2^16) |
| Bytes.Get32 | classes/NoMux.js:155-159 | a big-endian 32-bit read lies in [0, 2^32) |
| Bytes.JsSlice | classes/NoMux.js:161-165 | `ArrayBuffer.slice` never exceeds the buffer, is the plain slice for in-range bounds and is empty when the end is not after the start |
| Bytes.Clamp | classes/NoMux.js:161-165 | a relative slice bound is clamped into [0, length] and kept when already inside |
| EntryWalk.EntryBytes | classes/NoMux.js:113-118 | an entry is the 10-byte head followed by the payload |
| EntryWalk.Offsets | classes/NoMux.js:113 | the recorded offsets are one per entry and start at the first entry's position |
| EntryWalk.Table | classes/NoMux.js:93 | the offset table holds four bytes per entry |
| EntryWalk.ExpectedOne | classes/NoMux.js:218-226 | a decoded entry yields a chunk exactly when its payload is non-empty |
| EntryWalk.Expected | classes/NoMux.js:209-227 | the decoded chunks are at most one per entry |
| EntryWalk.EntryAt | classes/NoMux.js:210-226 | one entry step yields at most one chunk |
| EntryWalk.WalkFrom | classes/NoMux.js:209-227 | the entry walk yields at most one chunk per remaining entry |
| EntryWalk.WalkStep | classes/NoMux.js:210-226 | one walk step is the entry at the pointer followed by the walk from the next entry's position |
| EntryWalk.WalkNonEmpty | classes/NoMux.js:218 | no chunk with an empty payload is ever produced |
| EntryWalk.ReadTable | classes/NoMux.js:205-207 | reading `count` table fields yields `count` offsets |
| EntryWalk.ReadTableSnoc | classes/NoMux.js:205-207 | reading one more field appends the next 32-bit read |
| EntryWalk.TableRoundTrip | classes/NoMux.js:203-208 | a written offset table reads back as the offsets modulo 2^32 |
| EntryWalk.Mod32All | classes/NoMux.js:206 | every offset inside 32 bits reads back unchanged |
| EntryWalk.HeadRead | classes/NoMux.js:213-217 | a written entry head reads back as medium, key flag, timestamp×1000 and scaled duration |
| EntryWalk.WalkEntry | classes/NoMux.js:210-226 | walking over a written entry yields that frame's expected chunk, then continues after it |
| EntryWalk.WalkRoundTrip | classes/NoMux.js:209-227 | walking over entries laid out back to back with their offsets yields the expected chunks in entry order and completes |
| EntryWalk.EntriesSnoc | classes/NoMux.js:113-118 | appending a frame appends its entry bytes |
| EntryWalk.OffsetsSnoc | classes/NoMux.js:113 | appending a frame records its offset at the end of the laid-out entries |
| EntryWalk.TableSnoc | classes/NoMux.js:93 | appending an offset appends its 32-bit field |
| EntryWalk.PrependTwice | classes/NoMux.js:209-227 | chunks emitted by successive steps accumulate in order |
| NoMuxFormat.CodecIndex | classes/NoMux.js:63 | `indexOf` is -1 exactly for an unknown codec and otherwise points at it |
| NoMuxFormat.InfoBytes | classes/NoMux.js:62-70 | the media-info block is 15 bytes |
| NoMuxFormat.Head | classes/NoMux.js:74-81 | a header is 26 bytes |
| NoMuxFormat.Packet | classes/NoMux.js:90-99 | a flushed packet's length is the size it records |
| NoMuxFormat.StopPacket | classes/NoMux.js:126-130 | the stop packet is a bare 26-byte header |
| NoMuxFormat.HeadLayout | classes/NoMux.js:60-81 | index at 0, version 1 at 4, type at 5, size at 6, count at 10, codec at 11, width 12, height 14, framerate 16, channels 17, sample rate 18, video and audio kbit/s at 22 and 24, each modulo its width |
| NoMuxFormat.ReadInfo | classes/NoMux.js:191-200 | the options literal has the eight header fields |
| NoMuxFormat.InfoRoundTrip | classes/NoMux.js:191-200 | the options read from a header are the media info written into it |
| NoMuxFormat.HeadPrefix | classes/NoMux.js:173-183 | the index, version and type read from a packet are those its header was written with |
| NoMuxFormat.Updates | classes/NoMux.js:202 | one `update` output per key event |
| NoMuxFormat.Chunks | classes/NoMux.js:219-225 | one `chunk` output per chunk |
| NoMuxFormat.After | classes/NoMux.js:167-228 | events emitted before a stage precede its own and leave its outcome alone |
| NoMuxFormat.IndexFirst | classes/NoMux.js:173 | the unpacker always emits the packet index first |
| NoMuxFormat.Refused | classes/NoMux.js:174-188 | a wrong version (any packet of at least 6 bytes) or a size mismatch yields exactly the index, the `stop` announcement when due, and the matching error: no chunk and unchanged options; `stop` is announced exactly for version 1 and type 0 |
| NoMuxFormat.StopPacketDecodes | classes/NoMux.js:180-188 | the packer's stop packet reads back as index, `stop`, then `mismatch length` |
| NoMuxFormat.DecodeAccepted | classes/NoMux.js:173-202 | an accepted media packet emits its index, then what the body emits |
| NoMuxFormat.BodyRead | classes/NoMux.js:189-227 | the body publishes the options read and then emits the walked chunks |
| NoMuxFormat.OffsetsRange | classes/NoMux.js:212 | every recorded offset lies inside the laid-out entries |
| NoMuxFormat.PacketHeader | classes/NoMux.js:90-99 | a flushed packet carries its index, version, media type, its true size and its entry count |
| NoMuxFormat.OffsetsMod32 | classes/NoMux.js:93 | offsets inside a packet below 2^32 bytes survive the 32-bit table |
| NoMuxFormat.PacketTable | classes/NoMux.js:203-208 | the table read at `size - 4*count` is the recorded offsets |
| NoMuxFormat.TableAfter | classes/NoMux.js:203-208 | a table appended to any prefix reads back from where it starts |
| NoMuxFormat.PacketWalk | classes/NoMux.js:209-227 | the walk over a flushed packet's entries yields the expected chunks and completes |
| NoMuxFormat.PacketLaid | classes/NoMux.js:90-99 | a flushed packet has the header, table and entries the decoder relies on |
| NoMuxFormat.LaidRead | classes/NoMux.js:173-227 | such a packet is accepted and its body decodes to the option updates and the expected chunks |
| NoMuxFormat.DecodeLaid | classes/NoMux.js:173-227 | such a packet decodes to index, option updates and expected chunks, in that order |
| NoMuxFormat.AfterBody | classes/NoMux.js:173-227 | the index emitted before the body precedes the body's updates and chunks |
| NoMuxFormat.MediaRoundTrip | classes/NoMux.js:101-119 | decoding a packed media packet gives the index, updates for changed options and one chunk per non-empty frame in order, with timestamps floored to ms and durations ×1000 |
| NoMuxPacking.Wire | classes/NoMux.js:121-130 | an emitted packet is the backpatched packet of its frames, or the bare header when it has none |
| NoMuxPacking.FlattenSnoc | classes/NoMux.js:101-130 | sending a packet appends its frames to the frames sent |
| NoMuxPacking.HeadPre | classes/NoMux.js:76-78 | index, version and type take six bytes |
| NoMuxPacking.HeadSplit | classes/NoMux.js:74-81 | the header splits into those six bytes, the size, the count and the media info |
| NoMuxPacking.ClosedLength | classes/NoMux.js:90-94 | the closed packet's length is the size written at offset 6 |
| NoMuxPacking.Patched | classes/NoMux.js:94-95 | writing size and count into the open packet gives the flushed packet |
| NoMuxPacking.Backpatch | classes/NoMux.js:93-95 | the two backpatches on the laid-out bytes give exactly `Packet` |
| NoMuxPacking.LaidSnoc | classes/NoMux.js:113-118 | appending an entry keeps the open packet laid out |
| NoMuxPacking.ClosedSound | classes/NoMux.js:90-99 | a closed packet within the size and count bounds is sound |
| NoMuxPacking.LogSnoc | classes/NoMux.js:121-124 | sending a sound packet keeps every packet sent sound |
| NoMuxPacking.LogSoundAt | classes/NoMux.js:121-124 | each packet sent is sound for its position |
| NoMuxPacking.EmitsSnoc | classes/NoMux.js:90-99 | sending the open packet's frames keeps the output account and advances the index |
| NoMuxPacking.EmitsPush | classes/NoMux.js:101-119 | feeding a frame into the open packet keeps the output account |
| NoMuxPacking.Packer.constructor | classes/NoMux.js:21-32 | a new packer has no packet open, index 0 and nothing sent |
| NoMuxPacking.Packer.Write8 | classes/NoMux.js:40-43 | one byte appended at the pointer |
| NoMuxPacking.Packer.Write16 | classes/NoMux.js:45-48 | two big-endian bytes appended |
| NoMuxPacking.Packer.Write32 | classes/NoMux.js:50-53 | four big-endian bytes appended |
| NoMuxPacking.Packer.WriteChunk | classes/NoMux.js:55-58 | the payload appended |
| NoMuxPacking.Packer.WriteInfo | classes/NoMux.js:62-70 | the media-info block appended |
| NoMuxPacking.Packer.WriteMediaInfo | classes/NoMux.js:60-72 | a zero count byte and the media info appended, timer armed |
| NoMuxPacking.Packer.Reset | classes/NoMux.js:83-88 | pointer, timer and offsets cleared |
| NoMuxPacking.Packer.InitPacket | classes/NoMux.js:74-81 | a fresh header with the current packet index and the given type is laid out and the packet is open |
| NoMuxPacking.Packer.Send | classes/NoMux.js:121-124 | the bytes up to the pointer are emitted and the index grows by one |
| NoMuxPacking.Packer.WriteTable | classes/NoMux.js:93 | one 32-bit field per recorded offset appended |
| NoMuxPacking.Packer.SetUint32 | classes/NoMux.js:94 | a 32-bit field overwritten in place, nothing else changed |
| NoMuxPacking.Packer.SetUint8 | classes/NoMux.js:95 | a byte overwritten in place, nothing else changed |
| NoMuxPacking.Packer.Close | classes/NoMux.js:91-95 | after the table and backpatches the buffer holds exactly `Packet` of the open frames |
| NoMuxPacking.Packer.CloseAndSend | classes/NoMux.js:91-96 | the open packet is emitted as its `Packet` and logged |
| NoMuxPacking.Packer.Flush | classes/NoMux.js:90-99 | a non-empty flush emits exactly one packet of the open frames, an empty one emits nothing; both leave no packet open |
| NoMuxPacking.Packer.SetOpts | classes/NoMux.js:34-38 | the open packet is flushed first, then the media info changes |
| NoMuxPacking.Packer.WriteEntry | classes/NoMux.js:114-118 | the entry bytes of the frame appended |
| NoMuxPacking.Packer.Append | classes/NoMux.js:113-118 | the frame's offset is recorded before its entry is written and the packet stays laid out |
| NoMuxPacking.Packer.Restart | classes/NoMux.js:109-112 | flush then open a media packet |
| NoMuxPacking.Packer.Push | classes/NoMux.js:113-118 | the frame joins the open packet and the fed frames |
| NoMuxPacking.Packer.Feed | classes/NoMux.js:101-119 | when no packet is open, the projected size exceeds `maxSize` or 255 entries are held, the open packet is flushed and a new media packet holds just this frame; otherwise the frame is appended and nothing is sent |
| NoMuxPacking.Packer.SendStop | classes/NoMux.js:128-129 | a type-0 packet with no entries and the next index is sent |
| NoMuxPacking.Packer.Stop | classes/NoMux.js:126-130 | pending frames are flushed, then the stop packet with the following index is the last packet sent |
| NoMuxPacking.Packer.SentDecodes | classes/NoMux.js:121-124 | every media packet the packer sent decodes back to its frames |
| NoMuxUnpacking.ChunksAppend | classes/NoMux.js:219-225 | chunk events accumulate in order |
| NoMuxUnpacking.BodyOf | classes/NoMux.js:189-227 | the body's output is the option updates followed by the walked chunks |
| NoMuxUnpacking.Unpacker.constructor | classes/NoMux.js:134-141 | default options, no packet, pointer 0, index 0 |
| NoMuxUnpacking.Unpacker.Read8 | classes/NoMux.js:143-147 | a byte is read and the pointer advances, or the read throws and nothing moves |
| NoMuxUnpacking.Unpacker.Read16 | classes/NoMux.js:149-153 | a big-endian 16-bit read, or a throw |
| NoMuxUnpacking.Unpacker.Read32 | classes/NoMux.js:155-159 | a big-endian 32-bit read, or a throw |
| NoMuxUnpacking.Unpacker.ReadChunk | classes/NoMux.js:161-165 | the `slice` from the pointer, pointer advanced by the length |
| NoMuxUnpacking.Unpacker.ReadMediaInfo | classes/NoMux.js:191-200 | the options literal read field by field, or a throw on a cut header |
| NoMuxUnpacking.Unpacker.ReadHeadInfo | classes/NoMux.js:189-200 | count and options read, or a throw |
| NoMuxUnpacking.Unpacker.Publish | classes/NoMux.js:202 | options updated and one `update` event per changed key |
| NoMuxUnpacking.Unpacker.ReadOffsets | classes/NoMux.js:203-208 | the table read from `size - 4*count`, or a throw when it would start before the packet |
| NoMuxUnpacking.Unpacker.ReadEntryHead | classes/NoMux.js:213-216 | medium, key, timestamp and duration read, or a throw |
| NoMuxUnpacking.Unpacker.ReadEntry | classes/NoMux.js:210-226 | one entry consumed and its chunk emitted when non-empty |
| NoMuxUnpacking.Unpacker.WalkEntries | classes/NoMux.js:209-227 | the loop emits exactly the walk's chunks |
| NoMuxUnpacking.Unpacker.FeedEntries | classes/NoMux.js:203-227 | table then walk, as `TableWalk` |
| NoMuxUnpacking.Unpacker.FeedBody | classes/NoMux.js:189-227 | from the count on, the unpacker does what `DecodeBody` says |
| NoMuxUnpacking.Unpacker.FeedSize | classes/NoMux.js:183-188 | from the size on, as `DecodeSize` |
| NoMuxUnpacking.Unpacker.FeedVersion | classes/NoMux.js:174-182 | from the version on, as `DecodeVersion` |
| NoMuxUnpacking.Unpacker.Feed | classes/NoMux.js:167-228 | `feed` emits exactly what `Decode` gives and counts the packet |
| PeercastUnpacking.LegacyPacket | classes/PeercastUnpacker.js:31-82 | a legacy packet is the 15-byte header, the entries and the table |
| PeercastUnpacking.LegacyHeadRead | classes/PeercastUnpacker.js:36-50 | index at 0, count at 8, codec, channels and sample rate read back; bitrate and framerate 0 |
| PeercastUnpacking.LegacyTableRead | classes/PeercastUnpacker.js:51-58 | the table read from `size - 4*count` is the entry offsets |
| PeercastUnpacking.LegacyEntriesWalk | classes/PeercastUnpacker.js:59-78 | walking from offset 15 yields the expected chunks with durations unscaled |
| PeercastUnpacking.LegacyRoundTrip | classes/PeercastUnpacker.js:31-82 | unpacking a legacy packet returns its index, codec block and one chunk per non-empty entry in order, timestamps ×1000 and durations as written |
| PeercastUnpacking.SizeIgnored | classes/PeercastUnpacker.js:37-41 | the size field does not affect the result |
| PeercastUnpacking.ShortThrows | classes/PeercastUnpacker.js:36-50 | a packet shorter than its header throws |
| PeercastUnpacking.ChunksNonEmpty | classes/PeercastUnpacker.js:69-77 | every returned chunk has a non-empty payload |
| PeercastUnpacking.PeercastUnpacker.constructor | classes/PeercastUnpacker.js:2-8 | no packet, pointer 0, index 0 |
| PeercastUnpacking.PeercastUnpacker.ReadByte | classes/PeercastUnpacker.js:12-16 | a byte is read and the pointer advances, or a throw |
| PeercastUnpacking.PeercastUnpacker.ReadInt | classes/PeercastUnpacker.js:18-22 | a big-endian 32-bit read, or a throw |
| PeercastUnpacking.PeercastUnpacker.ReadChunk | classes/PeercastUnpacker.js:24-29 | the `slice` from the pointer, pointer advanced |
| PeercastUnpacking.PeercastUnpacker.ReadHead | classes/PeercastUnpacker.js:36-50 | index, count and codec block read, or a throw |
| PeercastUnpacking.PeercastUnpacker.ReadOffsets | classes/PeercastUnpacker.js:51-58 | the table read from `size - 4*count`, or a throw |
| PeercastUnpacking.PeercastUnpacker.ReadEntryHead | classes/PeercastUnpacker.js:63-66 | medium, key, timestamp and duration read, or a throw |
| PeercastUnpacking.PeercastUnpacker.ReadEntry | classes/PeercastUnpacker.js:60-77 | one entry consumed and its chunk produced when non-empty |
| PeercastUnpacking.PeercastUnpacker.ReadEntries | classes/PeercastUnpacker.js:59-78 | the loop produces exactly the walk's chunks |
| PeercastUnpacking.PeercastUnpacker.UnpackPacket | classes/PeercastUnpacker.js:31-82 | `unpack` returns or throws as `Unpack` says and counts the packet |
| WideEvent.NamesOf | classes/WideEvent.js:17 | an event argument names one event or the listed ones |
| WideEvent.KeysOf | classes/WideEvent.js:35 | the keys of the new object, in order |
| WideEvent.Live | classes/WideEvent.js:50 | the handlers called are at most the slots |
| WideEvent.CompactKeepsLive | classes/WideEvent.js:50-52 | compaction leaves no tombstone, keeps the live handlers in order and is idempotent |
| WideEvent.ReplaceFirst | classes/WideEvent.js:23 | tombstoning keeps the list length |
| WideEvent.ReplaceFirstAbsent | classes/WideEvent.js:23 | removing an unregistered callback changes nothing |
| WideEvent.ReplaceFirstBlanksFirst | classes/WideEvent.js:23 | only the first occurrence becomes `null` |
| WideEvent.ReplaceFirstLive | classes/WideEvent.js:23 | the live handlers lose exactly the first occurrence |
| WideEvent.FirstIndexReplace | classes/WideEvent.js:23 | tombstoning at the first index is the same update |
| WideEvent.IndexOf | classes/WideEvent.js:23 | `indexOf` finds the first occurrence |
| WideEvent.Repeat | classes/WideEvent.js:15 | one slot per registration |
| WideEvent.RegisterAppends | classes/WideEvent.js:13-18 | each event's list gains the callback once per time it is named, after what it held |
| WideEvent.UnregisterShape | classes/WideEvent.js:20-31 | removing a callback keeps every list's length; removing without one deletes the named lists |
| WideEvent.UpdateOne | classes/WideEvent.js:33-44 | a one-key update writes and emits exactly when the value differs |
| WideEvent.UpdateFromSnoc | classes/WideEvent.js:35-41 | processing one more key extends the object and the emissions |
| WideEvent.UpdateFromSpec | classes/WideEvent.js:35-41 | after the update every new key has its new value, other keys are unchanged, and the emissions are the changed keys in key order |
| WideEvent.ChangedIgnoresOtherKeys | classes/WideEvent.js:36 | a key outside the update does not affect what changes |
| WideEvent.ChangedIff | classes/WideEvent.js:35-43 | something is emitted exactly when some key differed |
| WideEvent.ChangedNoneWhenApplied | classes/WideEvent.js:36 | nothing is emitted when every key already holds its value |
| WideEvent.UnchangedWhenNoneDiffer | classes/WideEvent.js:36-37 | the object is untouched when no key differs |
| WideEvent.ValueOfDistinct | classes/WideEvent.js:35 | each key of the new object maps to its value |
| WideEvent.EmitUpdateIdempotent | classes/WideEvent.js:36 | repeating an update changes nothing, emits nothing and returns false |
| WideEvent.CallsOf | classes/WideEvent.js:50 | one call per live handler |
| WideEvent.JsObject.constructor | classes/WideEvent.js:33 | the target object holds the given fields |
| WideEvent.Registry.constructor | classes/WideEvent.js:8-11 | empty table, no calls |
| WideEvent.Registry.On | classes/WideEvent.js:13-18 | the callback is appended to each named list; a falsy callback changes nothing |
| WideEvent.Registry.Off | classes/WideEvent.js:20-31 | `$off()` clears the table, otherwise the named lists are tombstoned or deleted |
| WideEvent.Registry.Emit | classes/WideEvent.js:46-54 | exactly the live handlers of the event are called in list order, then the list is compacted |
| WideEvent.Registry.EmitUpdateOn | classes/WideEvent.js:33-44 | the target becomes the updated object, handlers see one event per changed key then the prefix event, and the result says whether anything changed |
| WideEvent.Registry.ApplyChanges | classes/WideEvent.js:35-41 | the key loop writes and delivers exactly the changed keys |
| WideEvent.Registry.ApplyOne | classes/WideEvent.js:36-40 | one key is written and delivered exactly when it differs |
| WideEvent.Registry.EmitInView | classes/WideEvent.js:42 | an emission is delivered to the live handlers and keeps the table's live view |
| WideEvent.EmitKeepsView | classes/WideEvent.js:46-54 | emitting keeps the live view and appends its deliveries |
| WideEvent.LogAppend | classes/WideEvent.js:50 | a delivery appends one call per live handler |
| WideEvent.ViewLookup | classes/WideEvent.js:47 | the live handlers of an event in the table and in its view agree |
| WideEvent.CompactSameLive | classes/WideEvent.js:52 | compaction does not change the live view |
| WideEvent.DeliverAppend | classes/WideEvent.js:46-54 | deliveries of successive emissions accumulate in order |
| WideEvent.LiveSnoc | classes/WideEvent.js:50 | a live slot at the end adds its handler at the end |
| WideEvent.CompactSnoc | classes/WideEvent.js:52 | compaction keeps a trailing live slot and drops a trailing tombstone |
| WideEvent.CallsOfSnoc | classes/WideEvent.js:50 | a trailing handler is called last |
| Params.TrimStart | classes/Ffmpeg.js:12 | a suffix of the text, starting with no whitespace |
| Params.TrimEnd | classes/Ffmpeg.js:12 | a prefix of the text, ending with no whitespace |
| Params.Trim | classes/Ffmpeg.js:12 | no whitespace at either end |
| Params.TrimAvoids | classes/Ffmpeg.js:15 | trimming introduces no character |
| Params.TrimSolid | classes/Ffmpeg.js:15 | trimming text without whitespace changes nothing |
| Params.DropLineBreaks | classes/Ffmpeg.js:12 | no line feed or carriage return remains |
| Params.LeadingS | classes/Ffmpeg.js:12 | the run of `S` after a backslash is maximal |
| Params.ReplaceAvoids | classes/Ffmpeg.js:12 | the replacement introduces no character other than a space |
| Params.Split | classes/Ffmpeg.js:13 | `split` always yields at least one piece |
| Params.SplitAvoids | classes/Ffmpeg.js:13 | no piece holds the separator or a character the text lacked |
| Params.SplitSolid | classes/RtmpClient.js:72 | splitting text whose only whitespace is spaces gives pieces without whitespace |
| Params.SplitStep | classes/Ffmpeg.js:13 | a separator starts a new piece, any other character extends the first |
| Params.NonEmpty | classes/Ffmpeg.js:14 | the kept pieces are non-empty pieces of the input |
| Params.TrimAll | classes/Ffmpeg.js:15 | each piece is trimmed, none dropped |
| Params.ParamsAsWritten | classes/Ffmpeg.js:10-18 | every argument has no space, line feed or carriage return and no whitespace at its ends |
| Params.TabTextKept | classes/RtmpClient.js:71 | text with a tab between words passes trim, line-break deletion and the replacement unchanged |
| Params.TabTextSplit | classes/RtmpClient.js:72 | that text splits at spaces into the words and the tab |
| Params.TrimSingle | classes/RtmpClient.js:74 | a one-character piece trims to nothing exactly when it is whitespace |
| Params.TabPieceEach | classes/RtmpClient.js:74 | the tab piece trims to empty, the words stay |
| Params.TabPiecesKept | classes/RtmpClient.js:73 | the filter keeps the tab piece |
| Params.TabPiecesTrimmed | classes/RtmpClient.js:73-74 | filtering then trimming leaves an empty middle piece |
| Params.EmptyArgument | classes/RtmpClient.js:69-77 | `formatParams("a \t b")` is `["a", "", "b"]`: it can return an empty argument |
| Params.CollapseSpace | classes/RtmpClient.js:71 | after the intended replacement the only whitespace left is spaces |
| Params.ParamsFixed | classes/RtmpClient.js:69-77 | with the intended pattern every argument is non-empty and holds no whitespace |
| Telemetry.Digit | classes/RtmpClient.js:156 | a decimal digit character for a value below 10 |
| Telemetry.NatToString | classes/RtmpClient.js:156 | a printed count is digits with no leading zero |
| Telemetry.NatRoundTrip | classes/RtmpClient.js:156 | parsing a printed count gives it back |
| Telemetry.SplitPrefix | classes/RtmpClient.js:162 | a separator-free prefix extends the first piece of a split |
| Telemetry.SplitJoin | classes/RtmpClient.js:162 | splitting a comma join gives the fields back when none holds a comma |
| Telemetry.StatusFields | classes/RtmpClient.js:154-161 | the status line has seven fields |
| Telemetry.DigitsAvoidComma | classes/RtmpClient.js:162 | a printed count holds no comma |
| Telemetry.StatusRoundTrip | classes/RtmpClient.js:154-162 | the status line reads back as state word, frame, fps, size, `h*3600+m*60+s`, bitrate and speed |
| RtmpRelay.Route | classes/RtmpClient.js:125-126 | a medium's queue gains at most the chunks fed |
| RtmpRelay.RouteAppend | classes/RtmpClient.js:125-126 | feeding in two goes queues the same as in one |
| RtmpRelay.RouteMedium | classes/RtmpClient.js:126 | every chunk in a medium's queue has that medium |
| RtmpRelay.RouteSnoc | classes/RtmpClient.js:126 | a chunk goes to the end of its own medium's queue only |
| RtmpRelay.RouteStep | classes/RtmpClient.js:125-126 | one step of the loop extends exactly the matching queue |
| RtmpRelay.PartitionSnoc | classes/RtmpClient.js:125-126 | one more chunk keeps the two queues a partition |
| RtmpRelay.RoutePartition | classes/RtmpClient.js:121-133 | the two queues together hold exactly the chunks fed |
| RtmpRelay.AnchorKept | classes/RtmpClient.js:127 | once anchored, or once stopped, queueing never moves the anchor |
| RtmpRelay.AnchorFirst | classes/RtmpClient.js:127-131 | the first chunk fed while unanchored sets the anchor to the clock and its timestamp and schedules one loop start |
| RtmpRelay.AnchorAtZero | classes/RtmpClient.js:127-131 | at clock reading 0 the anchor stays unset, so every chunk re-anchors and schedules a loop start |
| RtmpRelay.AnchorPrefix | classes/RtmpClient.js:125-132 | one step of the loop applies the anchor step to the next chunk |
| RtmpRelay.Release | classes/RtmpClient.js:54-55 | a tick releases at most the head, only when its timestamp is at or below the gate, and always does so then; released followed by kept is the queue |
| RtmpRelay.Payloads | classes/RtmpClient.js:56-61 | one pipe write per released chunk |
| RtmpRelay.DrainInOrder | classes/RtmpClient.js:51-63 | a run of ticks releases a prefix of the queue, at most one chunk per tick |
| RtmpRelay.DrainAll | classes/RtmpClient.js:51-63 | enough ticks with every head due release the whole queue in order |
| RtmpRelay.StopProps | classes/RtmpClient.js:173-176 | `stop` on a stopped client changes nothing; otherwise it sets `ready` false and `stopped` true and emits `ready` (if it changed) then `stopped` |
| RtmpRelay.StopFieldsUpdate | classes/RtmpClient.js:176 | the stop update writes both fields and emits each that differed |
| RtmpRelay.StopPropsIdempotent | classes/RtmpClient.js:171-187 | a second `stop` changes nothing and emits nothing |
| RtmpRelay.FailProps | classes/RtmpClient.js:104-113 | the error message is recorded, then the client stops if it had not |
| RtmpRelay.RtmpClient.constructor | classes/RtmpClient.js:18-37 | not ready, not stopped, no error, empty queues, unanchored |
| RtmpRelay.RtmpClient.Feed | classes/RtmpClient.js:121-133 | the unpacked chunks join their media's queues in order and the anchor advances as `Anchor`; a throwing packet queues nothing |
| RtmpRelay.RtmpClient.Queue | classes/RtmpClient.js:125-132 | each chunk joins its medium's queue, the anchor follows `Anchor` |
| RtmpRelay.RtmpClient.StartLoop | classes/RtmpClient.js:39-67 | a scheduled loop start sets the interval running |
| RtmpRelay.RtmpClient.Tick | classes/RtmpClient.js:47-65 | nothing once stopped; otherwise each queue releases as `Release` at the gate `startTimestamp + elapsed - 2e6`, video then audio, and the released payloads are written |
| RtmpRelay.RtmpClient.Update | classes/RtmpClient.js:105 | `$emitUpdate` on the client's own properties |
| RtmpRelay.RtmpClient.Stop | classes/RtmpClient.js:171-187 | the interval stops, the client is stopped and not ready, and teardown happens only on the first call |
| RtmpRelay.RtmpClient.Fail | classes/RtmpClient.js:104-113 | the error is recorded and the client stops |
| RtmpRelay.RtmpClient.FireReadyTimer | classes/RtmpClient.js:150-152 | a ready timer marks the client ready unless it stopped meanwhile |
| RtmpRelay.RtmpClient.ParseStats | classes/RtmpClient.js:135-169 | nothing once stopped; a ready timer while not ready; then statistics emit the `live` status line, else a first stream line makes it ready, else an I/O error records `stream error` and stops; in each branch the props, events, `looping` and teardown flag are stated in full |
| FfmpegSupervisor.StatsPrecedence | classes/Ffmpeg.js:78-106 | the deadline first, statistics next, the error phrase last, `false` otherwise |
| FfmpegSupervisor.LiveIffFrames | classes/Ffmpeg.js:91-101 | the line reads back `live` exactly when the frame count is positive, `stalled` otherwise, and carries the frame count |
| FfmpegSupervisor.StopUpdate | classes/Ffmpeg.js:119 | the stop update changes and emits exactly when the state was not `stopped` |
| FfmpegSupervisor.StopAfterExit | classes/Ffmpeg.js:53-56 | after the exit handler `stop` changes nothing and reports no change |
| FfmpegSupervisor.Ffmpeg.constructor | classes/Ffmpeg.js:21-28 | state `empty`, not started, deadline `now + 7000` |
| FfmpegSupervisor.Ffmpeg.Feed | classes/Ffmpeg.js:109-112 | the deadline moves to `now + 7000` and the segment is written |
| FfmpegSupervisor.Ffmpeg.Start | classes/Ffmpeg.js:114-116 | `started` becomes true, announced once |
| FfmpegSupervisor.Ffmpeg.Stop | classes/Ffmpeg.js:118-131 | acts exactly when the state changes to `stopped`, and only then tears down |
| FfmpegSupervisor.Ffmpeg.OnExit | classes/Ffmpeg.js:53-56 | the state is set to `stopped` directly, then `exit` is emitted |
| FfmpegSupervisor.Ffmpeg.OnError | classes/Ffmpeg.js:45-51 | ignored once stopped; otherwise the message is published and the supervisor stops |
| FfmpegSupervisor.Ffmpeg.ParseStats | classes/Ffmpeg.js:76-107 | past the deadline `timeout` and a stop; otherwise the result is `StatsOf` and a statistics match sets the state word |
| FfmpegSupervisor.Ffmpeg.OnStderr | classes/Ffmpeg.js:66-73 | ignored once stopped; past the deadline `timeout` then the `state` change are emitted and the supervisor stops; otherwise an update line is emitted, or the I/O error publishes `error`, emits its events and stops, each branch stating the whole new state |

## Left out

- Transport and session wiring (the WebSocket and HTTP servers, query parsing, socket lifetimes) is not part of this model.
- Process spawning, pipes, kill signals, `setTimeout` and `setInterval` are not modelled. Pipe writes are appended to sequences, and teardown is a flag. A timer firing is an explicit call: the packer's idle timer is `Flush`, the delayed loop start is `StartLoop`, the ready timer is `FireReadyTimer`.
- The `maxTime` option only sets the idle timer's delay. The delay is not modelled; the timer's expiry is `Flush`.
- `console.log` and the `echo` option of the registry are not modelled: they do not affect state.
- Opus decoding is a foreign call. `audioOut` holds the Opus payloads whose decoded samples the source writes to the audio pipe.
- The regular expressions and `parseFloat` are given as inputs. `FrameMatch` carries the first statistics match. `fps`, `bitrate` and `speed` are kept as the text their float prints as. Whether the stream line or the I/O-error phrase matched is a boolean. Floating-point rounding of the elapsed-time sum is not modelled: the hour, minute and second groups are whole numbers.
- Telemetry.StatusRoundTrip: holds only when the printed fps, bitrate and speed hold no comma, which is always so for a printed JavaScript number.
- WebCodecs chunks are the `Frame` value. `copyTo` and `instanceof EncodedVideoChunk` become its payload and `isVideo` fields.
- NoMuxPacking.Packer.constructor: requires `20 <= maxSize` and `2 * maxSize < 2^32`. Smaller buffers make the first header overflow, and larger ones cannot be addressed by the 32-bit size field. The source checks neither.
- NoMuxPacking.Packer.Feed: requires the payload plus 40 bytes to fit in the scratch buffer. The source throws a RangeError part-way through such a write, which this model does not follow.
- NoMuxPacking.Packer.SetOpts: `Object.assign` can change any option. The model replaces only the media info; `maxSize` and `maxTime` stay fixed.
- NoMuxPacking.Packer.Feed: feeding after `stop` appends to the still-open stop packet, as the source does. `Sound` accounts for such packets, but no lemma describes how they decode.
- PeercastUnpacking: the unused `onCodec` field is not modelled.
- FfmpegSupervisor: the process `error` handler (classes/Ffmpeg.js:58-60) reads an `err` that is not declared in its scope, so it throws a ReferenceError before `onError` is called and has no effect on the supervisor. It is not modelled. `OnError` models only the stdout `error` handler (classes/Ffmpeg.js:62-64).
- WideEvent: handlers are opaque identifiers and are never run. Handlers that call back into the registry during `$emit` are not modelled.
- RtmpRelay.RtmpClient.Stop: the source's `try` around teardown (for a process that was never started) is not modelled. Teardown is recorded whenever the first `stop` runs.
- RtmpRelay.RtmpClient.Tick: it models one firing of the 4 ms interval and is not gated on `looping`; scheduling the calls is left to the caller. The clock is whole microseconds, so the source's `Math.floor` of the elapsed time is exact here.
- RtmpRelay.RtmpClient.Fail: requires a non-empty message. The exit and stdin-error handlers only pass `ffmpeg exit` and `stream error`.
- RtmpRelay: `start()` and its spawn arguments are not modelled. `formatParams` itself is covered in `Params`.
- FfmpegSupervisor.Ffmpeg.constructor: the spawn and its arguments are not modelled.
- NoMuxFormat.MediaInfo and EntryWalk.Frame hold integers, so the conversion DataView applies before a `setUint8`, `setUint16` or `setUint32` write is not modelled. That conversion truncates a fractional value toward zero: a framerate of 29.97 is written as 29, and likewise a fractional width, height or sample rate. It writes a NaN or `undefined` option, or a `null` WebCodecs `duration`, as 0. The model takes the integer the conversion produces. `videoBitrate / 1000` and `audioBitrate / 1000` are whole-number divisions of a non-negative bitrate, which agrees with the truncation for integer bitrates only.
- WideEvent: the handler table is a Dafny `map` with no prototype. In the source it is a plain `{}`, so an event named `toString`, `constructor` or another `Object.prototype` member already finds an entry there, and `$on` or `$emit` on such a name throws. The model treats every name as absent until registered.
- A packet holds at most 255 entries: a 256th frame first flushes the open packet (classes/NoMux.js:107-111).
- Each playout tick releases at most one head per medium: there is no inner loop (classes/RtmpClient.js:51-63).
- The RTMP client has no audio admission gate, no audio lead, no resynchronisation, no hot-swap of the encoder and no inactivity timeout; none is modelled because the code has none.
- A refused packet emits an `error` event with the reason, after the `index` event.
- The duration asymmetry between packer and unpacker (unscaled on write, multiplied by 1000 on read) is reproduced as written and stated in `MediaRoundTrip`.

## Findings

| source | as written | input that shows it | evidently intended | confidence | as-written member | corrected member |
|---|---|---|---|---|---|---|
| classes/RtmpClient.js:71 (and classes/Ffmpeg.js:12) | `replace(/\\S+/g, ' ')` matches a backslash followed by letters `S`, not whitespace. Pieces are trimmed after the empty ones are filtered out, so a whitespace-only piece becomes an empty argument | `formatParams("a \t b")` returns `["a", "", "b"]` | `/\s+/g`, which collapses every whitespace run to one space so every argument is non-empty and holds no whitespace | medium; not executed | Params.EmptyArgument | Params.ParamsFixed |
