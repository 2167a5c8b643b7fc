/** The legacy Peercast unpacker. Its layout differs from the NoMux one: a
    15-byte header holding the packet index (32 bits at 0), a size field
    (32 bits at 4) that is only compared, the entry count (byte 8), the codec
    index (byte 9), the audio channel count (byte 10) and the sample rate
    (32 bits at 11); entries start at offset 15 and the offset table ends
    the packet, as in NoMux. Durations come back unscaled. */
module PeercastUnpacking {
  import opened Bytes
  import opened EntryWalk
  import opened WideEvent
  import opened NoMuxFormat

  const LEGACY_HEAD_LENGTH: int := 15

  /** The `codec` object of the result; bitrate and framerate are not sent
      yet and are always 0. */
  datatype Codec = Codec(videoCodec: Value, audioChannels: int, sampleRate: int, bitrate: int, framerate: int)

  /** The object `unpack` returns. */
  datatype Unpacked = Unpacked(index: int, codec: Codec, chunks: seq<Chunk>)

  /** `unpack` either returns or throws a RangeError from a read outside
      the packet. */
  datatype Outcome = Threw | Returned(u: Unpacked)

  /** The table read from `size - 4 * count` and the walk it drives, from
      offset 15, with durations unscaled. */
  function LegacyWalk(p: seq<Byte>, count: nat): Walked
  {
    var tableStart := |p| - 4 * count;
    if tableStart < 0 then Walked([], false)
    else WalkFrom(p, LEGACY_HEAD_LENGTH, ReadTable(p, tableStart, count), 0, tableStart, 1)
  }

  /** The codec object read from a whole header. */
  function ReadCodec(p: seq<Byte>): Codec
    requires |p| >= LEGACY_HEAD_LENGTH
  {
    Codec(CodecName(p[9]), p[10], Get32(p, 11), 0, 0)
  }

  /** What `unpack(packet)` does with one packet. The size field plays no
      part: a mismatch is only reported on the console. */
  function Unpack(p: seq<Byte>): Outcome
  {
    if |p| < LEGACY_HEAD_LENGTH then Threw
    else
      var w := LegacyWalk(p, p[8]);
      if w.completed then Returned(Unpacked(Get32(p, 0), ReadCodec(p), w.chunks)) else Threw
  }

  // ---------------------------------------------------------------------
  // The layout a Peercast sender writes

  /** A legacy packet: the header fields as given, the entries of `fs` and
      the table of their offsets. */
  function LegacyPacket(index: int, size: int, codec: int, channels: int, sampleRate: int, fs: seq<Frame>): (r: seq<Byte>)
    ensures |r| == LEGACY_HEAD_LENGTH + |Entries(fs)| + 4 * |fs|
  {
    U32(index) + U32(size) + U8(|fs|) + U8(codec) + U8(channels) + U32(sampleRate)
    + Entries(fs) + Table(Offsets(LEGACY_HEAD_LENGTH, fs))
  }

  /** The header fields of a legacy packet, read back. */
  lemma LegacyHeadRead(index: int, size: int, codec: int, channels: int, sampleRate: int, fs: seq<Frame>)
    requires |fs| <= 255
    ensures var p := LegacyPacket(index, size, codec, channels, sampleRate, fs);
            && Get32(p, 0) == index % TWO32 && p[8] as int == |fs|
            && ReadCodec(p) == Codec(CodecName(codec % 256), channels % 256, sampleRate % TWO32, 0, 0)
  {
    var p := LegacyPacket(index, size, codec, channels, sampleRate, fs);
    var h := U32(index) + U32(size) + U8(|fs|) + U8(codec) + U8(channels) + U32(sampleRate);
    var rest := Entries(fs) + Table(Offsets(LEGACY_HEAD_LENGTH, fs));
    assert p == h + rest;
    assert p[0..4] == U32(index) && p[11..15] == U32(sampleRate);
    assert p[8] == h[8] && p[9] == h[9] && p[10] == h[10];
    Get32Within(p, 0, U32(index));
    U32RoundTrip(index);
    Get32Within(p, 11, U32(sampleRate));
    U32RoundTrip(sampleRate);
    DivModUnique(|fs|, 256, 0, |fs|);
  }

  /** The offset table of a legacy packet, read back from its end. */
  lemma LegacyTableRead(index: int, size: int, codec: int, channels: int, sampleRate: int, fs: seq<Frame>)
    requires |LegacyPacket(index, size, codec, channels, sampleRate, fs)| <= TWO32
    ensures var p := LegacyPacket(index, size, codec, channels, sampleRate, fs);
            ReadTable(p, |p| - 4 * |fs|, |fs|) == Offsets(LEGACY_HEAD_LENGTH, fs)
  {
    var h := U32(index) + U32(size) + U8(|fs|) + U8(codec) + U8(channels) + U32(sampleRate);
    var idx := Offsets(LEGACY_HEAD_LENGTH, fs);
    assert LegacyPacket(index, size, codec, channels, sampleRate, fs) == (h + Entries(fs)) + Table(idx);
    TableAfter(h + Entries(fs), idx);
    OffsetsMod32(LEGACY_HEAD_LENGTH, fs);
  }

  /** The entries of a legacy packet, walked with the lengths its offsets
      give. */
  lemma LegacyEntriesWalk(index: int, size: int, codec: int, channels: int, sampleRate: int, fs: seq<Frame>)
    ensures var p := LegacyPacket(index, size, codec, channels, sampleRate, fs);
            WalkFrom(p, LEGACY_HEAD_LENGTH, Offsets(LEGACY_HEAD_LENGTH, fs), 0, |p| - 4 * |fs|, 1)
            == Walked(Expected(fs, 1), true)
  {
    var h := U32(index) + U32(size) + U8(|fs|) + U8(codec) + U8(channels) + U32(sampleRate);
    var e := Entries(fs);
    var idx := Offsets(LEGACY_HEAD_LENGTH, fs);
    var p := LegacyPacket(index, size, codec, channels, sampleRate, fs);
    var ts := LEGACY_HEAD_LENGTH + |e|;
    assert p == h + e + Table(idx);
    assert p[LEGACY_HEAD_LENGTH..ts] == e;
    assert idx[0..] == idx;
    WalkRoundTrip(p, LEGACY_HEAD_LENGTH, ts, idx, 0, fs, 1);
  }

  /** A legacy packet unpacks to its index, its codec fields and one chunk
      per entry with a non-empty payload, in entry order, with timestamps
      in whole milliseconds scaled by 1000 and durations as sent; whatever
      the size field holds. */
  lemma LegacyRoundTrip(index: int, size: int, codec: int, channels: int, sampleRate: int, fs: seq<Frame>)
    requires |fs| <= 255 && |LegacyPacket(index, size, codec, channels, sampleRate, fs)| <= TWO32
    ensures Unpack(LegacyPacket(index, size, codec, channels, sampleRate, fs))
            == Returned(Unpacked(index % TWO32, Codec(CodecName(codec % 256), channels % 256, sampleRate % TWO32, 0, 0),
                                 Expected(fs, 1)))
  {
    LegacyHeadRead(index, size, codec, channels, sampleRate, fs);
    LegacyTableRead(index, size, codec, channels, sampleRate, fs);
    LegacyEntriesWalk(index, size, codec, channels, sampleRate, fs);
  }

  /** The size field is never used: two legacy packets that differ only in
      it unpack alike. */
  lemma SizeIgnored(index: int, size1: int, size2: int, codec: int, channels: int, sampleRate: int, fs: seq<Frame>)
    requires |fs| <= 255 && |LegacyPacket(index, size1, codec, channels, sampleRate, fs)| <= TWO32
    ensures Unpack(LegacyPacket(index, size1, codec, channels, sampleRate, fs))
            == Unpack(LegacyPacket(index, size2, codec, channels, sampleRate, fs))
  {
    LegacyRoundTrip(index, size1, codec, channels, sampleRate, fs);
    LegacyRoundTrip(index, size2, codec, channels, sampleRate, fs);
  }

  /** A packet shorter than its header throws. */
  lemma ShortThrows(p: seq<Byte>)
    requires |p| < LEGACY_HEAD_LENGTH
    ensures Unpack(p) == Threw
  {
  }

  /** Every returned chunk carries a non-empty payload. */
  lemma ChunksNonEmpty(p: seq<Byte>)
    requires Unpack(p).Returned?
    ensures forall k :: 0 <= k < |Unpack(p).u.chunks| ==> |Unpack(p).u.chunks[k].data| > 0
  {
    var count: int := p[8];
    var ts := |p| - 4 * count;
    WalkNonEmpty(p, LEGACY_HEAD_LENGTH, ReadTable(p, ts, count), 0, ts, 1);
  }

  // ---------------------------------------------------------------------
  // The unpacker object

  class PeercastUnpacker {
    /** The packet being read. */
    var buf: seq<Byte>
    /** The read position. */
    var pointer: int
    /** How many packets were unpacked. */
    var packetIndex: int

    constructor ()
      ensures buf == [] && pointer == 0 && packetIndex == 0
    {
      buf := [];
      pointer := 0;
      packetIndex := 0;
    }

    /** DataView.getUint8 at the read position, which advances by one; a
        read outside the packet throws (`ok` false) and moves nothing. */
    method ReadByte() returns (ok: bool, v: int)
      modifies this`pointer
      ensures ok <==> 0 <= old(pointer) && old(pointer) + 1 <= |buf|
      ensures ok ==> v == buf[old(pointer)] && pointer == old(pointer) + 1
      ensures !ok ==> pointer == old(pointer)
    {
      if pointer < 0 || pointer + 1 > |buf| {
        return false, 0;
      }
      v := buf[pointer];
      pointer := pointer + 1;
      ok := true;
    }

    /** DataView.getUint32 at the read position, which advances by four. */
    method ReadInt() returns (ok: bool, v: int)
      modifies this`pointer
      ensures ok <==> 0 <= old(pointer) && old(pointer) + 4 <= |buf|
      ensures ok ==> v == Get32(buf, old(pointer)) && pointer == old(pointer) + 4
      ensures !ok ==> pointer == old(pointer)
    {
      if pointer < 0 || pointer + 4 > |buf| {
        return false, 0;
      }
      v := Get32(buf, pointer);
      pointer := pointer + 4;
      ok := true;
    }

    /** `length` bytes from the read position, as ArrayBuffer.slice gives
        them; the position moves by `length` whatever was read. */
    method ReadChunk(length: int) returns (sub: seq<Byte>)
      modifies this`pointer
      ensures sub == JsSlice(buf, old(pointer), old(pointer) + length)
      ensures pointer == old(pointer) + length
    {
      sub := JsSlice(buf, pointer, pointer + length);
      pointer := pointer + length;
    }

    /** The header reads: index, size, count, codec, channels and sample
        rate; all succeed exactly when the header is whole. */
    method ReadHead() returns (ok: bool, index: int, count: int, codec: Codec)
      requires pointer == 0
      modifies this`pointer
      ensures ok <==> |buf| >= LEGACY_HEAD_LENGTH
      ensures ok ==> index == Get32(buf, 0) && count == buf[8] && codec == ReadCodec(buf)
                     && pointer == LEGACY_HEAD_LENGTH
    {
      var ok0, ok1, ok2, ok3, ok4, ok5: bool;
      var txSize, videoCodec, channels, sampleRate: int;
      ok0, index := ReadInt();
      if !ok0 { return false, 0, 0, Codec(Undefined, 0, 0, 0, 0); }
      ok1, txSize := ReadInt();
      if !ok1 { return false, 0, 0, Codec(Undefined, 0, 0, 0, 0); }
      ok2, count := ReadByte();
      if !ok2 { return false, 0, 0, Codec(Undefined, 0, 0, 0, 0); }
      ok3, videoCodec := ReadByte();
      if !ok3 { return false, 0, 0, Codec(Undefined, 0, 0, 0, 0); }
      ok4, channels := ReadByte();
      if !ok4 { return false, 0, 0, Codec(Undefined, 0, 0, 0, 0); }
      ok5, sampleRate := ReadInt();
      if !ok5 { return false, 0, 0, Codec(Undefined, 0, 0, 0, 0); }
      codec := Codec(CodecName(videoCodec), channels, sampleRate, 0, 0);
      ok := true;
    }

    /** The offset table loop: `count` 32-bit reads from `count * 4` bytes
        before the end. The first read throws when that position is
        negative; otherwise all succeed. */
    method ReadOffsets(count: int) returns (ok: bool, idx: seq<int>)
      requires 0 <= count && pointer == |buf| - 4 * count
      modifies this`pointer
      ensures ok <==> count == 0 || old(pointer) >= 0
      ensures ok ==> old(pointer) >= 0 && idx == ReadTable(buf, old(pointer), count)
    {
      ghost var at := pointer;
      idx := [];
      var i := 0;
      while i < count
        invariant 0 <= i <= count
        invariant pointer == at + 4 * i
        invariant i > 0 ==> at >= 0
        invariant at >= 0 ==> idx == ReadTable(buf, at, i)
      {
        var okRead, v := ReadInt();
        if !okRead {
          return false, [];
        }
        ReadTableSnoc(buf, at, i);
        idx := idx + [v];
        i := i + 1;
      }
      ok := true;
    }

    /** The four header reads of an entry: medium byte, key byte,
        timestamp and duration fields; they all succeed exactly when the
        header lies inside the packet. */
    method ReadEntryHead() returns (ok: bool, medium: int, key: int, timestamp: int, duration: int)
      modifies this`pointer
      ensures ok <==> 0 <= old(pointer) && old(pointer) + FRAME_HEAD_LENGTH <= |buf|
      ensures ok ==>
                && pointer == old(pointer) + FRAME_HEAD_LENGTH && medium == buf[old(pointer)]
                && key == buf[old(pointer) + 1] && timestamp == Get32(buf, old(pointer) + 2)
                && duration == Get32(buf, old(pointer) + 6)
    {
      var ok0, ok1, ok2, ok3;
      ok0, medium := ReadByte();
      if !ok0 { return false, 0, 0, 0, 0; }
      ok1, key := ReadByte();
      if !ok1 { return false, 0, 0, 0, 0; }
      ok2, timestamp := ReadInt();
      if !ok2 { return false, 0, 0, 0, 0; }
      ok3, duration := ReadInt();
      if !ok3 { return false, 0, 0, 0, 0; }
      ok := true;
    }

    /** One pass of the entry loop: medium and key bytes, the timestamp
        (scaled by 1000) and the duration (unscaled), then the payload
        whose length the offsets give; a chunk only for a non-empty
        payload. */
    method ReadEntry(idx: seq<int>, i: int, tableStart: int) returns (ok: bool, chunk: seq<Chunk>)
      requires 0 <= i < |idx|
      modifies this`pointer
      ensures ok <==> 0 <= old(pointer) && old(pointer) + FRAME_HEAD_LENGTH <= |buf|
      ensures ok ==> pointer == NextAt(old(pointer), idx, i, tableStart)
                     && chunk == EntryAt(buf, old(pointer), idx, i, tableStart, 1)
    {
      ghost var p := pointer;
      var okHead, medium, key, timestamp, duration := ReadEntryHead();
      if !okHead { return false, []; }
      var length := (if i == |idx| - 1 then tableStart - idx[i] else idx[i + 1] - idx[i]) - FRAME_HEAD_LENGTH;
      var data := ReadChunk(length);
      assert data == DataAt(buf, p, idx, i, tableStart);
      chunk := [];
      if |data| > 0 {
        chunk := [Chunk(timestamp * 1000, duration, if medium == 1 then Video else Audio, key == 1, data)];
      }
      ok := true;
    }

    /** The entry loop, collecting the chunks in entry order. */
    method ReadEntries(idx: seq<int>, tableStart: int) returns (w: Walked)
      requires pointer == LEGACY_HEAD_LENGTH
      modifies this`pointer
      ensures w == WalkFrom(buf, LEGACY_HEAD_LENGTH, idx, 0, tableStart, 1)
    {
      ghost var whole := WalkFrom(buf, LEGACY_HEAD_LENGTH, idx, 0, tableStart, 1);
      var chunks: seq<Chunk> := [];
      var i := 0;
      while i < |idx|
        invariant 0 <= i <= |idx|
        invariant Prepend(chunks, WalkFrom(buf, pointer, idx, i, tableStart, 1)) == whole
      {
        ghost var p := pointer;
        var ok, chunk := ReadEntry(idx, i, tableStart);
        if !ok {
          assert chunks + [] == chunks;
          return Walked(chunks, false);
        }
        WalkStep(buf, p, pointer, idx, i, tableStart, 1);
        PrependTwice(chunks, chunk, WalkFrom(buf, pointer, idx, i + 1, tableStart, 1));
        chunks := chunks + chunk;
        i := i + 1;
      }
      assert chunks + [] == chunks;
      w := Walked(chunks, true);
    }

    /** `unpack(packet)`: what it returns, or that it throws, is `Unpack`;
        the packet counter goes up either way. */
    method UnpackPacket(packet: seq<Byte>) returns (r: Outcome)
      modifies this
      ensures r == Unpack(packet) && packetIndex == old(packetIndex) + 1 && buf == packet
    {
      buf := packet;
      pointer := 0;
      packetIndex := packetIndex + 1;
      var ok, index, count, codec := ReadHead();
      if !ok {
        return Threw;
      }
      var tableStart := |packet| - count * 4;
      var savePointer := pointer;
      pointer := tableStart;
      var okTable, indexes := ReadOffsets(count);
      if !okTable {
        return Threw;
      }
      pointer := savePointer;
      var w := ReadEntries(indexes, tableStart);
      if !w.completed {
        return Threw;
      }
      r := Returned(Unpacked(index, codec, w.chunks));
    }
  }
}
