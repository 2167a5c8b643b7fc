/** The NoMux packet: a 26-byte big-endian header (packet index, protocol
    version, content type, total size, entry count and the media info),
    chunk entries back to back from offset 26, and a trailing table holding
    one 32-bit offset per entry. This module states the layout the packer
    writes and, as a function, everything the unpacker does with one packet. */
module NoMuxFormat {
  import opened Bytes
  import opened EntryWalk
  import opened WideEvent

  const CodecList: seq<string> := ["avc1.420034", "avc1.4d0034", "avc1.640034"]

  const MEDIA_HEAD_LENGTH: int := 26
  const PROTOCOL_VERSION: Byte := 1
  /** Content types: 0 announces the end of the stream, 2 carries media. */
  const TYPE_STOP: int := 0
  const TYPE_MEDIA: int := 2

  /** The media description carried in every header. Bitrates are in bit/s
      and are sent in kbit/s. */
  datatype MediaInfo = MediaInfo(videoCodec: string, width: int, height: int, framerate: int,
                                 audioChannels: int, audioSampleRate: int,
                                 videoBitrate: nat, audioBitrate: nat)

  /** The packer's defaults. */
  const DefaultInfo: MediaInfo := MediaInfo("avc1.640034", 0, 0, 60, 2, 48000, 2000000, 100000)

  /** The unpacker's initial options object. */
  const DefaultOpts: Obj := map[
    "audioNumberOfChannels" := Num(2), "audioCodec" := Str("opus"), "audioSampleRate" := Num(48000),
    "videoCodec" := Str("avc1.640034"), "audioBitrate" := Num(100000), "videoBitrate" := Num(2000000),
    "framerate" := Num(60), "width" := Num(0), "height" := Num(0)]

  /** `CodecList.indexOf(codec)`: the position of the codec, or -1. */
  function CodecIndex(codec: string): (r: int)
    ensures -1 <= r < |CodecList|
    ensures r == -1 <==> codec !in CodecList
    ensures r >= 0 ==> CodecList[r] == codec
  {
    if codec == CodecList[0] then 0
    else if codec == CodecList[1] then 1
    else if codec == CodecList[2] then 2
    else -1
  }

  /** `CodecList[b]`: the codec name, or undefined past the list. */
  function CodecName(b: int): Value
  {
    if 0 <= b < |CodecList| then Str(CodecList[b]) else Undefined
  }

  /** The 15 bytes of media info written after the count byte. */
  function InfoBytes(info: MediaInfo): (r: seq<Byte>)
    ensures |r| == 15
  {
    U8(CodecIndex(info.videoCodec)) + U16(info.width) + U16(info.height)
    + U8(info.framerate) + U8(info.audioChannels) + U32(info.audioSampleRate)
    + U16(info.videoBitrate / 1000) + U16(info.audioBitrate / 1000)
  }

  /** The packet header with the given size and count fields. */
  function Head(index: int, typ: int, size: int, count: int, info: MediaInfo): (r: seq<Byte>)
    ensures |r| == MEDIA_HEAD_LENGTH
  {
    U32(index) + [PROTOCOL_VERSION] + U8(typ) + U32(size) + U8(count) + InfoBytes(info)
  }

  /** Total length of a packet holding the entries of `fs`. */
  function PacketSize(fs: seq<Frame>): int
  {
    MEDIA_HEAD_LENGTH + |Entries(fs)| + 4 * |fs|
  }

  /** A flushed packet: header with the final size and count, the entries,
      and the table of their offsets. */
  function Packet(index: int, typ: int, info: MediaInfo, fs: seq<Frame>): (r: seq<Byte>)
    ensures |r| == PacketSize(fs)
  {
    Head(index, typ, PacketSize(fs), |fs|, info) + Entries(fs) + Table(Offsets(MEDIA_HEAD_LENGTH, fs))
  }

  /** The packet `stop` sends: a type-0 header whose size and count fields
      were never filled in. */
  function StopPacket(index: int, info: MediaInfo): (r: seq<Byte>)
    ensures |r| == MEDIA_HEAD_LENGTH
  {
    Head(index, TYPE_STOP, 0, 0, info)
  }

  /** Every field of a header sits at its documented offset. */
  lemma HeadLayout(index: int, typ: int, size: int, count: int, info: MediaInfo)
    ensures var h := Head(index, typ, size, count, info);
            && Get32(h, 0) == index % TWO32
            && h[4] == PROTOCOL_VERSION
            && h[5] == typ % 256
            && Get32(h, 6) == size % TWO32
            && h[10] == count % 256
            && h[11] == CodecIndex(info.videoCodec) % 256
            && Get16(h, 12) == info.width % TWO16
            && Get16(h, 14) == info.height % TWO16
            && h[16] == info.framerate % 256
            && h[17] == info.audioChannels % 256
            && Get32(h, 18) == info.audioSampleRate % TWO32
            && Get16(h, 22) == (info.videoBitrate / 1000) % TWO16
            && Get16(h, 24) == (info.audioBitrate / 1000) % TWO16
  {
    var h := Head(index, typ, size, count, info);
    var ib := InfoBytes(info);
    assert h[..4] == U32(index) && h[6..10] == U32(size) && h[11..] == ib;
    Get32Within(h, 0, U32(index));
    U32RoundTrip(index);
    Get32Within(h, 6, U32(size));
    U32RoundTrip(size);
    assert h[12..14] == ib[1..3] == U16(info.width);
    assert h[14..16] == ib[3..5] == U16(info.height);
    assert h[18..22] == ib[7..11] == U32(info.audioSampleRate);
    assert h[22..24] == ib[11..13] == U16(info.videoBitrate / 1000);
    assert h[24..26] == ib[13..15] == U16(info.audioBitrate / 1000);
    Get16Within(h, 12, U16(info.width));
    U16RoundTrip(info.width);
    Get16Within(h, 14, U16(info.height));
    U16RoundTrip(info.height);
    Get32Within(h, 18, U32(info.audioSampleRate));
    U32RoundTrip(info.audioSampleRate);
    Get16Within(h, 22, U16(info.videoBitrate / 1000));
    U16RoundTrip(info.videoBitrate / 1000);
    Get16Within(h, 24, U16(info.audioBitrate / 1000));
    U16RoundTrip(info.audioBitrate / 1000);
  }

  // ---------------------------------------------------------------------
  // The unpacker, as a function of its options object and one packet

  /** What the unpacker emits: `index`, `error`, `stop`, the events of
      `$emitUpdate` on its options, and `chunk`. */
  datatype Out = IndexOut(n: int) | ErrorOut(msg: string) | StopOut | UpdateOut(e: Emission) | ChunkOut(c: Chunk)

  /** The outcome of `feed`: what it emitted, the options object afterwards,
      and whether it returned rather than threw a RangeError. */
  datatype Fed = Fed(out: seq<Out>, opts: Obj, completed: bool)

  /** The options object literal the unpacker builds from a header, in its
      key order. */
  function ReadInfo(p: seq<Byte>): (r: seq<Field>)
    requires |p| >= MEDIA_HEAD_LENGTH
    ensures |r| == 8
  {
    [("videoCodec", CodecName(p[11])), ("width", Num(Get16(p, 12))), ("height", Num(Get16(p, 14))),
     ("framerate", Num(p[16])), ("audioChannels", Num(p[17])), ("audioSampleRate", Num(Get32(p, 18))),
     ("videoBitrate", Num(Get16(p, 22))), ("audioBitrate", Num(Get16(p, 24)))]
  }

  /** The options the unpacker reads back from a header carrying `info`:
      the codec when it is a known one, every number as its field holds it,
      the bitrates in kbit/s. */
  function InfoFields(info: MediaInfo): seq<Field>
  {
    [("videoCodec", if info.videoCodec in CodecList then Str(info.videoCodec) else Undefined),
     ("width", Num(info.width % TWO16)), ("height", Num(info.height % TWO16)),
     ("framerate", Num(info.framerate % 256)), ("audioChannels", Num(info.audioChannels % 256)),
     ("audioSampleRate", Num(info.audioSampleRate % TWO32)),
     ("videoBitrate", Num((info.videoBitrate / 1000) % TWO16)),
     ("audioBitrate", Num((info.audioBitrate / 1000) % TWO16))]
  }

  function Updates(es: seq<Emission>): (r: seq<Out>)
    ensures |r| == |es|
    decreases |es|
  {
    if es == [] then [] else [UpdateOut(es[0])] + Updates(es[1..])
  }

  function Chunks(cs: seq<Chunk>): (r: seq<Out>)
    ensures |r| == |cs|
    decreases |cs|
  {
    if cs == [] then [] else [ChunkOut(cs[0])] + Chunks(cs[1..])
  }

  /** Emissions made before those of `r`. */
  function After(before: seq<Out>, r: Fed): (r': Fed)
    ensures r'.opts == r.opts && r'.completed == r.completed && |r'.out| == |before| + |r.out|
  {
    Fed(before + r.out, r.opts, r.completed)
  }

  /** The offset table read from the end of the packet and the entry walk
      it drives; a table that would start before the packet throws at its
      first read. */
  function TableWalk(p: seq<Byte>, count: nat): Walked
  {
    var tableStart := |p| - 4 * count;
    if tableStart < 0 then Walked([], false)
    else WalkFrom(p, MEDIA_HEAD_LENGTH, ReadTable(p, tableStart, count), 0, tableStart, 1000)
  }

  /** The body of the unpacker's `feed` once the header checks passed and
      the header is whole: publish the options, then read the table and
      walk the entries from offset 26. */
  function DecodeBody(opts: Obj, p: seq<Byte>): Fed
    requires |p| >= MEDIA_HEAD_LENGTH
  {
    var (opts', es, _) := EmitUpdate(opts, ReadInfo(p), "update");
    var w := TableWalk(p, p[10]);
    Fed(Updates(es) + Chunks(w.chunks), opts', w.completed)
  }

  /** From the size field on: a size that disagrees with the packet's
      length is refused, a cut header throws, otherwise the body is read. */
  function DecodeSize(opts: Obj, p: seq<Byte>): Fed
  {
    if |p| < 10 then Fed([], opts, false)
    else if Get32(p, 6) != |p| then Fed([ErrorOut("mismatch length")], opts, true)
    else if |p| < MEDIA_HEAD_LENGTH then Fed([], opts, false)
    else DecodeBody(opts, p)
  }

  /** From the version byte on: a wrong version is refused, a stop type is
      announced, then the size field is checked. */
  function DecodeVersion(opts: Obj, p: seq<Byte>): Fed
  {
    if |p| < 6 then Fed([], opts, false)
    else if p[4] != PROTOCOL_VERSION then Fed([ErrorOut("wrong packet format")], opts, true)
    else After(if p[5] == TYPE_STOP then [StopOut] else [], DecodeSize(opts, p))
  }

  /** The unpacker's `feed(packet)` starting from options `opts`: the packet
      index is emitted first, then the rest is read. Each read past the end
      of the packet throws a RangeError, which ends the call with whatever
      was emitted before it. */
  function Decode(opts: Obj, p: seq<Byte>): Fed
  {
    if |p| < 4 then Fed([], opts, false)
    else After([IndexOut(Get32(p, 0))], DecodeVersion(opts, p))
  }

  predicate NoChunks(out: seq<Out>)
  {
    forall k :: 0 <= k < |out| ==> !out[k].ChunkOut?
  }

  /** The unpacker always emits the packet index first. */
  lemma IndexFirst(opts: Obj, p: seq<Byte>)
    requires |p| >= 4
    ensures var r := Decode(opts, p);
            |r.out| >= 1 && r.out[0] == IndexOut(Get32(p, 0))
  {
  }

  /** A packet with the wrong version or a size field that disagrees with
      its length is refused with an error, produces no chunk and leaves the
      options as they were. */
  lemma Refused(opts: Obj, p: seq<Byte>)
    requires |p| >= 6 && (p[4] != PROTOCOL_VERSION || (|p| >= 10 && Get32(p, 6) != |p|))
    ensures var r := Decode(opts, p);
            && r.completed && r.opts == opts && NoChunks(r.out)
            && r.out == [IndexOut(Get32(p, 0))]
                        + (if p[4] == PROTOCOL_VERSION && p[5] == TYPE_STOP then [StopOut] else [])
                        + [ErrorOut(if p[4] != PROTOCOL_VERSION then "wrong packet format" else "mismatch length")]
            && r.out[|r.out| - 1] == ErrorOut(if p[4] != PROTOCOL_VERSION then "wrong packet format" else "mismatch length")
            && (StopOut in r.out <==> p[4] == PROTOCOL_VERSION && p[5] == TYPE_STOP)
  {
  }

  /** The packer's own stop packet yields `index`, `stop`, then the length
      error, since its size field stays 0. */
  lemma StopPacketDecodes(opts: Obj, index: int, info: MediaInfo)
    ensures Decode(opts, StopPacket(index, info))
            == Fed([IndexOut(index % TWO32), StopOut, ErrorOut("mismatch length")], opts, true)
  {
    HeadLayout(index, TYPE_STOP, 0, 0, info);
  }

  /** The media info read back from any header. */
  lemma InfoRoundTrip(p: seq<Byte>, index: int, typ: int, size: int, count: int, info: MediaInfo)
    requires |p| >= MEDIA_HEAD_LENGTH && p[..MEDIA_HEAD_LENGTH] == Head(index, typ, size, count, info)
    ensures ReadInfo(p) == InfoFields(info)
  {
    var h := Head(index, typ, size, count, info);
    HeadLayout(index, typ, size, count, info);
    assert p[11] == h[11] && p[16] == h[16] && p[17] == h[17];
    Get16Within(p, 12, h[12..14]);
    Get16Within(p, 14, h[14..16]);
    Get32Within(p, 18, h[18..22]);
    Get16Within(p, 22, h[22..24]);
    Get16Within(p, 24, h[24..26]);
    assert h[12..14][0] == h[12] && h[12..14][1] == h[13];
    assert Get16(h[12..14], 0) == Get16(h, 12);
    assert Get16(h[14..16], 0) == Get16(h, 14);
    assert Get32(h[18..22], 0) == Get32(h, 18);
    assert Get16(h[22..24], 0) == Get16(h, 22);
    assert Get16(h[24..26], 0) == Get16(h, 24);
    var ci := CodecIndex(info.videoCodec);
    if ci == -1 {
      assert p[11] == 255;
    } else {
      assert p[11] == ci;
    }
  }

  /** Every entry offset lies inside the entries it indexes. */
  lemma {:induction false} OffsetsRange(base: int, fs: seq<Frame>)
    ensures forall k :: 0 <= k < |fs| ==> base <= Offsets(base, fs)[k] < base + |Entries(fs)|
    decreases |fs|
  {
    if fs != [] {
      var b' := base + |EntryBytes(fs[0])|;
      OffsetsRange(b', fs[1..]);
      EntriesCons(fs);
      forall k | 0 <= k < |fs|
        ensures base <= Offsets(base, fs)[k] < base + |Entries(fs)|
      {
        if k > 0 {
          assert Offsets(base, fs)[k] == Offsets(b', fs[1..])[k - 1];
        }
      }
    }
  }

  /** What the unpacker emits for a media packet before its chunks. */
  function Preamble(opts: Obj, index: int, info: MediaInfo): seq<Out>
  {
    [IndexOut(index % TWO32)] + Updates(EmitUpdate(opts, InfoFields(info), "update").1)
  }

  /** A packet with the right version, a media type and a size field that
      matches its length is read through to its body. */
  lemma DecodeAccepted(opts: Obj, p: seq<Byte>)
    requires |p| >= MEDIA_HEAD_LENGTH && p[4] == PROTOCOL_VERSION && p[5] != TYPE_STOP && Get32(p, 6) == |p|
    ensures Decode(opts, p) == After([IndexOut(Get32(p, 0))], DecodeBody(opts, p))
  {
    assert [IndexOut(Get32(p, 0))] + ([] + DecodeBody(opts, p).out) == [IndexOut(Get32(p, 0))] + DecodeBody(opts, p).out;
  }

  /** The body read of a packet whose info, table and entries are known. */
  lemma BodyRead(opts: Obj, p: seq<Byte>, fields: seq<Field>, idx: seq<int>, ts: int, fs: seq<Frame>)
    requires |p| >= MEDIA_HEAD_LENGTH && ReadInfo(p) == fields
    requires ts == |p| - 4 * (p[10] as int) && 0 <= ts && ReadTable(p, ts, p[10]) == idx
    requires WalkFrom(p, MEDIA_HEAD_LENGTH, idx, 0, ts, 1000) == Walked(Expected(fs, 1000), true)
    ensures DecodeBody(opts, p)
            == Fed(Updates(EmitUpdate(opts, fields, "update").1) + Chunks(Expected(fs, 1000)),
                   EmitUpdate(opts, fields, "update").0, true)
  {
  }

  /** The header fields read back from a packet that starts with a header. */
  lemma HeadPrefix(p: seq<Byte>, index: int, typ: int, size: int, count: int, info: MediaInfo)
    requires |p| >= MEDIA_HEAD_LENGTH && p[..MEDIA_HEAD_LENGTH] == Head(index, typ, size, count, info)
    ensures Get32(p, 0) == index % TWO32 && p[4] == PROTOCOL_VERSION && p[5] == typ % 256
            && Get32(p, 6) == size % TWO32 && p[10] == count % 256 && ReadInfo(p) == InfoFields(info)
  {
    var h := Head(index, typ, size, count, info);
    HeadLayout(index, typ, size, count, info);
    assert p[4] == h[4] && p[5] == h[5] && p[10] == h[10];
    Get32Within(p, 0, h[0..4]);
    Get32Within(p, 6, h[6..10]);
    assert Get32(h[0..4], 0) == Get32(h, 0);
    assert Get32(h[6..10], 0) == Get32(h, 6);
    InfoRoundTrip(p, index, typ, size, count, info);
  }

  /** An accepted media header carrying the given index, info and count. */
  ghost predicate HeaderLaid(p: seq<Byte>, index: int, info: MediaInfo, count: int)
  {
    && |p| >= MEDIA_HEAD_LENGTH && p[4] == PROTOCOL_VERSION && p[5] != TYPE_STOP && Get32(p, 6) == |p|
    && Get32(p, 0) == index % TWO32 && ReadInfo(p) == InfoFields(info) && p[10] == count
  }

  /** The header fields of a flushed media packet, read back. */
  lemma PacketHeader(index: int, info: MediaInfo, fs: seq<Frame>)
    requires |fs| <= 255 && |Packet(index, TYPE_MEDIA, info, fs)| < TWO32
    ensures HeaderLaid(Packet(index, TYPE_MEDIA, info, fs), index, info, |fs|)
  {
    var p := Packet(index, TYPE_MEDIA, info, fs);
    var h := Head(index, TYPE_MEDIA, PacketSize(fs), |fs|, info);
    assert p[..MEDIA_HEAD_LENGTH] == h;
    HeadPrefix(p, index, TYPE_MEDIA, PacketSize(fs), |fs|, info);
    var n := |p|;
    assert n == PacketSize(fs);
    DivModUnique(n, TWO32, 0, n);
    DivModUnique(|fs|, 256, 0, |fs|);
  }

  /** Offsets inside a packet below 2^32 bytes survive their 32-bit fields. */
  lemma OffsetsMod32(base: int, fs: seq<Frame>)
    requires 0 <= base && base + |Entries(fs)| <= TWO32
    ensures Mod32All(Offsets(base, fs)) == Offsets(base, fs)
  {
    OffsetsRange(base, fs);
  }

  /** The offset table of a flushed media packet, read back from its end. */
  lemma PacketTable(index: int, info: MediaInfo, fs: seq<Frame>)
    requires |Packet(index, TYPE_MEDIA, info, fs)| < TWO32
    ensures var p := Packet(index, TYPE_MEDIA, info, fs);
            ReadTable(p, |p| - 4 * |fs|, |fs|) == Offsets(MEDIA_HEAD_LENGTH, fs)
  {
    var h := Head(index, TYPE_MEDIA, PacketSize(fs), |fs|, info);
    var idx := Offsets(MEDIA_HEAD_LENGTH, fs);
    assert Packet(index, TYPE_MEDIA, info, fs) == (h + Entries(fs)) + Table(idx);
    TableAfter(h + Entries(fs), idx);
    OffsetsMod32(MEDIA_HEAD_LENGTH, fs);
  }

  /** A table appended to any bytes reads back from where they end. */
  lemma TableAfter(pre: seq<Byte>, idx: seq<int>)
    ensures |pre| == |pre + Table(idx)| - 4 * |idx|
    ensures ReadTable(pre + Table(idx), |pre|, |idx|) == Mod32All(idx)
  {
    TableRoundTrip(pre + Table(idx), pre, |pre|, idx);
  }

  /** The entries of a flushed media packet, walked with the lengths its
      offsets give. */
  lemma PacketWalk(index: int, info: MediaInfo, fs: seq<Frame>)
    ensures var p := Packet(index, TYPE_MEDIA, info, fs);
            WalkFrom(p, MEDIA_HEAD_LENGTH, Offsets(MEDIA_HEAD_LENGTH, fs), 0, |p| - 4 * |fs|, 1000)
            == Walked(Expected(fs, 1000), true)
  {
    var h := Head(index, TYPE_MEDIA, PacketSize(fs), |fs|, info);
    var e := Entries(fs);
    var idx := Offsets(MEDIA_HEAD_LENGTH, fs);
    var p := Packet(index, TYPE_MEDIA, info, fs);
    var ts := MEDIA_HEAD_LENGTH + |e|;
    assert p == h + e + Table(idx);
    assert p[MEDIA_HEAD_LENGTH..ts] == e;
    assert idx[0..] == idx;
    WalkRoundTrip(p, MEDIA_HEAD_LENGTH, ts, idx, 0, fs, 1000);
  }

  /** What the unpacker finds in a packet laid out by the packer: an
      accepted media header with the given index and info, a table of the
      entry offsets, and entries that walk to the expected chunks. */
  ghost predicate MediaLaid(p: seq<Byte>, index: int, info: MediaInfo, fs: seq<Frame>)
  {
    && HeaderLaid(p, index, info, |fs|)
    && |p| - 4 * |fs| >= 0
    && ReadTable(p, |p| - 4 * |fs|, |fs|) == Offsets(MEDIA_HEAD_LENGTH, fs)
    && WalkFrom(p, MEDIA_HEAD_LENGTH, Offsets(MEDIA_HEAD_LENGTH, fs), 0, |p| - 4 * |fs|, 1000)
       == Walked(Expected(fs, 1000), true)
  }

  lemma PacketLaid(index: int, info: MediaInfo, fs: seq<Frame>)
    requires |fs| <= 255 && |Packet(index, TYPE_MEDIA, info, fs)| < TWO32
    ensures MediaLaid(Packet(index, TYPE_MEDIA, info, fs), index, info, fs)
  {
    PacketHeader(index, info, fs);
    PacketTable(index, info, fs);
    PacketWalk(index, info, fs);
  }

  /** The two reads of a laid-out media packet: it is accepted through to
      its body, and the body gives the info updates and the frames. */
  lemma LaidRead(opts: Obj, p: seq<Byte>, index: int, info: MediaInfo, fs: seq<Frame>)
    requires MediaLaid(p, index, info, fs)
    ensures Decode(opts, p) == After([IndexOut(index % TWO32)], DecodeBody(opts, p))
    ensures DecodeBody(opts, p)
            == Fed(Updates(EmitUpdate(opts, InfoFields(info), "update").1) + Chunks(Expected(fs, 1000)),
                   EmitUpdate(opts, InfoFields(info), "update").0, true)
  {
    var ts := |p| - 4 * |fs|;
    assert HeaderLaid(p, index, info, |fs|);
    assert p[10] as int == |fs| && Get32(p, 0) == index % TWO32;
    DecodeAccepted(opts, p);
    BodyRead(opts, p, InfoFields(info), Offsets(MEDIA_HEAD_LENGTH, fs), ts, fs);
  }

  /** A packet so laid out decodes to its index, the option updates and the
      chunks. */
  lemma DecodeLaid(opts: Obj, p: seq<Byte>, index: int, info: MediaInfo, fs: seq<Frame>)
    requires MediaLaid(p, index, info, fs)
    ensures Decode(opts, p)
            == Fed(Preamble(opts, index, info) + Chunks(Expected(fs, 1000)),
                   EmitUpdate(opts, InfoFields(info), "update").0, true)
  {
    LaidRead(opts, p, index, info, fs);
    var e := EmitUpdate(opts, InfoFields(info), "update");
    AfterBody(Decode(opts, p), DecodeBody(opts, p), [IndexOut(index % TWO32)], Updates(e.1), Chunks(Expected(fs, 1000)), e.0);
  }

  lemma AfterBody(d: Fed, body: Fed, head: seq<Out>, u: seq<Out>, c: seq<Out>, o: Obj)
    requires d == After(head, body) && body == Fed(u + c, o, true)
    ensures d == Fed(head + u + c, o, true)
  {
    assert head + (u + c) == head + u + c;
  }


  /** A media packet as the packer flushes it decodes to its index, the
      option updates its media info causes, and one chunk per entry with a
      non-empty payload, in the order they were fed; the walk ends normally.
      The packer keeps at most 255 entries and its packets below 2^32
      bytes, so the count and size fields hold their values. */
  lemma MediaRoundTrip(opts: Obj, index: int, info: MediaInfo, fs: seq<Frame>)
    requires |fs| <= 255 && |Packet(index, TYPE_MEDIA, info, fs)| < TWO32
    ensures Decode(opts, Packet(index, TYPE_MEDIA, info, fs))
            == Fed(Preamble(opts, index, info) + Chunks(Expected(fs, 1000)),
                   EmitUpdate(opts, InfoFields(info), "update").0, true)
  {
    PacketLaid(index, info, fs);
    DecodeLaid(opts, Packet(index, TYPE_MEDIA, info, fs), index, info, fs);
  }
}
