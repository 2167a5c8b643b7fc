/** The NoMux packer: encoded chunks are appended to an open packet in a
    scratch buffer of twice the maximum packet size; the packet is closed
    (offset table appended, size and count backpatched) and emitted when
    the next chunk would not fit, when it already holds 255 chunks, when its
    idle timer expires, on a change of options, and on stop. */
module NoMuxPacking {
  import opened Bytes
  import opened EntryWalk
  import opened NoMuxFormat
  import opened WideEvent

  /** A packet the packer emitted: the header it was opened with and the
      frames it carried. */
  datatype Emitted = Emitted(index: int, typ: int, info: MediaInfo, frames: seq<Frame>)

  /** The bytes of an emitted packet. A flushed packet holds at least one
      frame and is backpatched; the packet `stop` sends holds none and
      keeps the header as it was opened. */
  function Wire(e: Emitted): (r: seq<Byte>)
    ensures e.frames != [] ==> r == Packet(e.index, e.typ, e.info, e.frames)
    ensures e.frames == [] ==> r == Head(e.index, e.typ, 0, 0, e.info)
  {
    if e.frames == [] then Head(e.index, e.typ, 0, 0, e.info) else Packet(e.index, e.typ, e.info, e.frames)
  }

  /** All frames carried by a run of emitted packets, in emission order. */
  function Flatten(log: seq<Emitted>): seq<Frame>
    decreases |log|
  {
    if log == [] then [] else Flatten(log[..|log| - 1]) + log[|log| - 1].frames
  }

  lemma FlattenSnoc(log: seq<Emitted>, e: Emitted)
    ensures Flatten(log + [e]) == Flatten(log) + e.frames
  {
    assert (log + [e])[..|log|] == log;
  }

  /** The packet-size test `feed` applies before appending a chunk. */
  predicate OverSize(pointer: int, size: int, count: int, maxSize: int)
  {
    (pointer + size + 24) + (count + 1) * 4 > maxSize
  }

  /** Whether `feed` closes the open packet and opens a new one first. */
  predicate Restarts(timerSet: bool, pointer: int, size: int, count: int, maxSize: int)
  {
    OverSize(pointer, size, count, maxSize) || count > 254 || !timerSet
  }

  /** Overwriting the size and count fields of a header followed by `post`. */
  lemma Splice(pre: seq<Byte>, x: seq<Byte>, y: seq<Byte>, u: seq<Byte>, v: seq<Byte>, post: seq<Byte>,
               s0: seq<Byte>, s1: seq<Byte>, s2: seq<Byte>)
    requires |pre| == 6 && |x| == 4 && |y| == 4 && |u| == 1 && |v| == 1
    requires s0 == pre + x + u + post
    requires s1 == s0[..6] + y + s0[10..]
    requires s2 == s1[..10] + v + s1[11..]
    ensures s2 == pre + y + v + post
  {
    assert s0[..6] == pre;
    assert s0[10..] == u + post;
    assert s1[..10] == pre + y;
    assert s1[11..] == post;
  }

  /** The header bytes before the size field. */
  function HeadPre(index: int, typ: int): (r: seq<Byte>)
    ensures |r| == 6
  {
    U32(index) + [PROTOCOL_VERSION] + U8(typ)
  }

  /** A header followed by `a` and `b`, split around its size and count fields. */
  lemma HeadSplit(index: int, typ: int, size: int, count: int, info: MediaInfo, a: seq<Byte>, b: seq<Byte>)
    ensures Head(index, typ, size, count, info) + a + b
            == HeadPre(index, typ) + U32(size) + U8(count) + (InfoBytes(info) + (a + b))
  {
  }

  /** The length of an open packet once its table is written. */
  lemma ClosedLength(index: int, typ: int, size: int, count: int, info: MediaInfo, fs: seq<Frame>, s0: seq<Byte>)
    requires s0 == Head(index, typ, size, count, info) + Entries(fs) + Table(Offsets(MEDIA_HEAD_LENGTH, fs))
    ensures |s0| == PacketSize(fs)
  {
  }

  /** The header with the packet size and count in place is the packet. */
  lemma Patched(index: int, typ: int, info: MediaInfo, fs: seq<Frame>, n: int, s2: seq<Byte>)
    requires n == PacketSize(fs)
    requires s2 == HeadPre(index, typ) + U32(n) + U8(|fs|)
                   + (InfoBytes(info) + (Entries(fs) + Table(Offsets(MEDIA_HEAD_LENGTH, fs))))
    ensures s2 == Packet(index, typ, info, fs)
  {
    HeadSplit(index, typ, n, |fs|, info, Entries(fs), Table(Offsets(MEDIA_HEAD_LENGTH, fs)));
  }

  /** The header, entries and table written so far, with the size field set
      to the length and the count field to the number of entries, form the
      packet. */
  lemma Backpatch(index: int, typ: int, size: int, count: int, info: MediaInfo, fs: seq<Frame>,
                  n: int, c: int, s0: seq<Byte>, s1: seq<Byte>, s2: seq<Byte>)
    requires s0 == Head(index, typ, size, count, info) + Entries(fs) + Table(Offsets(MEDIA_HEAD_LENGTH, fs))
    requires n == |s0| && c == |fs|
    requires s1 == s0[..6] + U32(n) + s0[10..]
    requires s2 == s1[..10] + U8(c) + s1[11..]
    ensures s2 == Packet(index, typ, info, fs)
  {
    var e, t := Entries(fs), Table(Offsets(MEDIA_HEAD_LENGTH, fs));
    HeadSplit(index, typ, size, count, info, e, t);
    ClosedLength(index, typ, size, count, info, fs, s0);
    Splice(HeadPre(index, typ), U32(size), U32(n), U8(count), U8(c), InfoBytes(info) + (e + t), s0, s1, s2);
    Patched(index, typ, info, fs, n, s2);
  }

  /** The fields `writeMediaInfo` writes one by one make up the count byte
      and the media info. */
  lemma InfoFlat(b: seq<Byte>, info: MediaInfo)
    ensures b + U8(CodecIndex(info.videoCodec)) + U16(info.width) + U16(info.height)
            + U8(info.framerate) + U8(info.audioChannels) + U32(info.audioSampleRate)
            + U16(info.videoBitrate / 1000) + U16(info.audioBitrate / 1000)
            == b + InfoBytes(info)
  {
  }

  /** The fields `initPacket` writes one by one make up the header. */
  lemma HeadFlat(index: int, typ: int, info: MediaInfo)
    ensures [] + U32(index) + U8(PROTOCOL_VERSION) + U8(typ) + U32(0) + U8(0) + InfoBytes(info)
            == Head(index, typ, 0, 0, info) + Entries([])
  {
  }

  /** The fields `feed` writes one by one make up the entry. */
  lemma EntryFlat(b: seq<Byte>, f: Frame)
    ensures b + U8(if f.isVideo then 1 else 0) + U8(if f.isKey then 1 else 0)
            + U32(f.timestamp / 1000) + U32(f.duration) + f.payload
            == b + EntryBytes(f)
  {
  }

  lemma Assoc<T>(a: seq<T>, b: seq<T>, c: seq<T>)
    ensures a + b + c == a + (b + c)
  {
  }

  /** An open packet of `len`-byte capacity holding `bytes` up to the write
      position p: the header as written, the entries back to back, their
      offsets recorded, room left for the table, at most 255 entries, and
      below the size limit once it holds two. */
  ghost predicate LaidOut(bytes: seq<Byte>, p: int, len: int, head: seq<Byte>, es: seq<Frame>, idx: seq<int>, maxSize: int)
  {
    && p == MEDIA_HEAD_LENGTH + |Entries(es)|
    && p + 4 * |es| <= len
    && bytes == head + Entries(es)
    && idx == Offsets(MEDIA_HEAD_LENGTH, es)
    && |es| <= 255
    && (|es| >= 2 ==> p + 4 * |es| + 14 <= maxSize)
  }

  /** Writing one more entry keeps the packet laid out, provided the size
      and count tests of `feed` passed. */
  lemma LaidSnoc(bytes: seq<Byte>, p: int, len: int, head: seq<Byte>, es: seq<Frame>, idx: seq<int>, maxSize: int,
                 f: Frame, bytes2: seq<Byte>, p2: int, es2: seq<Frame>, idx2: seq<int>)
    requires LaidOut(bytes, p, len, head, es, idx, maxSize)
    requires |es| <= 254 && p + |f.payload| + 14 + 4 * |es| <= len
    requires es != [] ==> !OverSize(p, |f.payload|, |es|, maxSize)
    requires bytes2 == bytes + EntryBytes(f) && p2 == p + FRAME_HEAD_LENGTH + |f.payload|
    requires es2 == es + [f] && idx2 == idx + [p]
    ensures LaidOut(bytes2, p2, len, head, es2, idx2, maxSize)
  {
    OffsetsSnoc(MEDIA_HEAD_LENGTH, es, f);
    EntriesSnoc(es, f);
    Assoc(head, Entries(es), EntryBytes(f));
  }

  /** Packet k of the output: the wire form of what it was made of, within
      32-bit sizes and 255 entries, below the size limit once it holds two
      frames; only stop packets hold none; its index is k, except for a
      stop-typed packet that carries frames (fed after `stop`), which
      repeats the index of the stop packet before it. */
  ghost predicate Sound(s: seq<Byte>, e: Emitted, k: int, maxSize: int)
  {
    && s == Wire(e)
    && |s| < TWO32
    && |e.frames| <= 255
    && (|e.frames| >= 2 ==> |s| + 14 <= maxSize)
    && (e.frames == [] ==> e.typ == TYPE_STOP)
    && (e.typ == TYPE_MEDIA || e.frames == [] ==> e.index == k)
    && (e.typ == TYPE_STOP && e.frames != [] ==> e.index == k - 1)
  }

  /** A packet completed from an open one laid out with p0 bytes is sound
      as packet k. */
  lemma ClosedSound(s: seq<Byte>, e: Emitted, k: int, maxSize: int, p0: int)
    requires e.frames != [] && |e.frames| <= 255 && s == Packet(e.index, e.typ, e.info, e.frames)
    requires |s| == p0 + 4 * |e.frames| <= 2 * maxSize < TWO32
    requires |e.frames| >= 2 ==> p0 + 4 * |e.frames| + 14 <= maxSize
    requires (e.typ == TYPE_MEDIA && e.index == k) || (e.typ == TYPE_STOP && e.index + 1 == k)
    ensures Sound(s, e, k, maxSize)
  {
  }

  /** Every packet sent is sound with respect to what it was made of. */
  ghost predicate LogSound(sent: seq<seq<Byte>>, log: seq<Emitted>, maxSize: int)
  {
    && |sent| == |log|
    && forall k :: 0 <= k < |log| ==> Sound(sent[k], log[k], k, maxSize)
  }

  lemma LogSnoc(sent: seq<seq<Byte>>, log: seq<Emitted>, s: seq<Byte>, e: Emitted, maxSize: int)
    requires LogSound(sent, log, maxSize) && Sound(s, e, |log|, maxSize)
    ensures LogSound(sent + [s], log + [e], maxSize)
  {
  }

  lemma LogSoundAt(sent: seq<seq<Byte>>, log: seq<Emitted>, maxSize: int, k: int)
    requires LogSound(sent, log, maxSize) && 0 <= k < |log|
    ensures Sound(sent[k], log[k], k, maxSize)
  {
  }

  /** The output side of the packer's state: the buffer is twice the
      maximum size, the packet index counts the packets sent, every packet
      sent is sound, and the frames fed are those of the packets sent
      followed by those of the open packet. */
  ghost predicate Emits(len: int, maxSize: int, packetIndex: int, sent: seq<seq<Byte>>, log: seq<Emitted>,
                        fed: seq<Frame>, entries: seq<Frame>)
  {
    && len == 2 * maxSize && 20 <= maxSize && 2 * maxSize < TWO32
    && packetIndex == |sent|
    && LogSound(sent, log, maxSize)
    && Flatten(log) + entries == fed
  }

  /** Sending a sound packet that carries the open packet's frames. */
  lemma EmitsSnoc(len: int, maxSize: int, packetIndex: int, sent: seq<seq<Byte>>, log: seq<Emitted>,
                  fed: seq<Frame>, entries: seq<Frame>, s: seq<Byte>, e: Emitted)
    requires Emits(len, maxSize, packetIndex, sent, log, fed, entries)
    requires Sound(s, e, |log|, maxSize) && e.frames == entries
    ensures Emits(len, maxSize, packetIndex + 1, sent + [s], log + [e], fed, [])
  {
    LogSnoc(sent, log, s, e, maxSize);
    FlattenSnoc(log, e);
    assert Flatten(log + [e]) + [] == Flatten(log + [e]);
  }

  /** Feeding a frame into the open packet. */
  lemma EmitsPush(len: int, maxSize: int, packetIndex: int, sent: seq<seq<Byte>>, log: seq<Emitted>,
                  fed: seq<Frame>, entries: seq<Frame>, f: Frame)
    requires Emits(len, maxSize, packetIndex, sent, log, fed, entries)
    ensures Emits(len, maxSize, packetIndex, sent, log, fed + [f], entries + [f])
  {
    Assoc(Flatten(log), entries, [f]);
  }

  /** An open packet laid out in `bytes`, which is either a media packet
      with the next index or the stop packet already sent. */
  ghost predicate OpenAt(bytes: seq<Byte>, pointer: int, len: int, info: MediaInfo, hdrIndex: int, hdrType: int,
                         entries: seq<Frame>, chunkIndex: seq<int>, maxSize: int, packetIndex: int)
  {
    && LaidOut(bytes, pointer, len, Head(hdrIndex, hdrType, 0, 0, info), entries, chunkIndex, maxSize)
    && ((hdrType == TYPE_MEDIA && hdrIndex == packetIndex) || (hdrType == TYPE_STOP && hdrIndex + 1 == packetIndex))
  }

  class Packer {
    /** Largest packet the packer aims for, in bytes. */
    const maxSize: int
    /** The scratch buffer, twice the maximum packet size. */
    const buf: array<Byte>
    /** Media info written into every header. */
    var info: MediaInfo
    /** Write position in `buf`. */
    var pointer: int
    /** Offsets of the entries of the open packet. */
    var chunkIndex: seq<int>
    /** Whether the idle timer is armed, which is whether a packet is open. */
    var timerSet: bool
    /** Number of packets emitted. */
    var packetIndex: int
    /** The `packet` events emitted, in order. */
    var sent: seq<seq<Byte>>

    /** The frames in the open packet. */
    ghost var entries: seq<Frame>
    /** The index and type the open packet's header was written with. */
    ghost var hdrIndex: int
    ghost var hdrType: int
    /** What each emitted packet was made of. */
    ghost var log: seq<Emitted>
    /** Every frame fed so far. */
    ghost var fed: seq<Frame>

    /** The open packet as laid out in the buffer (see LaidOut). */
    ghost predicate Laid()
      reads this, buf
    {
      && 0 <= pointer <= buf.Length
      && LaidOut(buf[..pointer], pointer, buf.Length, Head(hdrIndex, hdrType, 0, 0, info), entries, chunkIndex, maxSize)
    }

    /** What was emitted is sound and accounts for every frame fed (see
        Emits), and a packet is open exactly when the idle timer is armed. */
    ghost predicate Valid()
      reads this, buf
    {
      && 0 <= pointer <= buf.Length
      && Emits(buf.Length, maxSize, packetIndex, sent, log, fed, entries)
      && (if timerSet
          then OpenAt(buf[..pointer], pointer, buf.Length, info, hdrIndex, hdrType, entries, chunkIndex, maxSize, packetIndex)
          else pointer == 0 && chunkIndex == [] && entries == [])
    }

    /** The packet a flush would emit, if any. */
    ghost function Pending(): seq<Emitted>
      reads this
    {
      if entries == [] then [] else [Emitted(hdrIndex, hdrType, info, entries)]
    }

    constructor (maxSize: int, info: MediaInfo)
      requires 20 <= maxSize && 2 * maxSize < TWO32
      ensures Valid()
      ensures this.maxSize == maxSize && this.info == info
      ensures !timerSet && packetIndex == 0 && sent == [] && fed == []
    {
      this.maxSize := maxSize;
      this.info := info;
      buf := new Byte[2 * maxSize];
      pointer := 0;
      chunkIndex := [];
      timerSet := false;
      packetIndex := 0;
      sent := [];
      entries := [];
      log := [];
      fed := [];
    }

    method Write8(v: int)
      requires 0 <= pointer && pointer + 1 <= buf.Length
      modifies buf, this`pointer
      ensures pointer == old(pointer) + 1
      ensures buf[..pointer] == old(buf[..pointer]) + U8(v)
    {
      buf[pointer] := v % 256;
      pointer := pointer + 1;
    }

    method Write16(v: int)
      requires 0 <= pointer && pointer + 2 <= buf.Length
      modifies buf, this`pointer
      ensures pointer == old(pointer) + 2
      ensures buf[..pointer] == old(buf[..pointer]) + U16(v)
    {
      buf[pointer] := (v / 0x100) % 256;
      buf[pointer + 1] := v % 256;
      pointer := pointer + 2;
    }

    method Write32(v: int)
      requires 0 <= pointer && pointer + 4 <= buf.Length
      modifies buf, this`pointer
      ensures pointer == old(pointer) + 4
      ensures buf[..pointer] == old(buf[..pointer]) + U32(v)
    {
      buf[pointer] := (v / 0x100_0000) % 256;
      buf[pointer + 1] := (v / 0x1_0000) % 256;
      buf[pointer + 2] := (v / 0x100) % 256;
      buf[pointer + 3] := v % 256;
      pointer := pointer + 4;
    }

    /** Copies a payload in at the write position. */
    method WriteChunk(payload: seq<Byte>)
      requires 0 <= pointer && pointer + |payload| <= buf.Length
      modifies buf, this`pointer
      ensures pointer == old(pointer) + |payload|
      ensures buf[..pointer] == old(buf[..pointer]) + payload
    {
      var i := 0;
      while i < |payload|
        invariant 0 <= i <= |payload| && pointer == old(pointer)
        invariant buf[..pointer + i] == old(buf[..pointer]) + payload[..i]
      {
        buf[pointer + i] := payload[i];
        assert payload[..i + 1] == payload[..i] + [payload[i]];
        i := i + 1;
      }
      assert payload[..i] == payload;
      pointer := pointer + |payload|;
    }

    /** The media info fields, one by one. */
    method WriteInfo()
      requires 0 <= pointer && pointer + 15 <= buf.Length
      modifies buf, this`pointer
      ensures pointer == old(pointer) + 15
      ensures buf[..pointer] == old(buf[..pointer]) + InfoBytes(info)
    {
      ghost var start := buf[..pointer];
      Write8(CodecIndex(info.videoCodec));
      Write16(info.width);
      Write16(info.height);
      Write8(info.framerate);
      Write8(info.audioChannels);
      Write32(info.audioSampleRate);
      Write16(info.videoBitrate / 1000);
      Write16(info.audioBitrate / 1000);
      InfoFlat(start, info);
    }

    /** The count byte, left 0, and the media info; arms the idle timer. */
    method WriteMediaInfo()
      requires 0 <= pointer && pointer + 16 <= buf.Length
      modifies buf, this`pointer, this`timerSet
      ensures pointer == old(pointer) + 16 && timerSet
      ensures buf[..pointer] == old(buf[..pointer]) + U8(0) + InfoBytes(info)
    {
      Write8(0);
      WriteInfo();
      timerSet := true;
    }

    /** Forgets the open packet and disarms the timer. */
    method Reset()
      modifies this`pointer, this`timerSet, this`chunkIndex, this`entries
      ensures pointer == 0 && !timerSet && chunkIndex == [] && entries == []
    {
      pointer := 0;
      timerSet := false;
      chunkIndex := [];
      entries := [];
    }

    /** Opens a packet of the given type: a header with the current packet
        index and zero size and count. */
    method InitPacket(typ: int)
      requires buf.Length >= MEDIA_HEAD_LENGTH
      modifies buf, this`pointer, this`timerSet, this`chunkIndex, this`entries, this`hdrIndex, this`hdrType
      ensures timerSet && Laid() && entries == [] && pointer == MEDIA_HEAD_LENGTH
      ensures hdrIndex == packetIndex && hdrType == typ
    {
      Reset();
      assert buf[..pointer] == [];
      Write32(packetIndex);
      Write8(PROTOCOL_VERSION);
      Write8(typ);
      Write32(0);
      WriteMediaInfo();
      hdrIndex := packetIndex;
      hdrType := typ;
      HeadFlat(packetIndex, typ, info);
    }

    /** Emits the bytes written so far as a `packet` event. */
    method Send()
      requires 0 <= pointer <= buf.Length
      modifies this`sent, this`packetIndex
      ensures sent == old(sent) + [buf[..pointer]] && packetIndex == old(packetIndex) + 1
    {
      sent := sent + [buf[..pointer]];
      packetIndex := packetIndex + 1;
    }

    /** Appends one 32-bit field per recorded entry offset. */
    method WriteTable()
      requires 0 <= pointer && pointer + 4 * |chunkIndex| <= buf.Length
      modifies buf, this`pointer
      ensures pointer == old(pointer) + 4 * |chunkIndex|
      ensures buf[..pointer] == old(buf[..pointer]) + Table(chunkIndex)
    {
      var i := 0;
      while i < |chunkIndex|
        invariant 0 <= i <= |chunkIndex|
        invariant pointer == old(pointer) + 4 * i
        invariant buf[..pointer] == old(buf[..pointer]) + Table(chunkIndex[..i])
      {
        Write32(chunkIndex[i]);
        TableSnoc(chunkIndex[..i], chunkIndex[i]);
        assert chunkIndex[..i + 1] == chunkIndex[..i] + [chunkIndex[i]];
        i := i + 1;
      }
      assert chunkIndex[..i] == chunkIndex;
    }

    /** DataView.setUint32 at a fixed offset inside what was written. */
    method SetUint32(at: int, v: int)
      requires 0 <= at && at + 4 <= pointer <= buf.Length
      modifies buf
      ensures buf[..pointer] == old(buf[..pointer])[..at] + U32(v) + old(buf[..pointer])[at + 4..]
    {
      buf[at] := (v / 0x100_0000) % 256;
      buf[at + 1] := (v / 0x1_0000) % 256;
      buf[at + 2] := (v / 0x100) % 256;
      buf[at + 3] := v % 256;
    }

    /** DataView.setUint8 at a fixed offset inside what was written. */
    method SetUint8(at: int, v: int)
      requires 0 <= at && at + 1 <= pointer <= buf.Length
      modifies buf
      ensures buf[..pointer] == old(buf[..pointer])[..at] + U8(v) + old(buf[..pointer])[at + 1..]
    {
      buf[at] := v % 256;
    }

    /** The part of `flush` that completes a non-empty packet: the offset
        table, then the size and count fields. */
    method Close()
      requires Laid() && entries != []
      modifies buf, this`pointer
      ensures pointer == old(pointer) + 4 * |entries| <= buf.Length
      ensures buf[..pointer] == Packet(hdrIndex, hdrType, info, entries)
    {
      ghost var s0 := Head(hdrIndex, hdrType, 0, 0, info) + Entries(entries) + Table(Offsets(MEDIA_HEAD_LENGTH, entries));
      WriteTable();
      var n := pointer;
      SetUint32(6, n);
      ghost var s1 := buf[..pointer];
      var c := |chunkIndex|;
      SetUint8(10, c);
      Backpatch(hdrIndex, hdrType, 0, 0, info, entries, n, c, s0, s1, buf[..pointer]);
    }

    /** The part of `flush` that completes the open packet, which holds
        entries, and emits it. */
    method CloseAndSend()
      requires Valid() && timerSet && entries != []
      modifies buf, this`pointer, this`sent, this`packetIndex, this`log
      ensures Emits(buf.Length, maxSize, packetIndex, sent, log, fed, [])
      ensures log == old(log) + old(Pending()) && sent == old(sent) + [Wire(old(Pending())[0])]
      ensures packetIndex == old(packetIndex) + 1
    {
      ghost var e := Emitted(hdrIndex, hdrType, info, entries);
      ghost var p0 := pointer;
      Close();
      ClosedSound(buf[..pointer], e, |log|, maxSize, p0);
      EmitsSnoc(buf.Length, maxSize, packetIndex, sent, log, fed, entries, buf[..pointer], e);
      Send();
      log := log + [e];
    }

    /** Closes the open packet: when it holds entries, appends the offset
        table, backpatches size and count, and emits it; in every case
        forgets it and disarms the timer. */
    method Flush()
      requires Valid()
      modifies buf, this`pointer, this`timerSet, this`chunkIndex, this`entries, this`sent, this`packetIndex, this`log
      ensures Valid() && !timerSet
      ensures log == old(log) + old(Pending()) && packetIndex == old(packetIndex) + |old(Pending())|
      ensures old(entries) == [] ==> sent == old(sent)
      ensures old(entries) != [] ==> sent == old(sent) + [Wire(old(Pending())[0])]
    {
      var count := |chunkIndex|;
      if count > 0 {
        CloseAndSend();
      } else {
        assert entries == [];
      }
      Reset();
    }

    /** `setOpts`: closes the open packet, then takes the new media info. */
    method SetOpts(newInfo: MediaInfo)
      requires Valid()
      modifies buf, this`pointer, this`timerSet, this`chunkIndex, this`entries, this`sent, this`packetIndex, this`log, this`info
      ensures Valid() && !timerSet && info == newInfo
      ensures log == old(log) + old(Pending())
    {
      Flush();
      info := newInfo;
    }

    /** The fields of one entry, then its payload. */
    method WriteEntry(f: Frame)
      requires 0 <= pointer && pointer + FRAME_HEAD_LENGTH + |f.payload| <= buf.Length
      modifies buf, this`pointer
      ensures pointer == old(pointer) + FRAME_HEAD_LENGTH + |f.payload|
      ensures buf[..pointer] == old(buf[..pointer]) + EntryBytes(f)
    {
      ghost var start := buf[..pointer];
      Write8(if f.isVideo then 1 else 0);
      Write8(if f.isKey then 1 else 0);
      Write32(f.timestamp / 1000);
      Write32(f.duration);
      WriteChunk(f.payload);
      EntryFlat(start, f);
    }

    /** The part of `feed` that writes one entry into the open packet and
        records its offset. */
    method Append(f: Frame)
      requires Laid() && |entries| <= 254
      requires pointer + |f.payload| + 14 + 4 * |entries| <= buf.Length
      requires entries != [] ==> !OverSize(pointer, |f.payload|, |entries|, maxSize)
      modifies buf, this`pointer, this`chunkIndex, this`entries
      ensures Laid() && entries == old(entries) + [f]
    {
      ghost var b, p0 := buf[..pointer], pointer;
      LaidSnoc(b, p0, buf.Length, Head(hdrIndex, hdrType, 0, 0, info), entries, chunkIndex, maxSize,
               f, b + EntryBytes(f), p0 + FRAME_HEAD_LENGTH + |f.payload|, entries + [f], chunkIndex + [pointer]);
      chunkIndex := chunkIndex + [pointer];
      WriteEntry(f);
      entries := entries + [f];
    }

    /** The part of `feed` that closes the open packet and opens a media
        packet. */
    method Restart()
      requires Valid()
      modifies buf, this`pointer, this`timerSet, this`chunkIndex, this`entries, this`sent, this`packetIndex, this`log, this`hdrIndex, this`hdrType
      ensures Valid() && timerSet && entries == [] && hdrType == TYPE_MEDIA && pointer == MEDIA_HEAD_LENGTH
      ensures log == old(log) + old(Pending())
    {
      Flush();
      InitPacket(TYPE_MEDIA);
    }

    /** Writes one entry into the open packet and records the frame as fed. */
    method Push(f: Frame)
      requires Valid() && timerSet && |entries| <= 254
      requires pointer + |f.payload| + 14 + 4 * |entries| <= buf.Length
      requires entries != [] ==> !OverSize(pointer, |f.payload|, |entries|, maxSize)
      modifies buf, this`pointer, this`chunkIndex, this`entries, this`fed
      ensures Valid() && entries == old(entries) + [f] && fed == old(fed) + [f]
    {
      EmitsPush(buf.Length, maxSize, packetIndex, sent, log, fed, entries, f);
      Append(f);
      fed := fed + [f];
    }

    /** Appends one encoded chunk, first closing the open packet and opening
        a media packet when none is open, the chunk would overflow the
        maximum size, or 255 chunks are already in it. */
    method Feed(f: Frame)
      requires Valid() && |f.payload| + 40 <= buf.Length
      modifies buf, this`pointer, this`timerSet, this`chunkIndex, this`entries, this`sent, this`packetIndex, this`log, this`hdrIndex, this`hdrType, this`fed
      ensures Valid() && timerSet && fed == old(fed) + [f]
      ensures Restarts(old(timerSet), old(pointer), |f.payload|, |old(chunkIndex)|, maxSize) ==>
                log == old(log) + old(Pending()) && entries == [f] && hdrType == TYPE_MEDIA
      ensures !Restarts(old(timerSet), old(pointer), |f.payload|, |old(chunkIndex)|, maxSize) ==>
                log == old(log) && sent == old(sent) && entries == old(entries) + [f]
                && hdrType == old(hdrType) && hdrIndex == old(hdrIndex)
    {
      var size := |f.payload|;
      var count := |chunkIndex|;
      var overSize := (pointer + size + 24) + (count + 1) * 4 > maxSize;
      var notStarted := !timerSet;
      var overCount := count > 254;
      if overSize || overCount || notStarted {
        Restart();
      }
      Push(f);
    }

    /** The part of `stop` after the flush: opens a stop packet and emits
        it. Its header stays open, so the timer is armed again. */
    method SendStop()
      requires Valid() && !timerSet
      modifies buf, this`pointer, this`timerSet, this`chunkIndex, this`entries, this`sent, this`packetIndex, this`log, this`hdrIndex, this`hdrType
      ensures Valid() && timerSet && entries == []
      ensures log == old(log) + [Emitted(old(packetIndex), TYPE_STOP, info, [])]
      ensures sent == old(sent) + [StopPacket(old(packetIndex), info)] && packetIndex == old(packetIndex) + 1
    {
      InitPacket(TYPE_STOP);
      ghost var e := Emitted(hdrIndex, TYPE_STOP, info, []);
      assert buf[..pointer] == StopPacket(hdrIndex, info);
      EmitsSnoc(buf.Length, maxSize, packetIndex, sent, log, fed, entries, buf[..pointer], e);
      Send();
      log := log + [e];
    }

    /** Closes the open packet, then opens and emits a stop packet. */
    method Stop()
      requires Valid()
      modifies buf, this`pointer, this`timerSet, this`chunkIndex, this`entries, this`sent, this`packetIndex, this`log, this`hdrIndex, this`hdrType
      ensures Valid() && timerSet && entries == []
      ensures var stopIndex := old(packetIndex) + |old(Pending())|;
              log == old(log) + old(Pending()) + [Emitted(stopIndex, TYPE_STOP, info, [])]
              && sent[|sent| - 1] == StopPacket(stopIndex, info)
              && packetIndex == stopIndex + 1
    {
      Flush();
      SendStop();
    }

    /** Every media packet the packer emitted decodes to its index, the
        option updates of its media info, and its frames' chunks in feeding
        order. */
    lemma SentDecodes(opts: Obj, k: int)
      requires Valid() && 0 <= k < |sent| && log[k].typ == TYPE_MEDIA
      ensures Decode(opts, sent[k])
              == Fed(Preamble(opts, k, log[k].info) + Chunks(Expected(log[k].frames, 1000)),
                     EmitUpdate(opts, InfoFields(log[k].info), "update").0, true)
    {
      LogSoundAt(sent, log, maxSize, k);
      MediaRoundTrip(opts, k, log[k].info, log[k].frames);
    }
  }
}
