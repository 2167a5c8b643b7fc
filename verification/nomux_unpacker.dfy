/** The NoMux unpacker: reads one packet at a time through a read position,
    emitting what it finds. Its events are kept as a log (`out`) in emission
    order; the options object it updates is the field `opts`. Every method is
    proved against the function `NoMuxFormat.Decode`. */
module NoMuxUnpacking {
  import opened Bytes
  import opened EntryWalk
  import opened WideEvent
  import opened NoMuxFormat

  /** Chunks logged in two runs are logged in one. */
  lemma {:induction false} ChunksAppend(a: seq<Chunk>, b: seq<Chunk>)
    ensures Chunks(a + b) == Chunks(a) + Chunks(b)
    decreases |a|
  {
    if a == [] {
      assert [] + b == b;
    } else {
      assert (a + b)[0] == a[0] && (a + b)[1..] == a[1..] + b;
      ChunksAppend(a[1..], b);
    }
  }

  /** The body read in terms of the fields read and the walk. */
  lemma BodyOf(opts: Obj, p: seq<Byte>, fields: seq<Field>, w: Walked)
    requires |p| >= MEDIA_HEAD_LENGTH && ReadInfo(p) == fields && TableWalk(p, p[10]) == w
    ensures DecodeBody(opts, p) == Fed(Updates(EmitUpdate(opts, fields, "update").1) + Chunks(w.chunks),
                                       EmitUpdate(opts, fields, "update").0, w.completed)
  {
  }

  class Unpacker {
    /** The options object, updated by `$emitUpdate`. */
    var opts: Obj
    /** The packet being read. */
    var buf: seq<Byte>
    /** The read position. */
    var pointer: int
    /** How many packets were fed. */
    var packetIndex: int
    /** Everything emitted so far. */
    var out: seq<Out>

    constructor ()
      ensures opts == DefaultOpts && buf == [] && pointer == 0 && packetIndex == 0 && out == []
    {
      opts := DefaultOpts;
      buf := [];
      pointer := 0;
      packetIndex := 0;
      out := [];
    }

    /** DataView.getUint8 at the read position, which advances by one; a
        read outside the packet throws (`ok` false) and moves nothing. */
    method Read8() returns (ok: bool, v: int)
      modifies this`pointer
      ensures ok <==> 0 <= old(pointer) && old(pointer) + 1 <= |buf|
      ensures ok ==> v == buf[old(pointer)] && pointer == old(pointer) + 1
      ensures !ok ==> pointer == old(pointer)
    {
      if pointer < 0 || pointer + 1 > |buf| {
        return false, 0;
      }
      v := buf[pointer];
      pointer := pointer + 1;
      ok := true;
    }

    /** DataView.getUint16 at the read position, which advances by two. */
    method Read16() returns (ok: bool, v: int)
      modifies this`pointer
      ensures ok <==> 0 <= old(pointer) && old(pointer) + 2 <= |buf|
      ensures ok ==> v == Get16(buf, old(pointer)) && pointer == old(pointer) + 2
      ensures !ok ==> pointer == old(pointer)
    {
      if pointer < 0 || pointer + 2 > |buf| {
        return false, 0;
      }
      v := Get16(buf, pointer);
      pointer := pointer + 2;
      ok := true;
    }

    /** DataView.getUint32 at the read position, which advances by four. */
    method Read32() returns (ok: bool, v: int)
      modifies this`pointer
      ensures ok <==> 0 <= old(pointer) && old(pointer) + 4 <= |buf|
      ensures ok ==> v == Get32(buf, old(pointer)) && pointer == old(pointer) + 4
      ensures !ok ==> pointer == old(pointer)
    {
      if pointer < 0 || pointer + 4 > |buf| {
        return false, 0;
      }
      v := Get32(buf, pointer);
      pointer := pointer + 4;
      ok := true;
    }

    /** `length` bytes from the read position, as ArrayBuffer.slice gives
        them (clamped, and empty for a negative length); the position moves
        by `length` whatever was read. */
    method ReadChunk(length: int) returns (sub: seq<Byte>)
      modifies this`pointer
      ensures sub == JsSlice(buf, old(pointer), old(pointer) + length)
      ensures pointer == old(pointer) + length
    {
      sub := JsSlice(buf, pointer, pointer + length);
      pointer := pointer + length;
    }

    /** The eight media info reads after the count byte, as the options
        object literal; they all succeed exactly when the header is whole. */
    method ReadMediaInfo() returns (ok: bool, fields: seq<Field>)
      requires pointer == 11
      modifies this`pointer
      ensures ok <==> |buf| >= MEDIA_HEAD_LENGTH
      ensures ok ==> fields == ReadInfo(buf) && pointer == MEDIA_HEAD_LENGTH
    {
      var ok0, codec := Read8();
      if !ok0 { return false, []; }
      var ok1, width := Read16();
      if !ok1 { return false, []; }
      var ok2, height := Read16();
      if !ok2 { return false, []; }
      var ok3, framerate := Read8();
      if !ok3 { return false, []; }
      var ok4, channels := Read8();
      if !ok4 { return false, []; }
      var ok5, sampleRate := Read32();
      if !ok5 { return false, []; }
      var ok6, videoBitrate := Read16();
      if !ok6 { return false, []; }
      var ok7, audioBitrate := Read16();
      if !ok7 { return false, []; }
      fields := [("videoCodec", CodecName(codec)), ("width", Num(width)), ("height", Num(height)),
                 ("framerate", Num(framerate)), ("audioChannels", Num(channels)),
                 ("audioSampleRate", Num(sampleRate)), ("videoBitrate", Num(videoBitrate)),
                 ("audioBitrate", Num(audioBitrate))];
      ok := true;
    }

    /** The offset table loop: `count` 32-bit reads from the read position,
        which is `count * 4` bytes before the end. The first read throws
        when that position is negative; otherwise all succeed. */
    method ReadOffsets(count: int) returns (ok: bool, idx: seq<int>)
      requires 0 <= count && pointer == |buf| - 4 * count
      modifies this`pointer
      ensures ok <==> count == 0 || old(pointer) >= 0
      ensures ok ==> old(pointer) >= 0 && idx == ReadTable(buf, old(pointer), count)
    {
      ghost var at := pointer;
      idx := [];
      var i := 0;
      while i < count
        invariant 0 <= i <= count
        invariant pointer == at + 4 * i
        invariant i > 0 ==> at >= 0
        invariant at >= 0 ==> idx == ReadTable(buf, at, i)
      {
        var okRead, v := Read32();
        if !okRead {
          return false, [];
        }
        ReadTableSnoc(buf, at, i);
        idx := idx + [v];
        i := i + 1;
      }
      ok := true;
    }

    /** The four header reads of an entry: medium byte, key byte,
        timestamp and duration fields; they all succeed exactly when the
        header lies inside the packet. */
    method ReadEntryHead() returns (ok: bool, medium: int, key: int, timestamp: int, duration: int)
      modifies this`pointer
      ensures ok <==> 0 <= old(pointer) && old(pointer) + FRAME_HEAD_LENGTH <= |buf|
      ensures ok ==>
                && pointer == old(pointer) + FRAME_HEAD_LENGTH && medium == buf[old(pointer)]
                && key == buf[old(pointer) + 1] && timestamp == Get32(buf, old(pointer) + 2)
                && duration == Get32(buf, old(pointer) + 6)
    {
      var ok0, ok1, ok2, ok3;
      ok0, medium := Read8();
      if !ok0 { return false, 0, 0, 0, 0; }
      ok1, key := Read8();
      if !ok1 { return false, 0, 0, 0, 0; }
      ok2, timestamp := Read32();
      if !ok2 { return false, 0, 0, 0, 0; }
      ok3, duration := Read32();
      if !ok3 { return false, 0, 0, 0, 0; }
      ok := true;
    }

    /** One pass of the entry loop: the medium and key bytes, the two
        32-bit fields, then the payload whose length the offsets give; a
        chunk is emitted when the payload is not empty. A header read
        outside the packet throws (`ok` false) and emits nothing. */
    method ReadEntry(idx: seq<int>, i: int, tableStart: int) returns (ok: bool)
      requires 0 <= i < |idx|
      modifies this`pointer, this`out
      ensures ok <==> 0 <= old(pointer) && old(pointer) + FRAME_HEAD_LENGTH <= |buf|
      ensures ok ==> pointer == NextAt(old(pointer), idx, i, tableStart)
                     && out == old(out) + Chunks(EntryAt(buf, old(pointer), idx, i, tableStart, 1000))
      ensures !ok ==> out == old(out)
    {
      ghost var p := pointer;
      var okHead, medium, key, timestamp, duration := ReadEntryHead();
      if !okHead { return false; }
      var length := (if i == |idx| - 1 then tableStart - idx[i] else idx[i + 1] - idx[i]) - FRAME_HEAD_LENGTH;
      var data := ReadChunk(length);
      assert data == DataAt(buf, p, idx, i, tableStart);
      if |data| > 0 {
        var c := Chunk(timestamp * 1000, duration * 1000, if medium == 1 then Video else Audio, key == 1, data);
        assert c == HeadAt(buf, p, 1000, data);
        assert EntryAt(buf, p, idx, i, tableStart, 1000) == [c];
        assert Chunks([c]) == [ChunkOut(c)];
        out := out + [ChunkOut(c)];
      } else {
        assert EntryAt(buf, p, idx, i, tableStart, 1000) == [];
        assert old(out) + Chunks([]) == old(out);
      }
      ok := true;
    }

    /** The entry loop over the offsets `idx`; it ends early when an entry
        header falls outside the packet. */
    method WalkEntries(idx: seq<int>, tableStart: int) returns (ok: bool)
      requires pointer == MEDIA_HEAD_LENGTH
      modifies this`pointer, this`out
      ensures var w := WalkFrom(buf, MEDIA_HEAD_LENGTH, idx, 0, tableStart, 1000);
              out == old(out) + Chunks(w.chunks) && ok == w.completed
    {
      ghost var whole := WalkFrom(buf, MEDIA_HEAD_LENGTH, idx, 0, tableStart, 1000);
      ghost var emitted: seq<Chunk> := [];
      var i := 0;
      while i < |idx|
        invariant 0 <= i <= |idx|
        invariant out == old(out) + Chunks(emitted)
        invariant Prepend(emitted, WalkFrom(buf, pointer, idx, i, tableStart, 1000)) == whole
      {
        ghost var p := pointer;
        ghost var before := out;
        var okEntry := ReadEntry(idx, i, tableStart);
        if !okEntry {
          assert emitted + [] == emitted;
          return false;
        }
        ghost var e := EntryAt(buf, p, idx, i, tableStart, 1000);
        WalkStep(buf, p, pointer, idx, i, tableStart, 1000);
        PrependTwice(emitted, e, WalkFrom(buf, pointer, idx, i + 1, tableStart, 1000));
        ChunksAppend(emitted, e);
        emitted := emitted + e;
        i := i + 1;
      }
      assert emitted + [] == emitted;
      ok := true;
    }

    /** The table read and the entry walk, from the end of the header. */
    method FeedEntries(count: int) returns (completed: bool)
      requires pointer == MEDIA_HEAD_LENGTH && 0 <= count
      modifies this`pointer, this`out
      ensures var w := TableWalk(buf, count);
              out == old(out) + Chunks(w.chunks) && completed == w.completed
    {
      var tableStart := |buf| - count * 4;
      var savePointer := pointer;
      pointer := tableStart;
      var okTable, indexes := ReadOffsets(count);
      if !okTable {
        assert old(out) + [] == old(out);
        return false;
      }
      pointer := savePointer;
      completed := WalkEntries(indexes, tableStart);
    }

    /** The count byte and the media info reads; all succeed exactly when
        the header is whole. */
    method ReadHeadInfo() returns (ok: bool, count: int, fields: seq<Field>)
      requires pointer == 10
      modifies this`pointer
      ensures ok <==> |buf| >= MEDIA_HEAD_LENGTH
      ensures ok ==> count == buf[10] && fields == ReadInfo(buf) && pointer == MEDIA_HEAD_LENGTH
    {
      var okCount, c := Read8();
      if !okCount {
        return false, 0, [];
      }
      ok, fields := ReadMediaInfo();
      count := c;
    }

    /** `$emitUpdate(this.opts, fields, 'update')` on the unpacker's options. */
    method Publish(fields: seq<Field>)
      modifies this`opts, this`out
      ensures var r := EmitUpdate(old(opts), fields, "update");
              opts == r.0 && out == old(out) + Updates(r.1)
    {
      var update := EmitUpdate(opts, fields, "update");
      opts := update.0;
      out := out + Updates(update.1);
    }

    /** The part of `feed` after an accepted size check: the count byte and
        the media info, the options update, the table and the entries. */
    method FeedBody() returns (completed: bool)
      requires pointer == 10
      modifies this`pointer, this`out, this`opts
      ensures |buf| < MEDIA_HEAD_LENGTH ==> out == old(out) && opts == old(opts) && !completed
      ensures |buf| >= MEDIA_HEAD_LENGTH ==>
                var r := DecodeBody(old(opts), buf);
                out == old(out) + r.out && opts == r.opts && completed == r.completed
    {
      var ok, count, fields := ReadHeadInfo();
      if !ok {
        return false;
      }
      Publish(fields);
      ghost var published := out;
      completed := FeedEntries(count);
      ghost var w := TableWalk(buf, count);
      BodyOf(old(opts), buf, fields, w);
      ghost var u := Updates(EmitUpdate(old(opts), fields, "update").1);
      assert old(out) + u + Chunks(w.chunks) == old(out) + (u + Chunks(w.chunks));
    }

    /** The part of `feed` from the size field on. */
    method FeedSize() returns (completed: bool)
      requires pointer == 6
      modifies this`pointer, this`out, this`opts
      ensures var r := DecodeSize(old(opts), buf);
              out == old(out) + r.out && opts == r.opts && completed == r.completed
    {
      var okSize, txSize := Read32();
      if !okSize {
        assert old(out) + [] == old(out);
        return false;
      }
      if txSize != |buf| {
        out := out + [ErrorOut("mismatch length")];
        return true;
      }
      completed := FeedBody();
      if |buf| < MEDIA_HEAD_LENGTH {
        assert old(out) + [] == old(out);
      }
    }

    /** The part of `feed` from the version byte on. */
    method FeedVersion() returns (completed: bool)
      requires pointer == 4
      modifies this`pointer, this`out, this`opts
      ensures var r := DecodeVersion(old(opts), buf);
              out == old(out) + r.out && opts == r.opts && completed == r.completed
    {
      var okVersion, version := Read8();
      if !okVersion {
        assert old(out) + [] == old(out);
        return false;
      }
      var okType, packetType := Read8();
      if !okType {
        assert old(out) + [] == old(out);
        return false;
      }
      if version != PROTOCOL_VERSION as int {
        out := out + [ErrorOut("wrong packet format")];
        return true;
      }
      ghost var stop: seq<Out> := if packetType == TYPE_STOP then [StopOut] else [];
      if packetType == TYPE_STOP {
        out := out + [StopOut];
      } else {
        assert out == old(out) + stop;
      }
      ghost var mid := out;
      completed := FeedSize();
      assert out == old(out) + (stop + DecodeSize(old(opts), buf).out);
    }

    /** `feed(packet)`: emits the packet index, then reads on; a wrong
        version or a size field that disagrees with the packet's length is
        refused with an error, and a stop type is announced. Everything it
        emits is what `Decode` says, starting from the options it had. */
    method Feed(packet: seq<Byte>) returns (completed: bool)
      modifies this
      ensures buf == packet && packetIndex == old(packetIndex) + 1
      ensures var r := Decode(old(opts), packet);
              out == old(out) + r.out && opts == r.opts && completed == r.completed
    {
      buf := packet;
      pointer := 0;
      packetIndex := packetIndex + 1;
      var ok, index := Read32();
      if !ok {
        assert old(out) + [] == old(out);
        return false;
      }
      out := out + [IndexOut(index)];
      completed := FeedVersion();
      assert out == old(out) + ([IndexOut(index)] + DecodeVersion(old(opts), packet).out);
    }
  }
}
