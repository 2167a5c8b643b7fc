/** The decoded media unit, and the walk over chunk entries that both
    decoders (NoMux and the legacy Peercast layout) perform: entries are read
    back to back from the current read position, and each entry's payload
    length is derived from the trailing table of entry offsets. */
module EntryWalk {
  import opened Bytes

  const FRAME_HEAD_LENGTH: int := 10

  datatype Medium = Video | Audio

  /** One decoded chunk: timestamp and duration as the decoder scales them,
      medium, key flag and the payload bytes. */
  datatype Chunk = Chunk(timestamp: int, duration: int, medium: Medium, isKey: bool, data: seq<Byte>)

  /** Outcome of the walk: the chunks produced (in entry order) before the walk
      ended, and whether it ended normally rather than by a RangeError from a
      read past either end of the buffer. */
  datatype Walked = Walked(chunks: seq<Chunk>, completed: bool)

  function Prepend(cs: seq<Chunk>, w: Walked): Walked
  {
    Walked(cs + w.chunks, w.completed)
  }

  /** Chunks prepended in two steps are prepended once. */
  lemma PrependTwice(a: seq<Chunk>, b: seq<Chunk>, w: Walked)
    ensures Prepend(a, Prepend(b, w)) == Prepend(a + b, w)
  {
    assert a + (b + w.chunks) == a + b + w.chunks;
  }

  /** Payload length of entry i: the next entry's offset, or the start of the
      offset table for the last entry, minus this entry's offset and header. */
  function EntryLength(idx: seq<int>, i: nat, tableStart: int): int
    requires i < |idx|
  {
    (if i == |idx| - 1 then tableStart else idx[i + 1]) - idx[i] - FRAME_HEAD_LENGTH
  }

  /** The entry header at p: medium byte (1 = video), key byte (1 = key),
      timestamp field scaled by 1000, duration field scaled by durScale. */
  function HeadAt(buf: seq<Byte>, p: int, durScale: int, data: seq<Byte>): Chunk
    requires 0 <= p && p + FRAME_HEAD_LENGTH <= |buf|
  {
    Chunk(Get32(buf, p + 2) * 1000, Get32(buf, p + 6) * durScale,
          if buf[p] == 1 then Video else Audio, buf[p + 1] == 1, data)
  }

  /** The payload of entry i read at p: `length` bytes after its header,
      sliced with ArrayBuffer.slice semantics (so a negative length gives
      nothing). */
  function DataAt(buf: seq<Byte>, p: int, idx: seq<int>, i: nat, tableStart: int): seq<Byte>
    requires i < |idx|
  {
    JsSlice(buf, p + FRAME_HEAD_LENGTH, p + FRAME_HEAD_LENGTH + EntryLength(idx, i, tableStart))
  }

  /** The chunk entry i contributes when read at p: none when its payload
      is empty. */
  function EntryAt(buf: seq<Byte>, p: int, idx: seq<int>, i: nat, tableStart: int, durScale: int): (r: seq<Chunk>)
    requires 0 <= p && p + FRAME_HEAD_LENGTH <= |buf| && i < |idx|
    ensures |r| <= 1
  {
    var data := DataAt(buf, p, idx, i, tableStart);
    if |data| > 0 then [HeadAt(buf, p, durScale, data)] else []
  }

  /** The read position after entry i: its header and its derived length
      past p, even when that length is negative. */
  function NextAt(p: int, idx: seq<int>, i: nat, tableStart: int): int
    requires i < |idx|
  {
    p + FRAME_HEAD_LENGTH + EntryLength(idx, i, tableStart)
  }

  /** Reads entries i.. starting at read position p. The walk ends normally
      after the last entry, and by a RangeError when a header would be read
      outside the buffer. */
  function WalkFrom(buf: seq<Byte>, p: int, idx: seq<int>, i: nat, tableStart: int, durScale: int): (r: Walked)
    requires i <= |idx|
    ensures |r.chunks| <= |idx| - i
    decreases |idx| - i
  {
    if i == |idx| then Walked([], true)
    else if p < 0 || p + FRAME_HEAD_LENGTH > |buf| then Walked([], false)
    else Prepend(EntryAt(buf, p, idx, i, tableStart, durScale),
                 WalkFrom(buf, NextAt(p, idx, i, tableStart), idx, i + 1, tableStart, durScale))
  }

  /** One step of the walk, as the decoders' loops take it. */
  lemma WalkStep(buf: seq<Byte>, p: int, q: int, idx: seq<int>, i: nat, tableStart: int, durScale: int)
    requires i < |idx| && 0 <= p && p + FRAME_HEAD_LENGTH <= |buf| && q == NextAt(p, idx, i, tableStart)
    ensures WalkFrom(buf, p, idx, i, tableStart, durScale)
            == Prepend(EntryAt(buf, p, idx, i, tableStart, durScale), WalkFrom(buf, q, idx, i + 1, tableStart, durScale))
  {
  }

  /** Every chunk the walk produces has a non-empty payload. */
  lemma {:induction false} WalkNonEmpty(buf: seq<Byte>, p: int, idx: seq<int>, i: nat, tableStart: int, durScale: int)
    requires i <= |idx|
    ensures forall k :: 0 <= k < |WalkFrom(buf, p, idx, i, tableStart, durScale).chunks| ==>
                          |WalkFrom(buf, p, idx, i, tableStart, durScale).chunks[k].data| > 0
    decreases |idx| - i
  {
    if i < |idx| && 0 <= p && p + FRAME_HEAD_LENGTH <= |buf| {
      var q := NextAt(p, idx, i, tableStart);
      WalkNonEmpty(buf, q, idx, i + 1, tableStart, durScale);
    }
  }

  // ---------------------------------------------------------------------
  // The layout written by the packer

  /** An encoded audio or video chunk as handed to the packer: medium, key
      flag, timestamp and duration in microseconds, and the payload. */
  datatype Frame = Frame(isVideo: bool, isKey: bool, timestamp: int, duration: int, payload: seq<Byte>)

  /** One entry: medium byte, key byte, the timestamp in whole milliseconds
      (floored), the duration as given, then the payload. */
  function EntryBytes(f: Frame): (r: seq<Byte>)
    ensures |r| == FRAME_HEAD_LENGTH + |f.payload|
  {
    [if f.isVideo then 1 else 0] + [if f.isKey then 1 else 0]
    + U32(f.timestamp / 1000) + U32(f.duration) + f.payload
  }

  /** Entries laid out back to back. */
  function Entries(fs: seq<Frame>): (r: seq<Byte>)
    ensures |fs| == 0 ==> r == []
    decreases |fs|
  {
    if fs == [] then [] else EntryBytes(fs[0]) + Entries(fs[1..])
  }

  /** The offsets at which the entries of `fs` start when laid out back to
      back from `base`. */
  function Offsets(base: int, fs: seq<Frame>): (r: seq<int>)
    ensures |r| == |fs|
    ensures |fs| > 0 ==> r[0] == base
    decreases |fs|
  {
    if fs == [] then [] else [base] + Offsets(base + |EntryBytes(fs[0])|, fs[1..])
  }

  /** The trailing offset table: one 32-bit field per entry offset. */
  function Table(idx: seq<int>): (r: seq<Byte>)
    ensures |r| == 4 * |idx|
    decreases |idx|
  {
    if idx == [] then [] else U32(idx[0]) + Table(idx[1..])
  }

  /** What a decoder makes of one entry: nothing for an empty payload,
      otherwise a chunk with the timestamp field read back and scaled by 1000
      and the duration field read back and scaled by durScale. */
  function ExpectedOne(f: Frame, durScale: int): (r: seq<Chunk>)
    ensures |r| <= 1
    ensures |r| == 1 <==> |f.payload| > 0
  {
    if |f.payload| > 0
    then [Chunk((f.timestamp / 1000) % TWO32 * 1000, f.duration % TWO32 * durScale,
                if f.isVideo then Video else Audio, f.isKey, f.payload)]
    else []
  }

  /** What a decoder makes of the entries of `fs`, in entry order. */
  function Expected(fs: seq<Frame>, durScale: int): (r: seq<Chunk>)
    ensures |r| <= |fs|
    decreases |fs|
  {
    if fs == [] then [] else ExpectedOne(fs[0], durScale) + Expected(fs[1..], durScale)
  }

  lemma EntriesCons(fs: seq<Frame>)
    requires fs != []
    ensures Entries(fs) == EntryBytes(fs[0]) + Entries(fs[1..])
    ensures |Entries(fs)| == |EntryBytes(fs[0])| + |Entries(fs[1..])|
  {
  }

  /** Appending a frame appends its entry. */
  lemma {:induction false} EntriesSnoc(fs: seq<Frame>, f: Frame)
    ensures Entries(fs + [f]) == Entries(fs) + EntryBytes(f)
    decreases |fs|
  {
    if fs == [] {
      assert [] + [f] == [f];
      assert [f][1..] == [];
    } else {
      assert (fs + [f])[0] == fs[0] && (fs + [f])[1..] == fs[1..] + [f];
      EntriesSnoc(fs[1..], f);
    }
  }

  /** Appending a frame appends its offset, which is where the entries so far end. */
  lemma {:induction false} OffsetsSnoc(base: int, fs: seq<Frame>, f: Frame)
    ensures Offsets(base, fs + [f]) == Offsets(base, fs) + [base + |Entries(fs)|]
    decreases |fs|
  {
    if fs == [] {
      assert [] + [f] == [f];
      assert [f][1..] == [];
    } else {
      assert (fs + [f])[0] == fs[0] && (fs + [f])[1..] == fs[1..] + [f];
      OffsetsSnoc(base + |EntryBytes(fs[0])|, fs[1..], f);
      EntriesCons(fs);
    }
  }

  /** Appending an offset appends its field to the table. */
  lemma {:induction false} TableSnoc(idx: seq<int>, v: int)
    ensures Table(idx + [v]) == Table(idx) + U32(v)
    decreases |idx|
  {
    if idx == [] {
      assert [] + [v] == [v];
      assert [v][1..] == [];
    } else {
      assert (idx + [v])[0] == idx[0] && (idx + [v])[1..] == idx[1..] + [v];
      TableSnoc(idx[1..], v);
    }
  }

  /** The decoders' table loop: `n` 32-bit fields read from `at` on. */
  function ReadTable(buf: seq<Byte>, at: int, n: nat): (r: seq<int>)
    requires 0 <= at && at + 4 * n <= |buf|
    ensures |r| == n
    decreases n
  {
    if n == 0 then [] else [Get32(buf, at)] + ReadTable(buf, at + 4, n - 1)
  }

  /** Reading the table loop one field further. */
  lemma {:induction false} ReadTableSnoc(buf: seq<Byte>, at: int, n: nat)
    requires 0 <= at && at + 4 * (n + 1) <= |buf|
    ensures ReadTable(buf, at, n + 1) == ReadTable(buf, at, n) + [Get32(buf, at + 4 * n)]
    decreases n
  {
    if n > 0 {
      ReadTableSnoc(buf, at + 4, n - 1);
    }
  }

  /** A 32-bit field read from the second part of a concatenation. */
  lemma Get32Right(a: seq<Byte>, b: seq<Byte>, at: int)
    requires |a| <= at && at + 4 <= |a| + |b|
    ensures Get32(a + b, at) == Get32(b, at - |a|)
  {
  }

  /** A 32-bit field read from the first part of a concatenation. */
  lemma Get32Left(a: seq<Byte>, b: seq<Byte>, at: int)
    requires 0 <= at && at + 4 <= |a|
    ensures Get32(a + b, at) == Get32(a, at)
  {
  }

  /** Reading back a table that ends the buffer yields its offsets modulo
      2^32. */
  lemma {:induction false} TableRoundTrip(buf: seq<Byte>, pre: seq<Byte>, at: int, idx: seq<int>)
    requires buf == pre + Table(idx) && at == |pre|
    ensures ReadTable(buf, at, |idx|) == Mod32All(idx)
    decreases |idx|
  {
    if idx != [] {
      var u := U32(idx[0]);
      var rest := Table(idx[1..]);
      assert Table(idx) == u + rest;
      assert buf == (pre + u) + rest;
      Get32Right(pre, u + rest, at);
      Get32Left(u, rest, 0);
      U32RoundTrip(idx[0]);
      TableRoundTrip(buf, pre + u, at + 4, idx[1..]);
    }
  }

  /** Every offset reduced modulo 2^32, as a 32-bit field holds it. */
  function Mod32All(idx: seq<int>): (r: seq<int>)
    ensures |r| == |idx|
    ensures forall k :: 0 <= k < |idx| && 0 <= idx[k] < TWO32 ==> r[k] == idx[k]
    decreases |idx|
  {
    if idx == [] then [] else [idx[0] % TWO32] + Mod32All(idx[1..])
  }

  /** The header fields of an entry read back from a buffer holding it. */
  lemma HeadRead(buf: seq<Byte>, p: int, f: Frame, durScale: int)
    requires 0 <= p && p + |EntryBytes(f)| <= |buf| && buf[p..p + |EntryBytes(f)|] == EntryBytes(f)
    ensures HeadAt(buf, p, durScale, f.payload)
            == Chunk((f.timestamp / 1000) % TWO32 * 1000, f.duration % TWO32 * durScale,
                     if f.isVideo then Video else Audio, f.isKey, f.payload)
  {
    var e := EntryBytes(f);
    var t := buf[p..p + |e|];
    var h1: seq<Byte>, h2: seq<Byte> := [if f.isVideo then 1 else 0], [if f.isKey then 1 else 0];
    var ts, du := U32(f.timestamp / 1000), U32(f.duration);
    assert e == h1 + h2 + ts + du + f.payload;
    assert e[2..6] == ts && e[6..10] == du;
    assert buf[p] == t[0] == e[0] && buf[p + 1] == t[1] == e[1];
    SliceWithin(buf, p, p + |e|, e, 2, 6, ts);
    SliceWithin(buf, p, p + |e|, e, 6, 10, du);
    Get32Within(buf, p + 2, U32(f.timestamp / 1000));
    Get32Within(buf, p + 6, U32(f.duration));
    U32RoundTrip(f.timestamp / 1000);
    U32RoundTrip(f.duration);
  }

  /** Walking one entry laid out at the read position p, whose length the
      next offset (or the table start) determines; the walk goes on at q. */
  lemma WalkEntry(buf: seq<Byte>, p: int, q: int, idx: seq<int>, i: nat, ts: int, f: Frame, durScale: int)
    requires 0 <= p && i < |idx| && idx[i] == p && q == p + |EntryBytes(f)|
    requires (if i == |idx| - 1 then ts else idx[i + 1]) == q
    requires q <= |buf| && buf[p..q] == EntryBytes(f)
    ensures WalkFrom(buf, p, idx, i, ts, durScale) == Prepend(ExpectedOne(f, durScale), WalkFrom(buf, q, idx, i + 1, ts, durScale))
  {
    var e := EntryBytes(f);
    assert NextAt(p, idx, i, ts) == q;
    assert e[FRAME_HEAD_LENGTH..|e|] == f.payload;
    SliceWithin(buf, p, q, e, FRAME_HEAD_LENGTH, |e|, f.payload);
    assert DataAt(buf, p, idx, i, ts) == f.payload;
    HeadRead(buf, p, f, durScale);
    WalkStep(buf, p, q, idx, i, ts, durScale);
  }

  /** Walking entries laid out back to back from p, with lengths derived
      from their own offsets and the table start ts right after the last
      entry, yields exactly the expected chunks and ends normally. */
  lemma {:induction false} WalkRoundTrip(buf: seq<Byte>, p: int, ts: int, idx: seq<int>, i: nat, fs: seq<Frame>, durScale: int)
    requires 0 <= p && i <= |idx| && |fs| == |idx| - i && idx[i..] == Offsets(p, fs)
    requires ts == p + |Entries(fs)| && ts <= |buf| && buf[p..ts] == Entries(fs)
    ensures WalkFrom(buf, p, idx, i, ts, durScale) == Walked(Expected(fs, durScale), true)
    decreases |fs|
  {
    if fs != [] {
      var f := fs[0];
      var e := EntryBytes(f);
      var p' := p + |e|;
      assert ts == p' + |Entries(fs[1..])| && Entries(fs) == e + Entries(fs[1..]) by {
        EntriesCons(fs);
      }
      assert idx[i] == p && idx[i + 1..] == Offsets(p', fs[1..])
             && (if i == |idx| - 1 then ts else idx[i + 1]) == p' by {
        assert idx[i] == idx[i..][0];
        assert idx[i + 1..] == idx[i..][1..];
        if i < |idx| - 1 {
          assert idx[i + 1] == idx[i + 1..][0];
        }
      }
      assert buf[p..p'] == e && buf[p'..ts] == Entries(fs[1..]) by {
        var t := buf[p..ts];
        assert t[0..|e|] == e && t[|e|..|t|] == Entries(fs[1..]);
        SliceWithin(buf, p, ts, t, 0, |e|, e);
        SliceWithin(buf, p, ts, t, |e|, |t|, Entries(fs[1..]));
      }
      WalkEntry(buf, p, p', idx, i, ts, f, durScale);
      WalkRoundTrip(buf, p', ts, idx, i + 1, fs[1..], durScale);
      assert Expected(fs, durScale) == ExpectedOne(f, durScale) + Expected(fs[1..], durScale);
    }
  }
}
