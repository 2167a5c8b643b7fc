/** The RTMP relay client: it unpacks legacy Peercast packets, queues their
    chunks per medium, anchors playout time on the first chunk, releases
    queue heads to the encoder's video and audio pipes once they are two
    seconds behind the live edge, reads the encoder's statistics, and stops
    once. Time is a parameter: the monotonic clock in whole microseconds. */
module RtmpRelay {
  import opened Bytes
  import opened EntryWalk
  import opened WideEvent
  import opened PeercastUnpacking
  import opened Telemetry

  /** How far behind the live edge chunks are held, in microseconds. */
  const HOLD_BACK: int := 2_000_000

  /** The properties `stop` writes, in their order. */
  const STOP_FIELDS: seq<Field> := [("ready", Bool(false)), ("stopped", Bool(true))]

  /** JavaScript truthiness of a property value. */
  predicate TruthyValue(v: Value)
  {
    match v
    case Undefined => false
    case Bool(b) => b
    case Num(n) => n != 0
    case Str(s) => s != ""
  }

  // ---------------------------------------------------------------------
  // Queues

  /** The chunks of `cs` of one medium, in arrival order. */
  function Route(cs: seq<Chunk>, m: Medium): (r: seq<Chunk>)
    ensures |r| <= |cs|
    decreases |cs|
  {
    if cs == [] then []
    else Route(cs[..|cs| - 1], m) + (if cs[|cs| - 1].medium == m then [cs[|cs| - 1]] else [])
  }

  /** Chunks that arrive later queue behind those that arrived earlier. */
  lemma {:induction false} RouteAppend(a: seq<Chunk>, b: seq<Chunk>, m: Medium)
    ensures Route(a + b, m) == Route(a, m) + Route(b, m)
    decreases |b|
  {
    if b == [] {
      assert a + b == a;
    } else {
      var n := |b| - 1;
      assert (a + b)[..|a + b| - 1] == a + b[..n];
      RouteAppend(a, b[..n], m);
    }
  }

  /** A queue only holds chunks of its own medium. */
  lemma {:induction false} RouteMedium(cs: seq<Chunk>, m: Medium)
    ensures forall i :: 0 <= i < |Route(cs, m)| ==> Route(cs, m)[i].medium == m
    decreases |cs|
  {
    if cs != [] {
      RouteMedium(cs[..|cs| - 1], m);
    }
  }

  lemma RouteSnoc(p: seq<Chunk>, c: Chunk, m: Medium)
    ensures Route(p + [c], m) == Route(p, m) + (if c.medium == m then [c] else [])
  {
    var q := p + [c];
    assert q[..|q| - 1] == p && q[|q| - 1] == c;
  }

  lemma PartitionSnoc(p: seq<Chunk>, c: Chunk)
    requires multiset(Route(p, Video)) + multiset(Route(p, Audio)) == multiset(p)
    ensures multiset(Route(p + [c], Video)) + multiset(Route(p + [c], Audio)) == multiset(p + [c])
  {
    RouteSnoc(p, c, Video);
    RouteSnoc(p, c, Audio);
    assert multiset(p + [c]) == multiset(p) + multiset{c};
  }

  /** Every chunk goes to exactly one of the two queues. */
  lemma {:induction false} RoutePartition(cs: seq<Chunk>)
    ensures multiset(Route(cs, Video)) + multiset(Route(cs, Audio)) == multiset(cs)
    decreases |cs|
  {
    if cs != [] {
      var p, c := cs[..|cs| - 1], cs[|cs| - 1];
      assert cs == p + [c];
      RoutePartition(p);
      PartitionSnoc(p, c);
    }
  }

  // ---------------------------------------------------------------------
  // Timing anchor

  /** The `timing` object: the clock reading and the chunk timestamp playout
      is anchored on (a clock reading of 0 means not yet anchored), and how
      many delayed loop starts have been scheduled. */
  datatype Timing = Timing(startTime: int, startTimestamp: int, loopStarts: nat)

  /** What one queued chunk does to the anchor: while unanchored and not
      stopped, the clock reading and the chunk's timestamp become the anchor
      and a loop start is scheduled. */
  function AnchorStep(t: Timing, stopped: bool, now: int, c: Chunk): Timing
  {
    if t.startTime == 0 && !stopped then Timing(now, c.timestamp, t.loopStarts + 1) else t
  }

  /** The anchor after queueing `cs` one by one. */
  function Anchor(t: Timing, stopped: bool, now: int, cs: seq<Chunk>): Timing
    decreases |cs|
  {
    if cs == [] then t else AnchorStep(Anchor(t, stopped, now, cs[..|cs| - 1]), stopped, now, cs[|cs| - 1])
  }

  /** Once anchored, or once stopped, queueing chunks never moves the anchor. */
  lemma {:induction false} AnchorKept(t: Timing, stopped: bool, now: int, cs: seq<Chunk>)
    requires t.startTime != 0 || stopped
    ensures Anchor(t, stopped, now, cs) == t
    decreases |cs|
  {
    if cs != [] {
      AnchorKept(t, stopped, now, cs[..|cs| - 1]);
    }
  }

  /** Unanchored and running, the first chunk sets the anchor and schedules
      the single loop start; the chunks after it change nothing. */
  lemma {:induction false} AnchorFirst(t: Timing, stopped: bool, now: int, cs: seq<Chunk>)
    requires t.startTime == 0 && !stopped && now != 0 && cs != []
    ensures Anchor(t, stopped, now, cs) == Timing(now, cs[0].timestamp, t.loopStarts + 1)
    decreases |cs|
  {
    var n := |cs| - 1;
    if n > 0 {
      assert cs[..n][0] == cs[0];
      AnchorFirst(t, stopped, now, cs[..n]);
    } else {
      assert cs[..n] == [];
    }
  }

  /** A clock reading of exactly 0 does not count as an anchor: every chunk
      re-anchors and schedules another loop start, so the last one wins. */
  lemma {:induction false} AnchorAtZero(t: Timing, stopped: bool, cs: seq<Chunk>)
    requires t.startTime == 0 && !stopped && cs != []
    ensures Anchor(t, stopped, 0, cs) == Timing(0, cs[|cs| - 1].timestamp, t.loopStarts + |cs|)
    decreases |cs|
  {
    var n := |cs| - 1;
    if n > 0 {
      AnchorAtZero(t, stopped, cs[..n]);
    } else {
      assert cs[..n] == [];
    }
  }

  /** Queueing one more chunk of a prefix: it joins its own medium's queue
      and leaves the other unchanged. */
  lemma RouteStep(cs: seq<Chunk>, i: nat, m: Medium)
    requires i < |cs|
    ensures cs[i].medium == m ==> Route(cs[..i + 1], m) == Route(cs[..i], m) + [cs[i]]
    ensures cs[i].medium != m ==> Route(cs[..i + 1], m) == Route(cs[..i], m)
  {
    assert cs[..i + 1][..i] == cs[..i];
  }

  lemma AnchorPrefix(t: Timing, stopped: bool, now: int, cs: seq<Chunk>, i: nat)
    requires i < |cs|
    ensures Anchor(t, stopped, now, cs[..i + 1]) == AnchorStep(Anchor(t, stopped, now, cs[..i]), stopped, now, cs[i])
  {
    assert cs[..i + 1][..i] == cs[..i];
  }

  // ---------------------------------------------------------------------
  // Release

  /** The timestamp a chunk must not exceed to be released at clock reading
      `now`: the anchored timestamp plus the elapsed time, less the
      hold-back. */
  function Gate(t: Timing, now: int): int
  {
    t.startTimestamp + (now - t.startTime) - HOLD_BACK
  }

  /** One tick on one queue: the head leaves when its timestamp is at or
      below the gate. Returns what leaves and what stays. */
  function Release(stack: seq<Chunk>, gate: int): (r: (seq<Chunk>, seq<Chunk>))
    ensures r.0 + r.1 == stack && |r.0| <= 1
    ensures forall i :: 0 <= i < |r.0| ==> r.0[i].timestamp <= gate
    ensures r.0 == [] <==> (stack == [] || stack[0].timestamp > gate)
  {
    if stack != [] && stack[0].timestamp <= gate then ([stack[0]], stack[1..]) else ([], stack)
  }

  /** The payloads of released chunks, in order. */
  function Payloads(cs: seq<Chunk>): (r: seq<seq<Byte>>)
    ensures |r| == |cs|
  {
    if cs == [] then [] else [cs[0].data] + Payloads(cs[1..])
  }

  /** Ticks release each queue strictly in order: the chunks released by a
      run of ticks, followed by what is left, are the queue. */
  function Drain(stack: seq<Chunk>, gates: seq<int>): (r: (seq<Chunk>, seq<Chunk>))
    decreases |gates|
  {
    if gates == [] then ([], stack)
    else
      var first := Release(stack, gates[0]);
      var rest := Drain(first.1, gates[1..]);
      (first.0 + rest.0, rest.1)
  }

  lemma {:induction false} DrainInOrder(stack: seq<Chunk>, gates: seq<int>)
    ensures Drain(stack, gates).0 + Drain(stack, gates).1 == stack
    ensures |Drain(stack, gates).0| <= |gates|
    decreases |gates|
  {
    if gates != [] {
      var first := Release(stack, gates[0]);
      DrainInOrder(first.1, gates[1..]);
      var rest := Drain(first.1, gates[1..]);
      assert first.0 + rest.0 + rest.1 == first.0 + (rest.0 + rest.1);
    }
  }

  /** With the gate at or past every timestamp, as many ticks as chunks
      empty the queue. */
  lemma {:induction false} DrainAll(stack: seq<Chunk>, gates: seq<int>)
    requires |gates| >= |stack|
    requires forall i, j :: 0 <= i < |stack| && 0 <= j < |gates| ==> stack[i].timestamp <= gates[j]
    ensures Drain(stack, gates) == (stack, [])
    decreases |gates|
  {
    if gates != [] {
      if stack == [] {
        DrainAll(stack, gates[1..]);
      } else {
        var first := Release(stack, gates[0]);
        assert first == ([stack[0]], stack[1..]);
        forall i, j | 0 <= i < |stack[1..]| && 0 <= j < |gates[1..]|
          ensures stack[1..][i].timestamp <= gates[1..][j]
        {
          assert stack[1..][i] == stack[i + 1] && gates[1..][j] == gates[j + 1];
        }
        DrainAll(stack[1..], gates[1..]);
        assert [stack[0]] + stack[1..] == stack;
      }
    }
  }

  // ---------------------------------------------------------------------
  // Stopping

  /** What `stop` does to the client's properties and events: the first
      call sets `ready` false and `stopped` true, emitting each change;
      later calls change nothing. */
  function StopProps(o: Obj): (r: (Obj, seq<Emission>))
    ensures TruthyValue(Get(o, "stopped")) ==> r == (o, [])
    ensures !TruthyValue(Get(o, "stopped")) ==>
      r.0 == o["ready" := Bool(false)]["stopped" := Bool(true)] &&
      r.1 == (if Get(o, "ready") != Bool(false) then [Emission("ready", Val(Bool(false)))] else []) +
             [Emission("stopped", Val(Bool(true)))]
  {
    if TruthyValue(Get(o, "stopped")) then (o, [])
    else
      StopFieldsUpdate(o);
      var u := EmitUpdate(o, STOP_FIELDS, "");
      (u.0, u.1)
  }

  /** `$emitUpdate` of the two properties `stop` writes: both end up
      written, and each change is emitted, `ready` first. */
  lemma StopFieldsUpdate(o: Obj)
    ensures EmitUpdate(o, STOP_FIELDS, "").0 == o["ready" := Bool(false)]["stopped" := Bool(true)]
    ensures EmitUpdate(o, STOP_FIELDS, "").1 ==
      (if Get(o, "ready") != Bool(false) then [Emission("ready", Val(Bool(false)))] else []) +
      (if Get(o, "stopped") != Bool(true) then [Emission("stopped", Val(Bool(true)))] else [])
  {
    var rest := STOP_FIELDS[1..];
    assert STOP_FIELDS[0] == ("ready", Bool(false)) && rest == [("stopped", Bool(true))];
    UpdateOne(o, "ready", Bool(false));
    var o1 := EmitUpdate(o, [("ready", Bool(false))], "").0;
    assert o1 == o["ready" := Bool(false)];
    UpdateOne(o1, "stopped", Bool(true));
    assert EmitUpdate(o1, rest, "").0 == o1["stopped" := Bool(true)];
    var e1: seq<Emission> := if Get(o, "ready") != Bool(false) then [Emission("ready", Val(Bool(false)))] else [];
    assert UpdateFrom(o, STOP_FIELDS) == (UpdateFrom(o1, rest).0, e1 + UpdateFrom(o1, rest).1);
  }

  /** Stopping twice is stopping once. */
  lemma StopPropsIdempotent(o: Obj)
    ensures StopProps(StopProps(o).0) == (StopProps(o).0, [])
  {
    if !TruthyValue(Get(o, "stopped")) {
      assert TruthyValue(Get(StopProps(o).0, "stopped"));
    }
  }

  /** What a failure does: `$emitUpdate` of the error message, then `stop`.
      The message is recorded and the client ends up stopped. */
  function FailProps(o: Obj, msg: string): (r: (Obj, seq<Emission>))
    ensures r.0 == if TruthyValue(Get(o, "stopped")) then o["error" := Str(msg)]
                   else o["error" := Str(msg)]["ready" := Bool(false)]["stopped" := Bool(true)]
  {
    UpdateOne(o, "error", Str(msg));
    var u := EmitUpdate(o, [("error", Str(msg))], "");
    assert u.0 == o["error" := Str(msg)];
    assert Get(u.0, "stopped") == Get(o, "stopped");
    var s := StopProps(u.0);
    (s.0, u.1 + s.1)
  }

  // ---------------------------------------------------------------------
  // The client object

  class RtmpClient {
    /** The legacy packet decoder. */
    const unpacker: PeercastUnpacker
    /** `ready`, `stopped` and `error`, updated through `$emitUpdate`. */
    var props: Obj
    /** Every event emitted, in order. */
    var events: seq<Emission>
    /** The per-medium queues. */
    var video: seq<Chunk>
    var audio: seq<Chunk>
    var timing: Timing
    /** Whether the playout interval is running. */
    var looping: bool
    /** Payloads written to the encoder's video pipe, and the Opus payloads
        whose decoded samples go to its audio pipe. */
    var videoOut: seq<seq<Byte>>
    var audioOut: seq<seq<Byte>>
    /** Ready timers scheduled and not yet fired. */
    var readyTimers: nat
    /** Whether the pipes were destroyed and the encoder's kill scheduled. */
    var tornDown: bool

    function Stopped(): bool
      reads this
    {
      TruthyValue(Get(props, "stopped"))
    }

    function Ready(): bool
      reads this
    {
      TruthyValue(Get(props, "ready"))
    }

    /** A stopped client is never ready. */
    predicate Valid()
      reads this
    {
      Stopped() ==> !Ready()
    }

    constructor ()
      ensures props == map["ready" := Bool(false), "stopped" := Bool(false), "error" := Bool(false)]
      ensures events == [] && video == [] && audio == [] && timing == Timing(0, 0, 0)
      ensures !looping && videoOut == [] && audioOut == [] && readyTimers == 0 && !tornDown
      ensures fresh(unpacker) && Valid()
    {
      unpacker := new PeercastUnpacker();
      props := map["ready" := Bool(false), "stopped" := Bool(false), "error" := Bool(false)];
      events := [];
      video := [];
      audio := [];
      timing := Timing(0, 0, 0);
      looping := false;
      videoOut := [];
      audioOut := [];
      readyTimers := 0;
      tornDown := false;
    }

    /** `feed(msg)` at clock reading `now`: the packet is unpacked; if that
        throws nothing is queued, otherwise each chunk joins the end of its
        medium's queue and may anchor the timing. */
    method Feed(msg: seq<Byte>, now: int) returns (threw: bool)
      modifies this, unpacker
      ensures threw == Unpack(msg).Threw?
      ensures var cs := if threw then [] else Unpack(msg).u.chunks;
        video == old(video) + Route(cs, Video) && audio == old(audio) + Route(cs, Audio) &&
        timing == Anchor(old(timing), old(Stopped()), now, cs)
      ensures props == old(props) && events == old(events) && looping == old(looping)
      ensures videoOut == old(videoOut) && audioOut == old(audioOut)
      ensures readyTimers == old(readyTimers) && tornDown == old(tornDown)
    {
      var r := unpacker.UnpackPacket(msg);
      if r.Threw? {
        return true;
      }
      threw := false;
      Queue(r.u.chunks, now);
    }

    /** The `forEach` of `feed` over the unpacked chunks. */
    method Queue(cs: seq<Chunk>, now: int)
      modifies this`video, this`audio, this`timing
      ensures video == old(video) + Route(cs, Video) && audio == old(audio) + Route(cs, Audio)
      ensures timing == Anchor(old(timing), Stopped(), now, cs)
    {
      var stopped := Stopped();
      var v, a, t := video, audio, timing;
      ghost var v0, a0, t0 := v, a, t;
      var i := 0;
      while i < |cs|
        invariant 0 <= i <= |cs|
        invariant v == v0 + Route(cs[..i], Video)
        invariant a == a0 + Route(cs[..i], Audio)
        invariant t == Anchor(t0, stopped, now, cs[..i])
      {
        var c := cs[i];
        RouteStep(cs, i, Video);
        RouteStep(cs, i, Audio);
        AnchorPrefix(t0, stopped, now, cs, i);
        if c.medium == Video {
          assert v + [c] == v0 + Route(cs[..i + 1], Video);
          v := v + [c];
        } else {
          assert a + [c] == a0 + Route(cs[..i + 1], Audio);
          a := a + [c];
        }
        if t.startTime == 0 && !stopped {
          t := Timing(now, c.timestamp, t.loopStarts + 1);
        }
        i := i + 1;
      }
      assert cs[..|cs|] == cs;
      video, audio, timing := v, a, t;
    }

    /** A scheduled `startLoop` fires: any running interval is replaced by
        a new one. */
    method StartLoop()
      requires timing.loopStarts > 0
      modifies this`timing, this`looping
      ensures looping
      ensures timing == old(timing).(loopStarts := old(timing).loopStarts - 1)
    {
      timing := timing.(loopStarts := timing.loopStarts - 1);
      looping := true;
    }

    /** One tick of the playout interval at clock reading `now`: unless
        stopped, each queue, video first, releases its head when it is at or
        below the gate; released video payloads go to the video pipe and
        released audio to the decoder feeding the audio pipe. */
    method Tick(now: int) returns (rv: seq<Chunk>, ra: seq<Chunk>)
      modifies this`video, this`audio, this`videoOut, this`audioOut
      ensures old(Stopped()) ==> rv == [] && ra == [] && video == old(video) && audio == old(audio)
      ensures !old(Stopped()) ==>
        (rv, video) == Release(old(video), Gate(timing, now)) &&
        (ra, audio) == Release(old(audio), Gate(timing, now))
      ensures old(video) == rv + video && old(audio) == ra + audio
      ensures videoOut == old(videoOut) + Payloads(rv) && audioOut == old(audioOut) + Payloads(ra)
    {
      rv, ra := [], [];
      if !Stopped() {
        var gate := timing.startTimestamp + (now - timing.startTime) - HOLD_BACK;
        if |video| > 0 && video[0].timestamp <= gate {
          rv := [video[0]];
          assert Payloads(rv) == [video[0].data];
          videoOut := videoOut + [video[0].data];
          video := video[1..];
        }
        if |audio| > 0 && audio[0].timestamp <= gate {
          ra := [audio[0]];
          assert Payloads(ra) == [audio[0].data];
          audioOut := audioOut + [audio[0].data];
          audio := audio[1..];
        }
      }
    }

    /** `$emitUpdate(this, fields)` with no aggregate event. */
    method Update(fs: seq<Field>) returns (any: bool)
      modifies this`props, this`events
      ensures props == EmitUpdate(old(props), fs, "").0
      ensures events == old(events) + EmitUpdate(old(props), fs, "").1
      ensures any == EmitUpdate(old(props), fs, "").2
    {
      var u := EmitUpdate(props, fs, "");
      props := u.0;
      events := events + u.1;
      any := u.2;
    }

    /** `stop()`: the interval is cleared; the first call sets `ready`
        false and `stopped` true and tears the pipes down, later calls do
        nothing more. */
    method Stop()
      requires Valid()
      modifies this`props, this`events, this`looping, this`tornDown
      ensures !looping && Stopped() && !Ready() && Valid()
      ensures props == StopProps(old(props)).0 && events == old(events) + StopProps(old(props)).1
      ensures tornDown == (old(tornDown) || !old(Stopped()))
    {
      looping := false;
      if !Stopped() {
        var _ := Update(STOP_FIELDS);
        tornDown := true;
      }
    }

    /** A failure (an I/O error reported by the encoder, an error on its
        input pipe, or its exit): the error message is published, then the
        client stops. */
    method Fail(msg: string)
      requires Valid() && msg != ""
      modifies this`props, this`events, this`looping, this`tornDown
      ensures !looping && Stopped() && !Ready() && Valid()
      ensures Get(props, "error") == Str(msg)
      ensures props == FailProps(old(props), msg).0 && events == old(events) + FailProps(old(props), msg).1
      ensures tornDown == (old(tornDown) || !old(Stopped()))
    {
      ghost var e0 := events;
      ghost var u := EmitUpdate(props, [("error", Str(msg))], "");
      UpdateOne(props, "error", Str(msg));
      var _ := Update([("error", Str(msg))]);
      ghost var s := StopProps(props);
      Stop();
      assert e0 + u.1 + s.1 == e0 + (u.1 + s.1);
    }

    /** A ready timer fires: unless stopped by then, the client becomes
        ready. */
    method FireReadyTimer()
      requires readyTimers > 0 && Valid()
      modifies this`readyTimers, this`props, this`events
      ensures readyTimers == old(readyTimers) - 1 && Valid()
      ensures old(Stopped()) ==> props == old(props) && events == old(events)
      ensures !old(Stopped()) ==> props == EmitUpdate(old(props), [("ready", Bool(true))], "").0 && Ready() && !Stopped()
      ensures !old(Stopped()) ==> events == old(events) + EmitUpdate(old(props), [("ready", Bool(true))], "").1
    {
      readyTimers := readyTimers - 1;
      if !Stopped() {
        UpdateOne(props, "ready", Bool(true));
        var _ := Update([("ready", Bool(true))]);
      }
    }

    /** `parseStats(resp)` given what the patterns find in `resp`: the
        statistics matches, whether a stream line is present, and whether
        the I/O error phrase is. Nothing happens once stopped. Otherwise a
        ready timer is scheduled unless already ready, and the first of
        these applies: statistics publish an `update` status line headed
        `live`; a stream line makes the client ready; the I/O error phrase
        fails it. */
    method ParseStats(matches: seq<FrameMatch>, streamSeen: bool, ioError: bool)
      requires Valid()
      modifies this`props, this`events, this`looping, this`tornDown, this`readyTimers
      ensures Valid()
      ensures old(Stopped()) ==>
        props == old(props) && events == old(events) && readyTimers == old(readyTimers) &&
        looping == old(looping) && tornDown == old(tornDown)
      ensures !old(Stopped()) ==> readyTimers == old(readyTimers) + (if old(Ready()) then 0 else 1)
      ensures !old(Stopped()) && |matches| > 0 ==>
        props == old(props) && events == old(events) + [Emission("update", Val(Str(StatusLine("live", matches[0]))))] &&
        looping == old(looping) && tornDown == old(tornDown)
      ensures !old(Stopped()) && |matches| == 0 && streamSeen && !old(Ready()) ==>
        props == old(props)["ready" := Bool(true)] && events == old(events) + [Emission("ready", Val(Bool(true)))] &&
        looping == old(looping) && tornDown == old(tornDown)
      ensures !old(Stopped()) && |matches| == 0 && !(streamSeen && !old(Ready())) && ioError ==>
        props == FailProps(old(props), "stream error").0 && events == old(events) + FailProps(old(props), "stream error").1 &&
        Stopped() && tornDown && !looping
      ensures !old(Stopped()) && |matches| == 0 && !(streamSeen && !old(Ready())) && !ioError ==>
        props == old(props) && events == old(events) && looping == old(looping) && tornDown == old(tornDown)
    {
      if Stopped() {
        return;
      }
      if !Ready() {
        readyTimers := readyTimers + 1;
      }
      if |matches| > 0 {
        events := events + [Emission("update", Val(Str(StatusLine("live", matches[0]))))];
      } else if streamSeen && !Ready() {
        UpdateOne(props, "ready", Bool(true));
        var _ := Update([("ready", Bool(true))]);
      } else if ioError {
        Fail("stream error");
      }
    }
  }
}
