/** The encoder supervisor of the WebSocket ingest path: it forwards
    segments to the encoder, keeps a data deadline, classifies the
    encoder's diagnostic output, tracks a state word (`empty`, `live`,
    `stalled`, `stopped`) and stops once. Time is a parameter: the
    monotonic clock in whole milliseconds. */
module FfmpegSupervisor {
  import opened Bytes
  import opened WideEvent
  import opened Params
  import opened Telemetry

  /** How long the supervisor waits for data before giving up, in ms. */
  const DATA_TIMEOUT: int := 7000

  const STOPPED: Value := Str("stopped")

  /** What `parseStats` returns: nothing (the deadline had passed), `false`
      (nothing recognised), `['update', line]` or `['error', message]`. */
  datatype StatsResult = Nothing | NoMatch | Update(line: string) | Error(msg: string)

  /** The state word for a statistics line reporting `frame` frames. */
  function StateFor(frame: int, lastFrameCount: int): string
  {
    if frame > lastFrameCount then "live" else "stalled"
  }

  /** The result of `parseStats` for diagnostic text in which the patterns
      find `matches` and, or not, the I/O error phrase. */
  function StatsOf(timedOut: bool, matches: seq<FrameMatch>, ioError: bool, lastFrameCount: int): StatsResult
  {
    if timedOut then Nothing
    else if |matches| > 0 then Update(StatusLine(StateFor(matches[0].frame, lastFrameCount), matches[0]))
    else if ioError then Error("stream error")
    else NoMatch
  }

  /** The deadline comes first, statistics next, the error phrase last. */
  lemma StatsPrecedence(timedOut: bool, matches: seq<FrameMatch>, ioError: bool, last: int)
    ensures StatsOf(timedOut, matches, ioError, last).Nothing? <==> timedOut
    ensures StatsOf(timedOut, matches, ioError, last).Update? <==> !timedOut && |matches| > 0
    ensures StatsOf(timedOut, matches, ioError, last).Error? <==> !timedOut && |matches| == 0 && ioError
    ensures StatsOf(timedOut, matches, ioError, last).NoMatch? <==> !timedOut && |matches| == 0 && !ioError
    ensures StatsOf(timedOut, matches, ioError, last).Error? ==> StatsOf(timedOut, matches, ioError, last).msg == "stream error"
  {
  }

  /** With the frame count of reference left at 0, an update reads back as
      `live` exactly when the encoder reports a positive frame count, and
      otherwise as `stalled`; the frame count reads back too. */
  lemma LiveIffFrames(matches: seq<FrameMatch>, ioError: bool)
    requires |matches| > 0
    requires Avoids(matches[0].fps, ',') && Avoids(matches[0].bitrate, ',') && Avoids(matches[0].speed, ',')
    ensures var r := StatsOf(false, matches, ioError, 0);
      r.Update? &&
      var f := Split(r.line, ',');
      |f| == 7 && (f[0] == "live" <==> matches[0].frame > 0) && (f[0] == "stalled" <==> matches[0].frame == 0) &&
      IsDigits(f[1]) && ParseNat(f[1]) == matches[0].frame
  {
    var m := matches[0];
    var head := StateFor(m.frame, 0);
    assert Avoids(head, ',');
    StatusRoundTrip(head, m);
  }

  /** The properties `stop` writes. */
  const STOP_FIELDS: seq<Field> := [("state", STOPPED)]

  /** `$emitUpdate` of the single `state` property: it reports a change
      exactly when the state was not yet `stopped`. */
  lemma StopUpdate(o: Obj)
    ensures EmitUpdate(o, STOP_FIELDS, "") ==
      if Get(o, "state") != STOPPED then (o["state" := STOPPED], [Emission("state", Val(STOPPED))], true)
      else (o, [], false)
  {
    assert STOP_FIELDS[0] == ("state", STOPPED) && STOP_FIELDS[1..] == [];
    var o1 := if Get(o, "state") != STOPPED then o["state" := STOPPED] else o;
    assert UpdateFrom(o1, STOP_FIELDS[1..]) == (o1, []);
    var es: seq<Emission> := if Get(o, "state") != STOPPED then [Emission("state", Val(STOPPED))] else [];
    assert UpdateFrom(o, STOP_FIELDS) == (o1, es + []);
    assert es + [] == es;
  }

  /** After the exit handler has set the state, `stop` changes nothing,
      emits nothing and reports that nothing changed. */
  lemma StopAfterExit(o: Obj)
    ensures EmitUpdate(o["state" := STOPPED], STOP_FIELDS, "") == (o["state" := STOPPED], [], false)
  {
    StopUpdate(o["state" := STOPPED]);
  }

  class Ffmpeg {
    /** Never assigned after construction. */
    const lastFrameCount: int
    /** `state`, `started` and `error`, the properties `$emitUpdate` and the
        handlers write. */
    var props: Obj
    /** The data deadline, a clock reading in ms. */
    var timeout: int
    /** Every event emitted, in order. */
    var events: seq<Emission>
    /** Segments written to the encoder's input pipe. */
    var segments: seq<seq<Byte>>
    /** Whether the input pipe was destroyed and the kill scheduled. */
    var killed: bool

    function State(): Value
      reads this
    {
      Get(props, "state")
    }

    /** A new supervisor at clock reading `now`: state `empty`, not
        started, deadline `now + 7000`. */
    constructor (now: int)
      ensures lastFrameCount == 0 && timeout == now + DATA_TIMEOUT
      ensures props == map["state" := Str("empty"), "started" := Bool(false)]
      ensures events == [] && segments == [] && !killed
    {
      lastFrameCount := 0;
      props := map["state" := Str("empty"), "started" := Bool(false)];
      timeout := now + DATA_TIMEOUT;
      events := [];
      segments := [];
      killed := false;
    }

    /** `feed(segment)` at clock reading `now`: the deadline moves to
        `now + 7000` and the segment goes to the encoder. */
    method Feed(now: int, segment: seq<Byte>)
      modifies this`timeout, this`segments
      ensures timeout == now + DATA_TIMEOUT && segments == old(segments) + [segment]
    {
      timeout := now + DATA_TIMEOUT;
      segments := segments + [segment];
    }

    /** `start()`: publishes `started`. */
    method Start()
      modifies this`props, this`events
      ensures props == old(props)["started" := Bool(true)]
      ensures events == old(events) + (if Get(old(props), "started") != Bool(true) then [Emission("started", Val(Bool(true)))] else [])
    {
      UpdateOne(props, "started", Bool(true));
      var u := EmitUpdate(props, [("started", Bool(true))], "");
      if Get(props, "started") == Bool(true) {
        assert props["started" := Bool(true)] == props;
      }
      props := u.0;
      events := events + u.1;
    }

    /** `stop()`: acts only when it moves the state to `stopped`. */
    method Stop() returns (acted: bool)
      modifies this`props, this`events, this`killed
      ensures acted == (old(State()) != STOPPED)
      ensures State() == STOPPED
      ensures props == (if acted then old(props)["state" := STOPPED] else old(props))
      ensures events == old(events) + (if acted then [Emission("state", Val(STOPPED))] else [])
      ensures killed == (old(killed) || acted)
    {
      StopUpdate(props);
      var u := EmitUpdate(props, STOP_FIELDS, "");
      props := u.0;
      events := events + u.1;
      acted := u.2;
      if acted {
        killed := true;
      }
    }

    /** The encoder process exited: the state is set directly, then `exit`
        is emitted. */
    method OnExit()
      modifies this`props, this`events
      ensures props == old(props)["state" := STOPPED]
      ensures events == old(events) + [Emission("exit", NoData)]
    {
      props := props["state" := STOPPED];
      events := events + [Emission("exit", NoData)];
    }

    /** The `onError` guard: ignored once stopped; otherwise the message is
        published and the supervisor stops. */
    method OnError(msg: string)
      modifies this`props, this`events, this`killed
      ensures old(State()) == STOPPED ==> props == old(props) && events == old(events) && killed == old(killed)
      ensures old(State()) != STOPPED ==>
        props == old(props)["error" := Str(msg)]["state" := STOPPED] && killed &&
        events == old(events) + EmitUpdate(old(props), [("error", Str(msg))], "").1 + [Emission("state", Val(STOPPED))]
    {
      if State() != STOPPED {
        ghost var e0 := events;
        UpdateOne(props, "error", Str(msg));
        var u := EmitUpdate(props, [("error", Str(msg))], "");
        if Get(props, "error") == Str(msg) {
          assert props["error" := Str(msg)] == props;
        }
        props := u.0;
        events := events + u.1;
        assert State() != STOPPED;
        var _ := Stop();
      }
    }

    /** `parseStats(resp)` at clock reading `now`, given what the patterns
        find in `resp`. Past the deadline it emits `timeout`, stops and
        returns nothing; on statistics it sets the state to `live` or
        `stalled`; the result is `StatsOf`. */
    method ParseStats(now: int, matches: seq<FrameMatch>, ioError: bool) returns (r: StatsResult)
      modifies this`props, this`events, this`killed
      ensures r == StatsOf(now > old(timeout), matches, ioError, lastFrameCount)
      ensures now > old(timeout) ==>
        State() == STOPPED && killed == (old(killed) || old(State()) != STOPPED) &&
        props == (if old(State()) != STOPPED then old(props)["state" := STOPPED] else old(props)) &&
        events == old(events) + [Emission("timeout", NoData)] + (if old(State()) != STOPPED then [Emission("state", Val(STOPPED))] else [])
      ensures now <= old(timeout) && |matches| > 0 ==>
        props == old(props)["state" := Str(StateFor(matches[0].frame, lastFrameCount))] &&
        events == old(events) && killed == old(killed)
      ensures now <= old(timeout) && |matches| == 0 ==>
        props == old(props) && events == old(events) && killed == old(killed)
    {
      if now > timeout {
        events := events + [Emission("timeout", NoData)];
        var _ := Stop();
        return Nothing;
      }
      if |matches| > 0 {
        var frameCount := matches[0].frame;
        var state := if frameCount > lastFrameCount then "live" else "stalled";
        props := props["state" := Str(state)];
        r := Update(StatusLine(state, matches[0]));
      } else if ioError {
        r := Error("stream error");
      } else {
        r := NoMatch;
      }
    }

    /** Diagnostic text arrives on the encoder's error stream: ignored once
        stopped; otherwise `parseStats` runs, an update is emitted and an
        error goes through the `onError` guard. */
    method OnStderr(now: int, matches: seq<FrameMatch>, ioError: bool)
      modifies this`props, this`events, this`killed
      ensures old(State()) == STOPPED ==> props == old(props) && events == old(events) && killed == old(killed)
      ensures old(State()) != STOPPED && now <= old(timeout) && |matches| > 0 ==>
        props == old(props)["state" := Str(StateFor(matches[0].frame, lastFrameCount))] && killed == old(killed) &&
        events == old(events) + [Emission("update", Val(Str(StatsOf(false, matches, ioError, lastFrameCount).line)))]
      ensures old(State()) != STOPPED && now <= old(timeout) && |matches| == 0 && ioError ==>
        props == old(props)["error" := Str("stream error")]["state" := STOPPED] && killed &&
        events == old(events) + EmitUpdate(old(props), [("error", Str("stream error"))], "").1 + [Emission("state", Val(STOPPED))]
      ensures old(State()) != STOPPED && now <= old(timeout) && |matches| == 0 && !ioError ==>
        props == old(props) && events == old(events) && killed == old(killed)
      ensures old(State()) != STOPPED && now > old(timeout) ==>
        props == old(props)["state" := STOPPED] && killed &&
        events == old(events) + [Emission("timeout", NoData), Emission("state", Val(STOPPED))]
    {
      if State() != STOPPED {
        var r := ParseStats(now, matches, ioError);
        if r.Update? {
          events := events + [Emission("update", Val(Str(r.line)))];
        } else if r.Error? {
          OnError(r.msg);
        }
      }
    }
  }
}
