/** When the capture sweep is fast enough: a UART with a one-byte receive register, bytes that
    arrive at least some spacing apart, and a Timer0 interrupt that may run late. */
module CaptureTiming {
  import opened Bytes

  /** Microseconds between hardware ticks. */
  const TICK := 93.0

  /** A tick whose interrupt gets to this UART the given time late, or a byte completed by the
      receiver at the given time. */
  datatype Moment = Tick(latency: real) | Arrive(at: real)

  /** clock is the nominal time of the last tick and now the time of the last moment. */
  datatype Uart = Uart(clock: real, now: real, prescale: byte, full: bool, last: Option<real>, overwritten: bool)

  /** The timer starts at time zero with the prescaler at one and the register empty. */
  const START := Uart(0.0, 0.0, 1, false, None, false)

  /** Moments come in order, ticks are served within the latency bound, bytes keep their distance. */
  predicate Fits(u: Uart, m: Moment, spacing: real, latency: real) {
    match m
    case Tick(l) => 0.0 <= l <= latency && u.now <= u.clock + TICK + l
    case Arrive(at) => u.now <= at <= u.clock + TICK + latency && (u.last.Some? ==> u.last.value + spacing <= at)
  }

  function Play(u: Uart, m: Moment): Uart {
    match m
    case Tick(l) =>
      var c := U8(u.prescale - 1);
      var v := u.(clock := u.clock + TICK, now := u.clock + TICK + l);
      if c != 0 then v.(prescale := c) else v.(prescale := PRESCALE, full := false)
    case Arrive(at) =>
      u.(now := at, full := true, last := Some(at), overwritten := u.overwritten || u.full)
  }

  function PlayAll(u: Uart, ms: seq<Moment>): Uart
    decreases |ms|
  {
    if ms == [] then u else PlayAll(Play(u, ms[0]), ms[1..])
  }

  predicate FitsAll(u: Uart, ms: seq<Moment>, spacing: real, latency: real)
    decreases |ms|
  {
    ms == [] || (Fits(u, ms[0], spacing, latency) && FitsAll(Play(u, ms[0]), ms[1..], spacing, latency))
  }

  /** A waiting byte arrived no earlier than the nominal time of the last sweep. */
  ghost predicate Inv(u: Uart) {
    var sweep := u.clock - TICK * (PRESCALE - u.prescale) as real;
    && 1 <= u.prescale <= PRESCALE
    && sweep <= u.now
    && (u.full ==> u.last.Some? && sweep <= u.last.value)
    && !u.overwritten
  }

  lemma {:induction false} NeverOverwritten(u: Uart, ms: seq<Moment>, spacing: real, latency: real)
    requires Inv(u) && FitsAll(u, ms, spacing, latency) && spacing > 3.0 * TICK + latency
    ensures Inv(PlayAll(u, ms))
    decreases |ms|
  {
    if ms == [] {
    } else {
      assert Inv(Play(u, ms[0]));
      NeverOverwritten(Play(u, ms[0]), ms[1..], spacing, latency);
    }
  }

  /** A byte that arrives just after one sweep, and the next one just before a late sweep. */
  lemma Overwrite(spacing: real, latency: real) returns (ms: seq<Moment>)
    requires latency >= 0.0 && spacing <= 3.0 * TICK + latency
    ensures FitsAll(START, ms, spacing, latency) && PlayAll(START, ms).overwritten
  {
    var tick, late := Tick(0.0), Arrive(4.0 * TICK + latency);
    var u2 := Play(Play(START, tick), Arrive(TICK));
    var u4 := Play(Play(u2, tick), tick);
    var tail := [tick, tick, late];
    ms := [tick, Arrive(TICK)] + tail;
    assert ms[1..] == [Arrive(TICK)] + tail && ms[1..][1..] == tail;
    assert tail[1..] == [tick, late] && tail[1..][1..] == [late] && [late][1..] == [];
    assert FitsAll(u4, [late], spacing, latency) && PlayAll(u4, [late]).overwritten;
    assert FitsAll(u2, tail, spacing, latency) && PlayAll(u2, tail) == PlayAll(u4, [late]);
  }

  /** The slowest byte that is still safe: no received byte is ever overwritten, whatever the
      arrival times and latencies, exactly when bytes are more than three ticks and one latency apart. */
  lemma CaptureExactly(spacing: real, latency: real)
    requires latency >= 0.0
    ensures (forall ms: seq<Moment> :: FitsAll(START, ms, spacing, latency) ==> !PlayAll(START, ms).overwritten)
       <==> spacing > 3.0 * TICK + latency
  {
    if spacing > 3.0 * TICK + latency {
      forall ms: seq<Moment> | FitsAll(START, ms, spacing, latency)
        ensures !PlayAll(START, ms).overwritten
      {
        NeverOverwritten(START, ms, spacing, latency);
      }
    } else {
      var ms := Overwrite(spacing, latency);
      assert FitsAll(START, ms, spacing, latency);
    }
  }

  /** The MIDI line: one byte takes 320 microseconds, and 40 of latency are harmless. */
  lemma MidiLineIsSafe(ms: seq<Moment>)
    requires FitsAll(START, ms, 320.0, 40.0)
    ensures !PlayAll(START, ms).overwritten
  {
    NeverOverwritten(START, ms, 320.0, 40.0);
  }
}
