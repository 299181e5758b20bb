/** The `Dht11` driver object: it owns one pin, which is either an output (the
    driver sets its level) or an input (the driver reads its level). Every
    action the driver takes is recorded in a ghost trace, so that the order
    of actions and the mode discipline can be stated about it. */
module Driver {
  import opened Options
  import opened Bytes
  import opened Pulses
  import opened Decoding

  datatype Mode = Output | Input

  datatype Action =
    | SwitchTo(mode: Mode)   // set_mode
    | WriteHigh              // set_high
    | WriteLow               // set_low
    | ReadLevels             // the level polling of the sampling loop
    | Wait(micros: nat)      // a sleep of the calling thread

  /** Back-off between two attempts of `get_reading`. */
  const RETRY_MICROS: nat := 500_000

  /** The start signal: drive high and hold 30 ms, drive low and hold 20 ms,
      drive high and hold 40 µs. */
  const HANDSHAKE: seq<Action> :=
    [SwitchTo(Output), WriteHigh, Wait(30_000), WriteLow, Wait(20_000), WriteHigh, Wait(40)]

  /** Everything one call of `read_data` does to the pin. */
  const ATTEMPT: seq<Action> := HANDSHAKE + [SwitchTo(Input), ReadLevels]

  // ---------------------------------------------------------------------
  // Mode discipline
  // ---------------------------------------------------------------------

  function Next(m: Mode, a: Action): Mode
  {
    if a.SwitchTo? then a.mode else m
  }

  /** Levels are written only to an output and read only from an input. */
  predicate Allowed(m: Mode, a: Action)
  {
    match a
    case WriteHigh => m == Output
    case WriteLow => m == Output
    case ReadLevels => m == Input
    case _ => true
  }

  /** The mode of the pin after the actions `t`, starting in mode `m`. */
  function ModeAfter(m: Mode, t: seq<Action>): Mode
    decreases |t|
  {
    if t == [] then m else ModeAfter(Next(m, t[0]), t[1..])
  }

  /** Every action of `t`, performed from mode `m`, is allowed in the mode it meets. */
  predicate Disciplined(m: Mode, t: seq<Action>)
    decreases |t|
  {
    t == [] || (Allowed(m, t[0]) && Disciplined(Next(m, t[0]), t[1..]))
  }

  lemma {:induction false} ModeAfterAppend(m: Mode, s: seq<Action>, t: seq<Action>)
    ensures ModeAfter(m, s + t) == ModeAfter(ModeAfter(m, s), t)
    decreases |s|
  {
    if s == [] {
      assert s + t == t;
    } else {
      assert (s + t)[1..] == s[1..] + t;
      ModeAfterAppend(Next(m, s[0]), s[1..], t);
    }
  }

  /** A trace is disciplined exactly when both halves are, the second from the
      mode the first leaves the pin in. */
  lemma {:induction false} DisciplinedAppend(m: Mode, s: seq<Action>, t: seq<Action>)
    ensures Disciplined(m, s + t) <==> Disciplined(m, s) && Disciplined(ModeAfter(m, s), t)
    decreases |s|
  {
    if s == [] {
      assert s + t == t;
    } else {
      assert (s + t)[0] == s[0] && (s + t)[1..] == s[1..] + t;
      DisciplinedAppend(Next(m, s[0]), s[1..], t);
    }
  }

  /** The same discipline stated action by action: action `k` is allowed in the
      mode the first `k` actions leave the pin in. */
  lemma {:induction false} DisciplinedAtEachStep(m: Mode, t: seq<Action>)
    ensures Disciplined(m, t) <==> forall k :: 0 <= k < |t| ==> Allowed(ModeAfter(m, t[..k]), t[k])
    decreases |t|
  {
    if t != [] {
      DisciplinedAtEachStep(Next(m, t[0]), t[1..]);
      forall k | 0 < k < |t|
        ensures ModeAfter(m, t[..k]) == ModeAfter(Next(m, t[0]), t[1..][..k - 1])
      {
        assert t[..k][1..] == t[1..][..k - 1];
      }
      assert ModeAfter(m, t[..0]) == m;
      if Disciplined(m, t) {
        forall k | 0 <= k < |t| ensures Allowed(ModeAfter(m, t[..k]), t[k]) {
          if k > 0 {
            assert t[k] == t[1..][k - 1];
          }
        }
      }
      if forall k :: 0 <= k < |t| ==> Allowed(ModeAfter(m, t[..k]), t[k]) {
        assert Allowed(ModeAfter(m, t[..0]), t[0]);
        forall j | 0 <= j < |t| - 1
          ensures Allowed(ModeAfter(Next(m, t[0]), t[1..][..j]), t[1..][j])
        {
          assert Allowed(ModeAfter(m, t[..j + 1]), t[j + 1]);
        }
      }
    }
  }

  /** One attempt is disciplined whatever mode it starts from, and leaves an input. */
  lemma AttemptDisciplined(m: Mode)
    ensures Disciplined(m, ATTEMPT) && ModeAfter(m, ATTEMPT) == Input
  {
    var t := ATTEMPT;
    assert Disciplined(Input, t[9..]) && ModeAfter(Input, t[9..]) == Input;
    assert Disciplined(Input, t[8..]) && ModeAfter(Input, t[8..]) == Input;
    assert Disciplined(Output, t[7..]) && ModeAfter(Output, t[7..]) == Input;
    assert Disciplined(Output, t[6..]) && ModeAfter(Output, t[6..]) == Input;
    assert Disciplined(Output, t[5..]) && ModeAfter(Output, t[5..]) == Input;
    assert Disciplined(Output, t[4..]) && ModeAfter(Output, t[4..]) == Input;
    assert Disciplined(Output, t[3..]) && ModeAfter(Output, t[3..]) == Input;
    assert Disciplined(Output, t[2..]) && ModeAfter(Output, t[2..]) == Input;
    assert Disciplined(Output, t[1..]) && ModeAfter(Output, t[1..]) == Input;
    assert Disciplined(m, t[0..]) && ModeAfter(m, t[0..]) == Input;
    assert t[0..] == t;
  }

  /** The levels are read only after the pin was switched to an input, and
      that switch comes after the last level written. */
  lemma ReadAfterSwitchToInput()
    ensures forall k :: 0 <= k < |ATTEMPT| && ATTEMPT[k] == ReadLevels ==>
      exists j :: 0 <= j < k && ATTEMPT[j] == SwitchTo(Input) &&
        forall l :: j < l < |ATTEMPT| ==> ATTEMPT[l] != WriteHigh && ATTEMPT[l] != WriteLow
  {
    assert ATTEMPT[7] == SwitchTo(Input);
  }

  /** The actions of `get_reading` when attempt `n` is the first to succeed:
      one attempt, then a back-off and a new attempt for each failure. */
  function RetryTrace(n: nat): seq<Action>
  {
    if n == 0 then ATTEMPT else RetryTrace(n - 1) + [Wait(RETRY_MICROS)] + ATTEMPT
  }

  /** `get_reading` backs off exactly once per failed attempt. */
  lemma {:induction false} RetryBackOffs(n: nat)
    ensures multiset(RetryTrace(n))[Wait(RETRY_MICROS)] == n
    ensures multiset(RetryTrace(n))[ReadLevels] == n + 1
  {
    assert multiset(ATTEMPT)[Wait(RETRY_MICROS)] == 0;
    assert multiset(ATTEMPT)[ReadLevels] == 1;
    if n > 0 {
      RetryBackOffs(n - 1);
    }
  }

  /** `get_reading` keeps the discipline from any starting mode, and leaves an input. */
  lemma {:induction false} RetryDisciplined(m: Mode, n: nat)
    ensures Disciplined(m, RetryTrace(n)) && ModeAfter(m, RetryTrace(n)) == Input
  {
    AttemptDisciplined(m);
    if n > 0 {
      RetryDisciplined(m, n - 1);
      var before := RetryTrace(n - 1) + [Wait(RETRY_MICROS)];
      DisciplinedAppend(m, RetryTrace(n - 1), [Wait(RETRY_MICROS)]);
      ModeAfterAppend(m, RetryTrace(n - 1), [Wait(RETRY_MICROS)]);
      AttemptDisciplined(ModeAfter(m, before));
      DisciplinedAppend(m, before, ATTEMPT);
      ModeAfterAppend(m, before, ATTEMPT);
    }
  }

  /** The outcomes of a sequence of attempts, each on its own events. */
  function Outcomes(attempts: seq<seq<Event>>): (r: seq<Option<Reading>>)
    ensures |r| == |attempts|
    ensures forall k :: 0 <= k < |attempts| ==> r[k] == ReadSpec(attempts[k])
  {
    seq(|attempts|, k requires 0 <= k < |attempts| => ReadSpec(attempts[k]))
  }

  /** A failed attempt followed by a successful one: the second attempt's
      reading is returned, after exactly one back-off. */
  lemma RetryOnce(failed: seq<Event>, succeeding: seq<Event>)
    requires ReadSpec(failed) == None && ReadSpec(succeeding).Some?
    ensures Outcomes([failed, succeeding])[1].Some?
    ensures FirstSome(Outcomes([failed, succeeding])) == 1
    ensures Outcomes([failed, succeeding])[FirstSome(Outcomes([failed, succeeding]))] == ReadSpec(succeeding)
    ensures multiset(RetryTrace(1))[Wait(RETRY_MICROS)] == 1
  {
    var outcomes := Outcomes([failed, succeeding]);
    assert outcomes[0] == None && outcomes[1] == ReadSpec(succeeding);
    RetryBackOffs(1);
  }

  /** A line that never rises on the first attempt, then a sensor that sends
      69, 0, 23, 5 and a checksum: the reading is 69.0 % and 23.5 °C, after
      exactly one back-off. */
  lemma RetryExample(checksum: seq<u8>)
    requires |checksum| == 8 && IsBits(checksum)
    ensures IsBits(FrameBits(Frame(69, 0, 23, 5)) + checksum)
    ensures var good := [Pulse(80)] + EncodeBits(FrameBits(Frame(69, 0, 23, 5)) + checksum);
      && Outcomes([[LowTimeout], good])[1].Some?
      && FirstSome(Outcomes([[LowTimeout], good])) == 1
      && Outcomes([[LowTimeout], good])[1] == Some(Reading(690, 235))
      && multiset(RetryTrace(FirstSome(Outcomes([[LowTimeout], good]))))[Wait(RETRY_MICROS)] == 1
  {
    ExampleTransmission(80, checksum);
    var good := [Pulse(80)] + EncodeBits(FrameBits(Frame(69, 0, 23, 5)) + checksum);
    assert ReadSpec([LowTimeout]) == None;
    RetryOnce([LowTimeout], good);
  }

  // ---------------------------------------------------------------------
  // The driver object
  // ---------------------------------------------------------------------

  class Dht11 {
    /** The pin the sensor is connected to. */
    const pinNumber: u8
    /** The current direction of the pin. */
    var mode: Mode
    /** Everything the driver has done to the pin since construction. */
    ghost var trace: seq<Action>

    /** The pin starts as an output, its mode is the one the trace leads to,
        and no level was ever written to an input or read from an output. */
    ghost predicate Valid()
      reads this
    {
      mode == ModeAfter(Output, trace) && Disciplined(Output, trace)
    }

    /** `new` with `init_pin`: the pin is claimed as an output. */
    constructor (pinNumber: u8)
      ensures Valid()
      ensures this.pinNumber == pinNumber && mode == Output && trace == []
    {
      this.pinNumber := pinNumber;
      mode := Output;
      trace := [];
    }

    method Perform(a: Action)
      requires Valid() && Allowed(mode, a)
      modifies this
      ensures Valid()
      ensures mode == Next(old(mode), a) && trace == old(trace) + [a]
    {
      DisciplinedAppend(Output, trace, [a]);
      ModeAfterAppend(Output, trace, [a]);
      mode := Next(mode, a);
      trace := trace + [a];
    }

    method SetMode(m: Mode)
      requires Valid()
      modifies this
      ensures Valid() && mode == m && trace == old(trace) + [SwitchTo(m)]
    {
      Perform(SwitchTo(m));
    }

    method SetHigh()
      requires Valid() && mode == Output
      modifies this
      ensures Valid() && mode == Output && trace == old(trace) + [WriteHigh]
    {
      Perform(WriteHigh);
    }

    method SetLow()
      requires Valid() && mode == Output
      modifies this
      ensures Valid() && mode == Output && trace == old(trace) + [WriteLow]
    {
      Perform(WriteLow);
    }

    method Sleep(micros: nat)
      requires Valid()
      modifies this
      ensures Valid() && mode == old(mode) && trace == old(trace) + [Wait(micros)]
    {
      Perform(Wait(micros));
    }

    /** Hands the input pin to the sampling loop. */
    method Listen()
      requires Valid() && mode == Input
      modifies this
      ensures Valid() && mode == Input && trace == old(trace) + [ReadLevels]
    {
      Perform(ReadLevels);
    }

    method SendStartSignal()
      requires Valid()
      modifies this
      ensures Valid() && mode == Output && trace == old(trace) + HANDSHAKE
    {
      SetMode(Output);
      SetHigh();
      Sleep(30_000);
      SetLow();
      Sleep(20_000);
      SetHigh();
      Sleep(40);
    }

    /** One attempt: the start signal, the switch to input, then the sampling
        loop and packing on the events the sensor produces this time. */
    method ReadData(events: seq<Event>) returns (reading: Option<Reading>)
      requires Valid()
      modifies this
      ensures Valid() && mode == Input
      ensures reading == ReadSpec(events)
      ensures trace == old(trace) + ATTEMPT
    {
      SendStartSignal();
      SetMode(Input);
      Listen();
      reading := ReadPulseTrain(events);
    }

    /** Attempts until one succeeds, sleeping 500 ms before each retry. Attempt
        `k` sees the events `attempts[k]`; some attempt succeeds. */
    method GetReading(attempts: seq<seq<Event>>) returns (reading: Reading)
      requires Valid()
      requires exists k :: 0 <= k < |attempts| && Outcomes(attempts)[k].Some?
      modifies this
      ensures Valid() && mode == Input
      ensures Some(reading) == Outcomes(attempts)[FirstSome(Outcomes(attempts))]
      ensures trace == old(trace) + RetryTrace(FirstSome(Outcomes(attempts)))
    {
      ghost var first := FirstSome(Outcomes(attempts));
      var n := 0;
      var r := ReadData(attempts[0]);
      while r.None?
        invariant n <= first
        invariant r == Outcomes(attempts)[n]
        invariant Valid() && mode == Input
        invariant trace == old(trace) + RetryTrace(n)
        decreases first - n
      {
        Sleep(RETRY_MICROS);
        n := n + 1;
        r := ReadData(attempts[n]);
      }
      reading := r.value;
    }
  }
}
