/** The sensor's pulse train as the driver observes it, and what the sampling
    loop of `read_data` makes of it.

    Each event stands for one pass of the sampling loop: either the wait for
    the line to rise, or the wait for it to fall again, ran past 100 ms, or
    the line went through one complete high phase of the given width. */
module Pulses {
  import opened Options
  import opened Bytes

  /** Number of data bits the sensor sends after its acknowledgement. */
  const DATA_LENGTH: nat := 40
  /** A data pulse no longer than this encodes a 0, a longer one a 1. */
  const ZERO_MAX_MICROS: nat := 30
  /** A high phase this long or longer is not a data pulse. */
  const PULSE_LIMIT_MICROS: nat := 80
  /** Bound on one wait for a level change: a wait aborts the attempt once
      its elapsed whole milliseconds exceed this. */
  const WAIT_LIMIT_MILLIS: nat := 100
  /** The shortest high phase whose wait aborts: 101 whole milliseconds. */
  const HIGH_TIMEOUT_MICROS: nat := (WAIT_LIMIT_MILLIS + 1) * 1000

  datatype Event =
    | LowTimeout               // the line stayed low for more than 100 ms
    | HighTimeout              // the line stayed high for more than 100 ms
    | Pulse(widthMicros: nat)  // a high phase of this width, then a fall

  /** The event makes the low-wait or the high-wait run past 100 ms. A high
      phase of 101 ms or more is one the high-wait aborts before it ends. */
  predicate TimesOut(e: Event)
  {
    match e
    case LowTimeout => true
    case HighTimeout => true
    case Pulse(width) => width >= HIGH_TIMEOUT_MICROS
  }

  /** The bit a data pulse (shorter than 80 µs) encodes. */
  function Classify(width: nat): (b: u8)
    requires width < PULSE_LIMIT_MICROS
    ensures b <= 1
    ensures b == 1 <==> ZERO_MAX_MICROS < width
  {
    if width > ZERO_MAX_MICROS then 1 else 0
  }

  /** The sampling loop from a state in which `acked` tells whether the
      acknowledgement pulse has been seen and `bits` holds the data bits
      stored so far. Running out of events counts as failure. */
  function Run(events: seq<Event>, acked: bool, bits: seq<u8>): (r: Option<seq<u8>>)
    requires |bits| <= DATA_LENGTH && IsBits(bits)
    ensures r.Some? ==> |r.value| == DATA_LENGTH && IsBits(r.value) && r.value[..|bits|] == bits
    decreases |events|
  {
    if |bits| == DATA_LENGTH then Some(bits)
    else if events == [] || TimesOut(events[0]) then None
    else
      var width := events[0].widthMicros;
      if !acked then Run(events[1..], true, bits)
      else if width < PULSE_LIMIT_MICROS then
        var r := Run(events[1..], true, bits + [Classify(width)]);
        assert r.Some? ==> r.value[..|bits| + 1][..|bits|] == r.value[..|bits|];
        r
      else Run(events[1..], true, bits)
  }

  /** The forty data bits one attempt samples, or None when it fails. */
  function Sample(events: seq<Event>): (r: Option<seq<u8>>)
    ensures r.Some? ==> |r.value| == DATA_LENGTH && IsBits(r.value)
  {
    Run(events, false, [])
  }

  // ---------------------------------------------------------------------
  // An independent description of the sampler's outcome
  // ---------------------------------------------------------------------

  /** The events before the first timeout. */
  function CleanPrefix(events: seq<Event>): (c: seq<Event>)
    ensures c <= events
    ensures forall k :: 0 <= k < |c| ==> c[k].Pulse? && !TimesOut(c[k])
    ensures |c| < |events| ==> TimesOut(events[|c|])
  {
    if events == [] || TimesOut(events[0]) then []
    else
      var c := [events[0]] + CleanPrefix(events[1..]);
      assert events == [events[0]] + events[1..];
      c
  }

  /** The bits encoded by the pulses shorter than 80 µs, in arrival order. */
  function Accepted(events: seq<Event>): (bits: seq<u8>)
    ensures IsBits(bits) && |bits| <= |events|
  {
    if events == [] then []
    else
      var head := match events[0]
        case Pulse(width) => if width < PULSE_LIMIT_MICROS then [Classify(width)] else []
        case _ => [];
      head + Accepted(events[1..])
  }

  /** The data bits received before the first timeout: every accepted pulse
      after the first (acknowledgement) pulse. */
  function DataBits(events: seq<Event>): (bits: seq<u8>)
    ensures IsBits(bits)
  {
    var c := CleanPrefix(events);
    if c == [] then [] else Accepted(c[1..])
  }

  /** Forty bits if that many are available, else failure. */
  function FirstForty(bits: seq<u8>): Option<seq<u8>>
  {
    if |bits| >= DATA_LENGTH then Some(bits[..DATA_LENGTH]) else None
  }

  lemma {:induction false} RunClosedForm(events: seq<Event>, bits: seq<u8>)
    requires |bits| <= DATA_LENGTH && IsBits(bits)
    ensures Run(events, true, bits) == FirstForty(bits + Accepted(CleanPrefix(events)))
    decreases |events|
  {
    if |bits| == DATA_LENGTH {
      assert (bits + Accepted(CleanPrefix(events)))[..DATA_LENGTH] == bits;
    } else if events == [] || TimesOut(events[0]) {
      assert CleanPrefix(events) == [];
      assert bits + [] == bits;
    } else {
      var c := CleanPrefix(events);
      assert c == [events[0]] + CleanPrefix(events[1..]);
      assert c[1..] == CleanPrefix(events[1..]);
      var width := events[0].widthMicros;
      if width < PULSE_LIMIT_MICROS {
        assert Accepted(c) == [Classify(width)] + Accepted(c[1..]);
        RunClosedForm(events[1..], bits + [Classify(width)]);
        assert bits + Accepted(c) == bits + [Classify(width)] + Accepted(c[1..]);
      } else {
        assert Run(events, true, bits) == Run(events[1..], true, bits);
        assert Accepted(c) == [] + Accepted(c[1..]) == Accepted(c[1..]);
        RunClosedForm(events[1..], bits);
      }
    }
  }

  /** The sampler succeeds exactly when forty data bits arrive before the first
      timeout, and then returns the first forty of them in arrival order. */
  lemma SampleCharacterized(events: seq<Event>)
    ensures Sample(events) == FirstForty(DataBits(events))
  {
    if events != [] && !TimesOut(events[0]) {
      var c := CleanPrefix(events);
      assert c == [events[0]] + CleanPrefix(events[1..]);
      assert c[1..] == CleanPrefix(events[1..]);
      RunClosedForm(events[1..], []);
      assert [] + Accepted(c[1..]) == Accepted(c[1..]);
    }
  }

  /** On success, bit `k` is the classification of the `k`-th pulse shorter than
      80 µs after the acknowledgement, none of them preceded by a timeout. */
  lemma SampleBitsAreAcceptedPulses(events: seq<Event>, k: nat)
    requires Sample(events).Some? && k < DATA_LENGTH
    ensures k < |DataBits(events)| && Sample(events).value[k] == DataBits(events)[k]
  {
    SampleCharacterized(events);
  }

  // ---------------------------------------------------------------------
  // Consequences for individual events
  // ---------------------------------------------------------------------

  /** The first complete high phase is the acknowledgement: its width never
      matters, as long as it is short enough for the high-wait to see it end. */
  lemma AcknowledgementDiscarded(width1: nat, width2: nat, rest: seq<Event>)
    requires width1 < HIGH_TIMEOUT_MICROS && width2 < HIGH_TIMEOUT_MICROS
    ensures Sample([Pulse(width1)] + rest) == Sample([Pulse(width2)] + rest)
  {
    assert ([Pulse(width1)] + rest)[1..] == rest;
    assert ([Pulse(width2)] + rest)[1..] == rest;
  }

  lemma {:induction false} RunInsertLongPulse(events: seq<Event>, i: nat, acked: bool, bits: seq<u8>, width: nat)
    requires i <= |events| && (acked || i > 0)
    requires PULSE_LIMIT_MICROS <= width < HIGH_TIMEOUT_MICROS
    requires |bits| <= DATA_LENGTH && IsBits(bits)
    ensures Run(events[..i] + [Pulse(width)] + events[i..], acked, bits) == Run(events, acked, bits)
    decreases i
  {
    var longer := events[..i] + [Pulse(width)] + events[i..];
    if |bits| == DATA_LENGTH {
    } else if i == 0 {
      assert longer == [Pulse(width)] + events;
      assert longer[1..] == events;
    } else {
      assert longer[0] == events[0];
      assert longer[1..] == events[1..][..i - 1] + [Pulse(width)] + events[1..][i - 1..];
      if !TimesOut(events[0]) {
        var w := events[0].widthMicros;
        if !acked {
          RunInsertLongPulse(events[1..], i - 1, true, bits, width);
        } else if w < PULSE_LIMIT_MICROS {
          RunInsertLongPulse(events[1..], i - 1, true, bits + [Classify(w)], width);
        } else {
          RunInsertLongPulse(events[1..], i - 1, true, bits, width);
        }
      }
    }
  }

  /** A completed high phase of 80 µs or more after the acknowledgement neither
      stores a bit nor advances the counter: the attempt ends as if it had not
      happened. */
  lemma LongPulseIgnored(events: seq<Event>, i: nat, width: nat)
    requires 1 <= i <= |events| && PULSE_LIMIT_MICROS <= width < HIGH_TIMEOUT_MICROS
    ensures Sample(events[..i] + [Pulse(width)] + events[i..]) == Sample(events)
  {
    RunInsertLongPulse(events, i, false, [], width);
  }

  lemma {:induction false} RunPrefixComplete(events: seq<Event>, k: nat, acked: bool, bits: seq<u8>)
    requires k <= |events| && |bits| <= DATA_LENGTH && IsBits(bits)
    requires Run(events[..k], acked, bits).Some?
    ensures Run(events, acked, bits) == Run(events[..k], acked, bits)
    decreases k
  {
    if |bits| < DATA_LENGTH {
      var prefix := events[..k];
      assert prefix != [];
      assert prefix[0] == events[0] && prefix[1..] == events[1..][..k - 1];
      if !TimesOut(events[0]) {
        var w := events[0].widthMicros;
        if !acked {
          RunPrefixComplete(events[1..], k - 1, true, bits);
        } else if w < PULSE_LIMIT_MICROS {
          RunPrefixComplete(events[1..], k - 1, true, bits + [Classify(w)]);
        } else {
          RunPrefixComplete(events[1..], k - 1, true, bits);
        }
      }
    }
  }

  /** Once forty bits are stored the loop stops: later events, timeouts
      included, are never looked at. */
  lemma CompletedAttemptIgnoresRest(events: seq<Event>, k: nat)
    requires k <= |events| && Sample(events[..k]).Some?
    ensures Sample(events) == Sample(events[..k])
  {
    RunPrefixComplete(events, k, false, []);
  }

  lemma {:induction false} CleanPrefixCut(events: seq<Event>, k: nat)
    requires k < |events| && TimesOut(events[k])
    ensures CleanPrefix(events) == CleanPrefix(events[..k])
    decreases k
  {
    if k > 0 && !TimesOut(events[0]) {
      assert events[..k][0] == events[0] && events[..k][1..] == events[1..][..k - 1];
      CleanPrefixCut(events[1..], k - 1);
    }
  }

  /** A timeout ends the attempt: nothing after it is looked at, and unless all
      forty bits were stored before it the attempt fails with no reading. */
  lemma TimeoutAborts(events: seq<Event>, k: nat)
    requires k < |events| && TimesOut(events[k])
    ensures Sample(events) == Sample(events[..k])
    ensures |DataBits(events[..k])| < DATA_LENGTH ==> Sample(events) == None
  {
    CleanPrefixCut(events, k);
    SampleCharacterized(events);
    SampleCharacterized(events[..k]);
  }

  /** A high phase of 101 ms or more, met before forty bits are stored, is
      neither an acknowledgement nor a skipped pulse: the high-wait aborts the
      attempt before the phase ends. */
  lemma OverlongHighPhaseAborts(events: seq<Event>, k: nat, width: nat)
    requires k <= |events| && width >= HIGH_TIMEOUT_MICROS
    requires |DataBits(events[..k])| < DATA_LENGTH
    ensures Sample(events[..k] + [Pulse(width)] + events[k..]) == None
  {
    var longer := events[..k] + [Pulse(width)] + events[k..];
    assert longer[..k] == events[..k];
    TimeoutAborts(longer, k);
  }

  // ---------------------------------------------------------------------
  // The sensor's side: the nominal pulse widths it transmits
  // ---------------------------------------------------------------------

  /** Nominal high-phase widths of the sensor for a 0 and for a 1. */
  const ZERO_PULSE_MICROS: nat := 27
  const ONE_PULSE_MICROS: nat := 70

  function EncodeBits(bits: seq<u8>): (events: seq<Event>)
    requires IsBits(bits)
    ensures |events| == |bits|
    ensures forall k :: 0 <= k < |events| ==> !TimesOut(events[k])
  {
    if bits == [] then []
    else
      [Pulse(if bits[0] == 1 then ONE_PULSE_MICROS else ZERO_PULSE_MICROS)] + EncodeBits(bits[1..])
  }

  lemma {:induction false} AcceptedEncodeBits(bits: seq<u8>)
    requires IsBits(bits)
    ensures Accepted(EncodeBits(bits)) == bits
  {
    if bits != [] {
      var events := EncodeBits(bits);
      assert events[1..] == EncodeBits(bits[1..]);
      AcceptedEncodeBits(bits[1..]);
      assert bits == [bits[0]] + bits[1..];
    }
  }

  lemma {:induction false} CleanPrefixOfPulses(events: seq<Event>)
    requires forall k :: 0 <= k < |events| ==> !TimesOut(events[k])
    ensures CleanPrefix(events) == events
  {
    if events != [] {
      CleanPrefixOfPulses(events[1..]);
      assert events == [events[0]] + events[1..];
    }
  }

  /** Sampling forty bits sent at the sensor's nominal widths, after an
      acknowledgement pulse of any width the high-wait sees end, gives back
      exactly those bits. */
  lemma SampleEncodeBits(ackWidth: nat, bits: seq<u8>)
    requires ackWidth < HIGH_TIMEOUT_MICROS && |bits| == DATA_LENGTH && IsBits(bits)
    ensures Sample([Pulse(ackWidth)] + EncodeBits(bits)) == Some(bits)
  {
    var events := [Pulse(ackWidth)] + EncodeBits(bits);
    CleanPrefixOfPulses(events);
    assert events[1..] == EncodeBits(bits);
    AcceptedEncodeBits(bits);
    SampleCharacterized(events);
    assert DataBits(events) == bits;
    assert bits[..DATA_LENGTH] == bits;
  }
}
