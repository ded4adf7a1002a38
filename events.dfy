// Register-write events of an APU trace and the filter that keeps the
// audio-register writes (nesMusicTranslate.cpp, struct event_t and the
// reading loop of main).

module Events {

  /** An unsigned 16-bit value (the source's uint16_t). */
  type U16 = x: int | 0 <= x < 0x1_0000

  /** An unsigned 32-bit value (the source's uint32_t). */
  type U32 = x: int | 0 <= x < 0x1_0000_0000

  /** One register write: CPU cycle count, register address, written value. */
  datatype Event = Event(timestamp: U32, reg: U16, data: U16)

  /** Registers at or above 0x4010 are not audio registers and are dropped. */
  predicate IsAudio(e: Event)
  {
    e.reg < 0x4010
  }

  /** The events the reading loop keeps, in input order. */
  function AudioEvents(s: seq<Event>): (r: seq<Event>)
    ensures |r| <= |s|
    ensures forall i :: 0 <= i < |r| ==> IsAudio(r[i])
  {
    if s == [] then []
    else if IsAudio(s[0]) then [s[0]] + AudioEvents(s[1..])
    else AudioEvents(s[1..])
  }

  /**
   * The reading loop: each parsed triple is appended to the event list
   * when its register is below 0x4010.
   */
  method CollectAudioEvents(parsed: seq<Event>) returns (audioEvents: seq<Event>)
    ensures audioEvents == AudioEvents(parsed)
  {
    audioEvents := [];
    var i := 0;
    while i < |parsed|
      invariant 0 <= i <= |parsed|
      invariant audioEvents + AudioEvents(parsed[i..]) == AudioEvents(parsed)
    {
      assert parsed[i..][1..] == parsed[i + 1..];
      var e := parsed[i];
      if e.reg < 0x4010 {
        audioEvents := audioEvents + [e];
      }
      i := i + 1;
    }
    assert parsed[i..] == [];
  }

  /** An event survives the filter exactly when it is in the input and is an audio write. */
  lemma {:induction false} AudioEventsMembership(s: seq<Event>, e: Event)
    ensures e in AudioEvents(s) <==> e in s && IsAudio(e)
  {
    if s != [] {
      AudioEventsMembership(s[1..], e);
      assert s == [s[0]] + s[1..];
    }
  }

  /**
   * Filtering a concatenation is concatenating the filtered parts: the
   * filter never reorders events, it only drops some.
   */
  lemma {:induction false} AudioEventsAppend(a: seq<Event>, b: seq<Event>)
    ensures AudioEvents(a + b) == AudioEvents(a) + AudioEvents(b)
  {
    if a == [] {
      assert a + b == b;
    } else {
      assert (a + b)[1..] == a[1..] + b;
      AudioEventsAppend(a[1..], b);
    }
  }

  /** A trace made only of audio writes passes through unchanged, and only such a trace does. */
  lemma {:induction false} AudioEventsIdentity(s: seq<Event>)
    ensures AudioEvents(s) == s <==> forall i :: 0 <= i < |s| ==> IsAudio(s[i])
  {
    if s != [] {
      AudioEventsIdentity(s[1..]);
      if !IsAudio(s[0]) {
        assert |AudioEvents(s)| < |s|;
      } else if AudioEvents(s[1..]) != s[1..] {
        assert AudioEvents(s)[1..] == AudioEvents(s[1..]);
      } else {
        assert forall i :: 1 <= i < |s| ==> s[i] == s[1..][i - 1];
      }
    }
  }
}
