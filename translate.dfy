// The whole of main after the input is parsed: filter the events, then run
// every event through the register bank in order
// (nesMusicTranslate.cpp:44-126).

module Translate {
  import opened Events
  import opened Decoders
  import opened Bank

  /** The reports for `events`, processed in order from bank state `bank`. */
  function Trace(bank: seq<U16>, events: seq<Event>): (r: seq<Report>)
    requires |bank| == SlotCount
    ensures |r| == |events|
    decreases |events|
  {
    if events == [] then []
    else [Describe(bank, events[0])] + Trace(Write(bank, events[0]), events[1..])
  }

  /** The bank after storing every event of `events`, in order. */
  function Replay(bank: seq<U16>, events: seq<Event>): (r: seq<U16>)
    requires |bank| == SlotCount
    ensures |r| == SlotCount
    decreases |events|
  {
    if events == [] then bank else Replay(Write(bank, events[0]), events[1..])
  }

  /**
   * The value of slot `k` after `events`: the data of the last event that
   * writes slot `k`, or `initial` when none does.
   */
  function LastWritten(events: seq<Event>, k: nat, initial: U16): U16
    decreases |events|
  {
    if events == [] then initial
    else if Slot(events[|events| - 1].reg) == k then events[|events| - 1].data
    else LastWritten(events[..|events| - 1], k, initial)
  }

  /** The event loop of main over an already filtered event list. */
  method Run(events: seq<Event>) returns (reports: seq<Report>)
    ensures reports == Trace(Zeros(), events)
  {
    var bank := new RegisterBank();
    reports := [];
    var i := 0;
    while i < |events|
      invariant 0 <= i <= |events|
      invariant bank.Valid()
      invariant reports + Trace(bank.Contents(), events[i..]) == Trace(Zeros(), events)
    {
      assert events[i..][1..] == events[i + 1..];
      var report := bank.Step(events[i]);
      reports := reports + [report];
      i := i + 1;
    }
    assert events[i..] == [];
  }

  /** main: keep the audio writes of the parsed trace, then report each of them. */
  method TranslateTrace(parsed: seq<Event>) returns (reports: seq<Report>)
    ensures reports == Trace(Zeros(), AudioEvents(parsed))
  {
    var audioEvents := CollectAudioEvents(parsed);
    reports := Run(audioEvents);
  }

  /** Storing one more event after a run is one more write. */
  lemma {:induction false} ReplaySnoc(bank: seq<U16>, events: seq<Event>, e: Event)
    requires |bank| == SlotCount
    ensures Replay(bank, events + [e]) == Write(Replay(bank, events), e)
    decreases |events|
  {
    if events == [] {
      assert [] + [e] == [e];
      assert [e][1..] == [];
    } else {
      assert (events + [e])[1..] == events[1..] + [e];
      ReplaySnoc(Write(bank, events[0]), events[1..], e);
    }
  }

  /**
   * The bank always holds, in every slot, the value of the most recent
   * event for that slot, or the initial value if there was none.
   */
  lemma {:induction false} ReplayHoldsLastWrite(bank: seq<U16>, events: seq<Event>, k: nat)
    requires |bank| == SlotCount && k < SlotCount
    ensures Replay(bank, events)[k] == LastWritten(events, k, bank[k])
    decreases |events|
  {
    if events != [] {
      var init, e := events[..|events| - 1], events[|events| - 1];
      assert events == init + [e];
      ReplaySnoc(bank, init, e);
      ReplayHoldsLastWrite(bank, init, k);
    }
  }

  /** The report for the i-th event is computed from the bank left by the events before it. */
  lemma {:induction false} TraceAt(bank: seq<U16>, events: seq<Event>, i: nat)
    requires |bank| == SlotCount && i < |events|
    ensures Trace(bank, events)[i] == Describe(Replay(bank, events[..i]), events[i])
    decreases i
  {
    if i == 0 {
      assert events[..0] == [];
    } else {
      assert events[..i][1..] == events[1..][..i - 1];
      assert events[..i][0] == events[0];
      TraceAt(Write(bank, events[0]), events[1..], i - 1);
    }
  }

  /**
   * From a zeroed bank, event i is reported as "No change" exactly when the
   * last earlier event for the same slot wrote the same value (or, if there
   * is none, when the value is 0); otherwise it reports that earlier value.
   */
  lemma ChangeFlag(events: seq<Event>, i: nat)
    requires i < |events|
    ensures var prior := LastWritten(events[..i], Slot(events[i].reg), 0);
      (Trace(Zeros(), events)[i].change == NoChange <==> prior == events[i].data) &&
      (Trace(Zeros(), events)[i].change.Changed? ==> Trace(Zeros(), events)[i].change.previous == prior)
  {
    TraceAt(Zeros(), events, i);
    ReplayHoldsLastWrite(Zeros(), events[..i], Slot(events[i].reg));
  }

  /** The same write repeated (at any later time) is reported as "No change" the second time. */
  lemma RepeatIsNoChange(bank: seq<U16>, e: Event, t: U32)
    requires |bank| == SlotCount
    ensures Trace(bank, [e, Event(t, e.reg, e.data)])[1].change == NoChange
  {
    assert [e, Event(t, e.reg, e.data)][1..] == [Event(t, e.reg, e.data)];
  }

  /**
   * Whichever of the two timer registers of a square channel is written
   * second, its report carries the same period, `((high & 7) << 8) + low`.
   */
  lemma PeriodOrderIndependent(bank: seq<U16>, lowReg: U16, t1: U32, t2: U32, low: U16, high: U16)
    requires |bank| == SlotCount && (lowReg == 0x4002 || lowReg == 0x4006)
    ensures var lowFirst := Trace(bank, [Event(t1, lowReg, low), Event(t2, lowReg + 1, high)])[1].description;
      var highFirst := Trace(bank, [Event(t1, lowReg + 1, high), Event(t2, lowReg, low)])[1].description;
      lowFirst.Trigger? && highFirst.TimerLow? &&
      lowFirst.wavelength == highFirst.wavelength == Period(high, low)
  {
    var a := [Event(t1, lowReg, low), Event(t2, lowReg + 1, high)];
    var b := [Event(t1, lowReg + 1, high), Event(t2, lowReg, low)];
    assert a[1..] == [a[1]];
    assert b[1..] == [b[1]];
    var wa := Write(Write(bank, a[0]), a[1]);
    var wb := Write(Write(bank, b[0]), b[1]);
    assert Slot(lowReg) == lowReg - 0x4000 && Slot(lowReg + 1) == lowReg + 1 - 0x4000;
    assert wa[lowReg - 0x4000] == low;
    assert wb[lowReg + 1 - 0x4000] == high;
  }

  /** The worked example: low byte 0x34 and high byte 0x03 give period 0x334 in either order. */
  lemma PeriodExample(bank: seq<U16>)
    requires |bank| == SlotCount
    ensures Trace(bank, [Event(100, 0x4002, 0x34), Event(200, 0x4003, 0x03)])[1].description
      == Trigger(Square1, 0, 0x334)
    ensures Trace(bank, [Event(100, 0x4003, 0x03), Event(200, 0x4002, 0x34)])[1].description
      == TimerLow(Square1, 0x334)
  {
    PeriodOrderIndependent(bank, 0x4002, 100, 200, 0x34, 0x03);
  }

  /**
   * The filter has no lower bound, so a write below the APU range (here to
   * 0x2003) is kept and shares slot 3 with 0x4003: it changes the period
   * reported by a following 0x4002 write.
   */
  lemma LowAddressAliasesSlot(t1: U32, t2: U32)
    ensures IsAudio(Event(t1, 0x2003, 0x07))
    ensures Trace(Zeros(), [Event(t1, 0x2003, 0x07), Event(t2, 0x4002, 0x00)])[1].description
      == TimerLow(Square1, 0x700)
  {
    var es := [Event(t1, 0x2003, 0x07), Event(t2, 0x4002, 0x00)];
    assert es[1..] == [es[1]];
    assert Write(Write(Zeros(), es[0]), es[1])[3] == 0x07;
  }

  /**
   * A short trace: a duty write, the low and high timer bytes of square 1,
   * and a write to 0x4015 that the filter drops. All three kept writes are
   * first writes to their slots, so each reports the old value 0; the
   * trigger reports length 0 and period 0x310.
   */
  lemma ShortTraceExample()
    ensures var parsed := [Event(0, 0x4000, 0x80), Event(100, 0x4002, 0x10),
                           Event(150, 0x4015, 0x0f), Event(200, 0x4003, 0x03)];
      Trace(Zeros(), AudioEvents(parsed)) == [
        Report(Changed(0), DutyEnvelope(Square1, 2, 0, 0, 0)),
        Report(Changed(0), TimerLow(Square1, 0x10)),
        Report(Changed(0), Trigger(Square1, 0, 0x310))]
  {
    var parsed := [Event(0, 0x4000, 0x80), Event(100, 0x4002, 0x10),
                   Event(150, 0x4015, 0x0f), Event(200, 0x4003, 0x03)];
    var kept := [parsed[0], parsed[1], parsed[3]];
    assert parsed[1..][1..][1..] == [parsed[3]];
    assert AudioEvents(parsed) == kept;
    var b1 := Write(Zeros(), kept[0]);
    var b2 := Write(b1, kept[1]);
    assert kept[1..] == [kept[1], kept[2]];
    assert kept[1..][1..] == [kept[2]];
    assert Trace(Zeros(), kept) == [Describe(Zeros(), kept[0])] + Trace(b1, kept[1..]);
    assert Trace(b1, kept[1..]) == [Describe(b1, kept[1])] + Trace(b2, [kept[2]]);
    assert Write(b2, kept[2])[2] == 0x10;
  }
}
