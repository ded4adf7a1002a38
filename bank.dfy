// The shadow register bank `prevVals` of main and the work done for one
// event: compare with the stored value, store the new value, decode
// (nesMusicTranslate.cpp:49-124).

module Bank {
  import opened Events
  import opened Decoders

  /** Number of shadow registers. */
  const SlotCount := 0x20

  /**
   * The slot a register write is shadowed in, `reg % 0x20`: always in
   * range, congruent to the register modulo 32, and the APU registers
   * 0x4000-0x401f each get their own slot.
   */
  function Slot(reg: U16): (k: nat)
    ensures k < SlotCount
    ensures 0x4000 <= reg < 0x4000 + SlotCount ==> k == reg - 0x4000
    ensures (reg - k) % SlotCount == 0
  {
    reg % SlotCount
  }

  /** The bank at start-up: every slot zero. */
  function Zeros(): (bank: seq<U16>)
    ensures |bank| == SlotCount
    ensures forall k :: 0 <= k < |bank| ==> bank[k] == 0
  {
    seq(SlotCount, _ => 0)
  }

  /** The bank after storing an event's value: its slot holds the value, every other slot is kept. */
  function Write(bank: seq<U16>, e: Event): (r: seq<U16>)
    requires |bank| == SlotCount
    ensures |r| == SlotCount && r[Slot(e.reg)] == e.data
    ensures forall k :: 0 <= k < SlotCount && k != Slot(e.reg) ==> r[k] == bank[k]
  {
    bank[Slot(e.reg) := e.data]
  }

  /** The "(Old: X)" / "(No change)" annotation of the report line. */
  datatype Change = Changed(previous: U16) | NoChange

  /** What main reports for one event. */
  datatype Report = Report(change: Change, description: Description)

  /**
   * The report for event `e` when the bank stands at `bank`: the change
   * flag compares with the value stored BEFORE the write, the decoder reads
   * the bank AFTER it.
   */
  function Describe(bank: seq<U16>, e: Event): (r: Report)
    requires |bank| == SlotCount
    ensures r.change == NoChange <==> bank[Slot(e.reg)] == e.data
    ensures r.change.Changed? ==> r.change.previous == bank[Slot(e.reg)] && r.change.previous != e.data
    ensures r.description == Decode(e.reg, e.data, Write(bank, e))
  {
    var change := if bank[Slot(e.reg)] != e.data then Changed(bank[Slot(e.reg)]) else NoChange;
    Report(change, Decode(e.reg, e.data, Write(bank, e)))
  }

  /** `prevVals`: 32 sixteen-bit registers, updated in place once per event. */
  class RegisterBank {
    const vals: array<U16>

    predicate Valid()
    {
      vals.Length == SlotCount
    }

    /** The stored values, slot by slot. */
    ghost function Contents(): (s: seq<U16>)
      reads vals
    {
      vals[..]
    }

    /** The array is created and filled with zeros. */
    constructor ()
      ensures Valid() && fresh(vals)
      ensures Contents() == Zeros()
    {
      vals := new U16[SlotCount];
      new;
      var k := 0;
      while k < SlotCount
        invariant 0 <= k <= SlotCount
        invariant forall j :: 0 <= j < k ==> vals[j] == 0
        modifies vals
      {
        vals[k] := 0;
        k := k + 1;
      }
    }

    /**
     * One iteration of main's event loop: read the slot to decide whether
     * the value changed, overwrite the slot, then decode the write.
     */
    method Step(e: Event) returns (report: Report)
      requires Valid()
      modifies vals
      ensures Contents() == Write(old(Contents()), e)
      ensures report == Describe(old(Contents()), e)
    {
      var k := e.reg % 0x20;
      var change := if vals[k] != e.data then Changed(vals[k]) else NoChange;
      vals[k] := e.data;
      report := Report(change, Decode(e.reg, e.data, vals[..]));
    }
  }
}
