/** Transfer request blocks: os/src/xhci/trb.rs (section 6.4 of the xHCI specification). */
module Trb {
  import opened Common
  import opened BitMath
  import opened BitField

  const NORMAL: nat := 1
  const LINK: nat := 6

  /** A `GenericTrbEntry` with its control word taken apart: bit 0, bit 1, bits 2 to 9, the type
      in bits 10 to 15, bits 16 to 23 and the slot in bits 24 to 31. */
  datatype Entry = Entry(data: nat, option: nat, cycle: bool, toggle: bool, low: nat, kind: nat, mid: nat, slot: nat)

  const ZERO := Entry(0, 0, false, false, 0, 0, 0, 0)

  ghost predicate Valid(t: Entry) {
    t.low < 256 && t.kind < 64 && t.mid < 256 && t.slot < 256
  }

  /** A TRB but for its cycle bit. */
  function Strip(t: Entry): Entry { t.(cycle := false) }

  /** The control word as stored. */
  function Control(t: Entry): nat {
    Bit(t.cycle) + 2 * Bit(t.toggle) + 4 * t.low + 1024 * t.kind + 0x1_0000 * t.mid + 0x100_0000 * t.slot
  }

  /** `trb_link` */
  function LinkTo(base: nat): Entry {
    ZERO.(data := base, kind := LINK, toggle := true)
  }

  /** `NormalTrb::new`, with interrupt on completion and on short packet. */
  function NormalTrb(buf: nat, size: nat): Entry {
    ZERO.(data := buf, option := size, kind := NORMAL, low := 9)
  }

  /** What a Normal TRB says to the controller: where the buffer is, how long it is, and a control word
      with the type 1 and bits 5 and 2, interrupt on completion and on a short packet. */
  lemma NormalWords(buf: nat, size: nat, cycle: bool)
    ensures var t := NormalTrb(buf, size).(cycle := cycle);
            t.data == buf && t.option == size && Control(t) == 1 * 1024 + 32 + 4 + (if cycle then 1 else 0)
  {
  }

  /** What a Link TRB says: where the ring starts, and a control word with the type 6 and bit 1,
      toggle cycle. */
  lemma LinkWords(base: nat, cycle: bool)
    ensures var t := LinkTo(base).(cycle := cycle);
            t.data == base && t.option == 0 && Control(t) == 6 * 1024 + 2 + (if cycle then 1 else 0)
  {
  }

  lemma FieldPowers()
    ensures Pow2(0) == 1 && Pow2(1) == 2 && Pow2(2) == 4 && Pow2(6) == 64 && Pow2(8) == 256 && Pow2(10) == 1024
    ensures Pow2(16) == 0x1_0000 && Pow2(24) == 0x100_0000 && Pow2(32) == 0x1_0000_0000
  {
    assert Pow2(4) == 16;
    Pow2Sum(4, 2);
    Pow2Sum(4, 4);
    Pow2Sum(8, 2);
    Pow2Sum(8, 8);
    Pow2Sum(16, 8);
    Pow2Sum(16, 16);
  }

  function AboveCycle(t: Entry): nat { Bit(t.toggle) + 2 * t.low + 512 * t.kind + 0x8000 * t.mid + 0x80_0000 * t.slot }
  function AboveToggle(t: Entry): nat { t.low + 256 * t.kind + 0x4000 * t.mid + 0x40_0000 * t.slot }
  function AboveKind(t: Entry): nat { t.mid + 256 * t.slot }
  function BelowKind(t: Entry): nat { Bit(t.cycle) + 2 * Bit(t.toggle) + 4 * t.low }
  function BelowSlot(t: Entry): nat { BelowKind(t) + 1024 * t.kind + 0x1_0000 * t.mid }

  /** The control word is what lies above a field, the field, and what lies below it. */
  ghost predicate Splits(w: nat, hi: nat, x: nat, lo: nat, shift: nat, width: nat) {
    x < Pow2(width) && lo < Pow2(shift) && w == hi * Pow2(shift + width) + x * Pow2(shift) + lo
  }

  lemma CycleSplits(t: Entry)
    requires Valid(t)
    ensures Splits(Control(t), AboveCycle(t), Bit(t.cycle), 0, 0, 1)
  {
    FieldPowers();
  }

  lemma ToggleSplits(t: Entry)
    requires Valid(t)
    ensures Splits(Control(t), AboveToggle(t), Bit(t.toggle), Bit(t.cycle), 1, 1)
  {
    FieldPowers();
  }

  lemma KindSplits(t: Entry)
    requires Valid(t)
    ensures Splits(Control(t), AboveKind(t), t.kind, BelowKind(t), 10, 6)
  {
    FieldPowers();
  }

  lemma SlotSplits(t: Entry)
    requires Valid(t)
    ensures Splits(Control(t), 0, t.slot, BelowSlot(t), 24, 8) && Control(t) < Pow2(32)
  {
    FieldPowers();
  }

  /** Reading and writing a field of a word that is split around it. */
  lemma SplitReadWrite(w: nat, hi: nat, x: nat, lo: nat, shift: nat, width: nat, x': nat)
    requires Splits(w, hi, x, lo, shift, width) && x' < Pow2(width)
    ensures ReadBits(w, shift, width) == x
    ensures WriteBits(w, shift, width, x') == Ok(hi * Pow2(shift + width) + x' * Pow2(shift) + lo)
  {
    Assemble(hi, x, lo, shift, width);
  }

  /** A word is determined by its split. */
  lemma SplitWrites(w: nat, w': nat, hi: nat, x: nat, lo: nat, shift: nat, width: nat, x': nat)
    requires Splits(w, hi, x, lo, shift, width) && Splits(w', hi, x', lo, shift, width)
    ensures ReadBits(w, shift, width) == x && WriteBits(w, shift, width, x') == Ok(w')
  {
    SplitReadWrite(w, hi, x, lo, shift, width, x');
  }

  /** `cycle_state` reads bit 0; `set_cycle_state` replaces it and nothing else. */
  lemma CycleBit(t: Entry, bit: bool)
    requires Valid(t)
    ensures ReadBits(Control(t), 0, 1) == Bit(t.cycle)
    ensures WriteBits(Control(t), 0, 1, Bit(bit)) == Ok(Control(t.(cycle := bit)))
  {
    var u := t.(cycle := bit);
    CycleSplits(t);
    CycleSplits(u);
    SplitWrites(Control(t), Control(u), AboveCycle(t), Bit(t.cycle), 0, 0, 1, Bit(bit));
  }

  /** `set_toggle_cycle` replaces bit 1 and nothing else. */
  lemma ToggleBit(t: Entry, bit: bool)
    requires Valid(t)
    ensures ReadBits(Control(t), 1, 1) == Bit(t.toggle)
    ensures WriteBits(Control(t), 1, 1, Bit(bit)) == Ok(Control(t.(toggle := bit)))
  {
    var u := t.(toggle := bit);
    ToggleSplits(t);
    ToggleSplits(u);
    SplitWrites(Control(t), Control(u), AboveToggle(t), Bit(t.toggle), Bit(t.cycle), 1, 1, Bit(bit));
  }

  /** `trb_type` reads bits 10 to 15; `set_trb_type` replaces them and nothing else. */
  lemma KindField(t: Entry, kind: nat)
    requires Valid(t) && kind < 64
    ensures ReadBits(Control(t), 10, 6) == t.kind
    ensures WriteBits(Control(t), 10, 6, kind) == Ok(Control(t.(kind := kind)))
  {
    var u := t.(kind := kind);
    KindSplits(t);
    KindSplits(u);
    SplitWrites(Control(t), Control(u), AboveKind(t), t.kind, BelowKind(t), 10, 6, kind);
  }

  /** `slot_id` reads bits 24 to 31 of a word of 32; `set_slot_id` replaces them and nothing else. */
  lemma SlotField(t: Entry, slot: nat)
    requires Valid(t) && slot < 256
    ensures ReadBits(Control(t), 24, 8) == t.slot && Control(t) < Pow2(32)
    ensures WriteBits(Control(t), 24, 8, slot) == Ok(Control(t.(slot := slot)))
  {
    var u := t.(slot := slot);
    SlotSplits(t);
    SlotSplits(u);
    SplitWrites(Control(t), Control(u), 0, t.slot, BelowSlot(t), 24, 8, slot);
  }
}
