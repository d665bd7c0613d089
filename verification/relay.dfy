/**
 * Relay outputs of the relay firmware. A 32-bit relay mask drives 24 relays:
 * bits 0..15 on port C pins 0..15, bits 16..19 on port D pins 0..3 and bits
 * 20..23 on port A pins 4..7. Each port is written through its bit set/reset
 * register (BSRR), whose low half sets pins and whose high half resets them.
 */
module Relay {
  /** The three BSRR words one `Relay_Update` writes. */
  datatype Bsrr = Bsrr(pc: bv32, pd: bv32, pa: bv32)

  /** Bit `k` of a 32-bit word. */
  predicate Bit(w: bv32, k: bv32)
    requires k < 32
  {
    (w >> k) & 1 == 1
  }

  /** `Relay_Update`: the set half of each word holds the mask bits of the
      port's relays and the reset half their complement. */
  function Update(mask: bv32): (r: Bsrr)
    ensures r.pd & 0xFFF0_FFF0 == 0
    ensures r.pa & 0xFF0F_FF0F == 0
  {
    var pcSet := mask & 0x0000_FFFF;
    var pcReset := !mask & 0x0000_FFFF;
    var pdSet := (mask >> 16) & 0x000F;
    var pdReset := (!mask >> 16) & 0x000F;
    var paSet := (mask >> 20) & 0x000F;
    var paReset := (!mask >> 20) & 0x000F;
    Bsrr((pcReset << 16) | pcSet, (pdReset << 16) | pdSet, (paReset << (16 + 4)) | (paSet << 4))
  }

  /** The set and reset halves of every word are disjoint and together cover
      exactly the port's relay pins, so each pin is either set or reset. */
  lemma SetResetPartition(mask: bv32)
    ensures var r := Update(mask);
      && (r.pc >> 16) & (r.pc & 0xFFFF) == 0 && (r.pc >> 16) | (r.pc & 0xFFFF) == 0xFFFF
      && (r.pd >> 16) & (r.pd & 0xFFFF) == 0 && (r.pd >> 16) | (r.pd & 0xFFFF) == 0x000F
      && (r.pa >> 16) & (r.pa & 0xFFFF) == 0 && (r.pa >> 16) | (r.pa & 0xFFFF) == 0x00F0
  {
  }

  /** Where relay bit `k` (0-based) is wired: its port word and pin. */
  datatype Port = PortC | PortD | PortA

  function PortOf(k: bv32): Port
    requires k < 24
  {
    if k < 16 then PortC else if k < 20 then PortD else PortA
  }

  function PinOf(k: bv32): (pin: bv32)
    requires k < 24
    ensures pin < 16
  {
    if k < 16 then k else k - 16
  }

  function WordFor(r: Bsrr, p: Port): bv32 {
    match p
    case PortC => r.pc
    case PortD => r.pd
    case PortA => r.pa
  }

  /** Relay by relay: the pin wired to mask bit `k` is set exactly when the
      bit is 1 and reset exactly when it is 0. */
  lemma PinFollowsMask(mask: bv32, k: bv32)
    requires k < 24
    ensures var w := WordFor(Update(mask), PortOf(k));
      && (Bit(w, PinOf(k)) <==> Bit(mask, k))
      && (Bit(w, PinOf(k) + 16) <==> !Bit(mask, k))
  {
    var r := Update(mask);
    if k < 16 {
      PortCPin(mask, k);
    } else if k < 20 {
      PortDPin(mask, k);
    } else {
      PortAPin(mask, k);
    }
  }

  lemma PortCPin(mask: bv32, k: bv32)
    requires k < 16
    ensures (Bit(Update(mask).pc, k) <==> Bit(mask, k)) && (Bit(Update(mask).pc, k + 16) <==> !Bit(mask, k))
  {
  }

  lemma PortDPin(mask: bv32, k: bv32)
    requires 16 <= k < 20
    ensures (Bit(Update(mask).pd, k - 16) <==> Bit(mask, k)) && (Bit(Update(mask).pd, k) <==> !Bit(mask, k))
  {
  }

  lemma PortAPin(mask: bv32, k: bv32)
    requires 20 <= k < 24
    ensures (Bit(Update(mask).pa, k - 16) <==> Bit(mask, k)) && (Bit(Update(mask).pa, k) <==> !Bit(mask, k))
  {
  }

  /** Mask bits 24..31 reach no register. */
  lemma UpperBitsIgnored(mask: bv32)
    ensures Update(mask) == Update(mask & 0x00FF_FFFF)
  {
  }

  /** `relay_state |= 1UL << (relay - 1)`. The relay number must be 1..32:
      0 or more than 32 shifts by a negative or too large amount, which C
      leaves undefined. */
  function RelayOff(state: bv32, relay: bv8): (s: bv32)
    requires 1 <= relay <= 32
    ensures Bit(s, (relay - 1) as bv32)
    ensures forall k: bv32 :: k < 32 && k != (relay - 1) as bv32 ==> (Bit(s, k) <==> Bit(state, k))
  {
    var j := (relay - 1) as bv32;
    SetBit(state, j);
    state | (1 << j)
  }

  /** `relay_state &= ~(1UL << (relay - 1))`, with the same range. */
  function RelayOn(state: bv32, relay: bv8): (s: bv32)
    requires 1 <= relay <= 32
    ensures !Bit(s, (relay - 1) as bv32)
    ensures forall k: bv32 :: k < 32 && k != (relay - 1) as bv32 ==> (Bit(s, k) <==> Bit(state, k))
  {
    var j := (relay - 1) as bv32;
    ClearBit(state, j);
    state & !(1 << j)
  }

  /** Clearing bit `j` clears it and keeps every other bit. */
  lemma ClearBit(state: bv32, j: bv32)
    requires j < 32
    ensures !Bit(state & !(1 << j), j)
    ensures forall k: bv32 :: k < 32 && k != j ==> (Bit(state & !(1 << j), k) <==> Bit(state, k))
  {
    forall k: bv32 | k < 32 && k != j
      ensures Bit(state & !(1 << j), k) <==> Bit(state, k)
    {
      ClearOtherBit(state, j, k);
    }
    ClearOwnBit(state, j);
  }

  /** Setting bit `j` sets it and keeps every other bit. */
  lemma SetBit(state: bv32, j: bv32)
    requires j < 32
    ensures Bit(state | (1 << j), j)
    ensures forall k: bv32 :: k < 32 && k != j ==> (Bit(state | (1 << j), k) <==> Bit(state, k))
  {
    forall k: bv32 | k < 32 && k != j
      ensures Bit(state | (1 << j), k) <==> Bit(state, k)
    {
      SetOtherBit(state, j, k);
    }
    SetOwnBit(state, j);
  }

  lemma SetOwnBit(state: bv32, j: bv32)
    requires j < 32
    ensures Bit(state | (1 << j), j)
  {
  }

  lemma SetOtherBit(state: bv32, j: bv32, k: bv32)
    requires j < 32 && k < 32 && k != j
    ensures Bit(state | (1 << j), k) <==> Bit(state, k)
  {
  }

  lemma ClearOwnBit(state: bv32, j: bv32)
    requires j < 32
    ensures !Bit(state & !(1 << j), j)
  {
  }

  lemma ClearOtherBit(state: bv32, j: bv32, k: bv32)
    requires j < 32 && k < 32 && k != j
    ensures Bit(state & !(1 << j), k) <==> Bit(state, k)
  {
  }

  /** Switching a relay off and on again restores the state when it was on,
      and either operation applied twice is the same as once. */
  lemma OnUndoesOff(state: bv32, relay: bv8)
    requires 1 <= relay <= 32
    ensures !Bit(state, (relay - 1) as bv32) ==> RelayOn(RelayOff(state, relay), relay) == state
    ensures RelayOff(RelayOff(state, relay), relay) == RelayOff(state, relay)
    ensures RelayOn(RelayOn(state, relay), relay) == RelayOn(state, relay)
  {
  }

  /** The mask with bits 0..n-1 set. */
  function LowBits(n: nat): (m: bv32)
    requires n <= 32
  {
    if n == 32 then 0xFFFF_FFFF else (1 << n) - 1
  }

  /** `LowBits(n)` has exactly the bits below `n`. */
  lemma LowBitsExactly(n: nat, k: bv32)
    requires n <= 32 && k < 32
    ensures Bit(LowBits(n), k) <==> k < n as bv32
  {
  }

  /** Or-ing in bit `n` extends the run of low bits by one. */
  lemma LowBitsGrow(n: nat)
    requires n < 32
    ensures LowBits(n) | (1 << n) == LowBits(n + 1)
  {
    var m: bv32 := 1 << n;
    if n == 31 {
      assert LowBits(n) == 0x7FFF_FFFF && m == 0x8000_0000;
    } else {
      assert LowBits(n + 1) == (m << 1) - 1;
    }
  }

  /** `Relay_Test_All`: set the relays one by one, writing the mask after
      each, then write 0. The delays are left out. */
  method RelayTestAll() returns (writes: seq<bv32>)
    ensures |writes| == 25
    ensures forall i :: 0 <= i < 24 ==> writes[i] == LowBits(i + 1)
    ensures writes[24] == 0
  {
    var mask: bv32 := 0;
    writes := [];
    var i := 0;
    while i < 24
      invariant 0 <= i <= 24
      invariant |writes| == i
      invariant mask == LowBits(i)
      invariant forall j :: 0 <= j < i ==> writes[j] == LowBits(j + 1)
    {
      LowBitsGrow(i);
      mask := mask | (1 << i);
      writes := writes + [mask];
      i := i + 1;
    }
    writes := writes + [0];
  }
}
