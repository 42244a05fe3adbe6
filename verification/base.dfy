/**
 Fixed-width integers, an Option type and the few arithmetic helpers the
 rest of the model shares. Dafny integers are unbounded, so every C width
 used by the tool is written out here as a subset type.
 */
module Base {

  datatype Option<+T> = None | Some(value: T)

  type byte = x: int | 0 <= x < 0x100
  type u16 = x: int | 0 <= x < 0x1_0000
  type u32 = x: int | 0 <= x < 0x1_0000_0000

  /** 2 to the power k. */
  function Pow2(k: nat): (r: nat)
    ensures r >= 1
  {
    if k == 0 then 1 else 2 * Pow2(k - 1)
  }

  lemma {:induction false} Pow2Monotone(j: nat, k: nat)
    requires j < k
    ensures Pow2(j) < Pow2(k)
  {
    if k == j + 1 {
    } else {
      Pow2Monotone(j, k - 1);
    }
  }

  /** A signed C value stored into a 32-bit unsigned variable (two's complement wrap). */
  function ToU32(x: int): (r: u32)
    ensures 0 <= x < 0x1_0000_0000 ==> r == x
    ensures -0x1_0000_0000 <= x < 0 ==> r == x + 0x1_0000_0000
  {
    x % 0x1_0000_0000
  }

  /** A 32-bit unsigned value read back as a signed 32-bit int. */
  function ToInt32(v: u32): (r: int)
    ensures -0x8000_0000 <= r < 0x8000_0000
    ensures ToU32(r) == v
  {
    if v < 0x8000_0000 then v else v - 0x1_0000_0000
  }

  /** Two bytes read in little-endian order: `(hi << 8) + lo`. */
  function LittleEndian16(lo: byte, hi: byte): (v: u16)
    ensures v % 0x100 == lo && v / 0x100 == hi
  {
    hi * 0x100 + lo
  }

  /** How many of the optional values are present. */
  function CountSome<T>(s: seq<Option<T>>): (n: nat)
    ensures n <= |s|
  {
    if |s| == 0 then 0 else (if s[0].Some? then 1 else 0) + CountSome(s[1..])
  }

  /**
   The present values of a row of optional slots, in slot order, where the
   value in slot k has rank `from + k`: the way a printer emits one line or
   column per attribute present, in a fixed order.
   */
  function Present<T>(slots: seq<Option<T>>, rank: T -> nat, from: nat): (vs: seq<T>)
    requires forall k | 0 <= k < |slots| :: slots[k].Some? ==> rank(slots[k].value) == from + k
    ensures |vs| == CountSome(slots)
    ensures forall v | v in vs :: Some(v) in slots && from <= rank(v)
    ensures forall k, l | 0 <= k < l < |vs| :: rank(vs[k]) < rank(vs[l])
    decreases |slots|
  {
    if |slots| == 0 then []
    else
      var rest := Present(slots[1..], rank, from + 1);
      assert forall v | v in rest :: Some(v) in slots;
      if slots[0].Some? then [slots[0].value] + rest else rest
  }

  /** Every present slot reaches the output. */
  lemma {:induction false} PresentKeeps<T>(slots: seq<Option<T>>, rank: T -> nat, from: nat, k: nat)
    requires forall j | 0 <= j < |slots| :: slots[j].Some? ==> rank(slots[j].value) == from + j
    requires k < |slots| && slots[k].Some?
    ensures slots[k].value in Present(slots, rank, from)
    decreases |slots|
  {
    if k > 0 {
      PresentKeeps(slots[1..], rank, from + 1, k - 1);
    }
  }

  /** A value is printed exactly when some slot holds it. */
  lemma PresentHas<T>(slots: seq<Option<T>>, rank: T -> nat, from: nat, v: T)
    requires forall j | 0 <= j < |slots| :: slots[j].Some? ==> rank(slots[j].value) == from + j
    ensures v in Present(slots, rank, from) <==> Some(v) in slots
  {
    if Some(v) in slots {
      var k :| 0 <= k < |slots| && slots[k] == Some(v);
      PresentKeeps(slots, rank, from, k);
    }
  }
}
