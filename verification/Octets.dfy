/** Bytes, 64-bit words and the little-endian block codec of src/DSSE.cpp. */
module Octets {

  const TWO64: int := 0x1_0000_0000_0000_0000

  type byte = x: int | 0 <= x < 0x100
  type u64 = x: int | 0 <= x < TWO64

  type Bytes = seq<byte>
  type Word = Bytes

  // Marks an unused slot of a block of file ids or of pointers.
  const INVALID: u64 := 0xFFFF_FFFF_FFFF_FFFF

  /** The eight bytes of `value`, least significant first. */
  function PutU64(value: u64): (bytes: Bytes)
    ensures |bytes| == 8
  {
    [value % 0x100,
     value / 0x100 % 0x100,
     value / 0x1_0000 % 0x100,
     value / 0x100_0000 % 0x100,
     value / 0x1_0000_0000 % 0x100,
     value / 0x100_0000_0000 % 0x100,
     value / 0x1_0000_0000_0000 % 0x100,
     value / 0x100_0000_0000_0000 % 0x100]
  }

  function GetU64(bytes: Bytes): u64
    requires |bytes| >= 8
  {
    (bytes[0] as int)
    + 0x100 * (bytes[1] as int)
    + 0x1_0000 * (bytes[2] as int)
    + 0x100_0000 * (bytes[3] as int)
    + 0x1_0000_0000 * (bytes[4] as int)
    + 0x100_0000_0000 * (bytes[5] as int)
    + 0x1_0000_0000_0000 * (bytes[6] as int)
    + 0x100_0000_0000_0000 * (bytes[7] as int)
  }

  function Low(v: nat): byte { v % 0x100 }

  function High(v: nat): nat { v / 0x100 }

  // One byte off the end of a number.
  lemma SplitByte(v: nat)
    ensures v == Low(v) as int + 0x100 * High(v)
  {
  }

  // The shifts of PutU64, one byte at a time.
  lemma Shift(value: nat)
    ensures value / 0x1_0000 == value / 0x100 / 0x100
    ensures value / 0x100_0000 == value / 0x1_0000 / 0x100
    ensures value / 0x1_0000_0000 == value / 0x100_0000 / 0x100
    ensures value / 0x100_0000_0000 == value / 0x1_0000_0000 / 0x100
    ensures value / 0x1_0000_0000_0000 == value / 0x100_0000_0000 / 0x100
    ensures value / 0x100_0000_0000_0000 == value / 0x1_0000_0000_0000 / 0x100
  {
  }

  // A number from its bytes, lowest first.
  lemma Horner(v0: nat, v1: nat, v2: nat, v3: nat, v4: nat, v5: nat, v6: nat, b: Bytes)
    requires |b| == 8
    requires v0 == b[0] as int + 0x100 * v1 && v1 == b[1] as int + 0x100 * v2 && v2 == b[2] as int + 0x100 * v3
    requires v3 == b[3] as int + 0x100 * v4 && v4 == b[4] as int + 0x100 * v5 && v5 == b[5] as int + 0x100 * v6
    requires v6 == b[6] as int + 0x100 * (b[7] as int)
    ensures GetU64(b) == v0
  {
  }

  lemma PutIs(value: u64)
    ensures var v1 := High(value); var v2 := High(v1); var v3 := High(v2); var v4 := High(v3);
            var v5 := High(v4); var v6 := High(v5);
            && High(v6) < 0x100
            && PutU64(value) == [Low(value), Low(v1), Low(v2), Low(v3), Low(v4), Low(v5), Low(v6), High(v6)]
  {
    Shift(value);
  }

  lemma GetPut(value: u64)
    ensures GetU64(PutU64(value)) == value
  {
    hide GetU64, PutU64, Low, High;
    PutIs(value);
    var v1 := High(value);
    var v2 := High(v1);
    var v3 := High(v2);
    var v4 := High(v3);
    var v5 := High(v4);
    var v6 := High(v5);
    SplitByte(value);
    SplitByte(v1);
    SplitByte(v2);
    SplitByte(v3);
    SplitByte(v4);
    SplitByte(v5);
    SplitByte(v6);
    Horner(value, v1, v2, v3, v4, v5, v6, PutU64(value));
  }

  lemma PopByte(low: byte, high: nat)
    ensures Low(low as int + 0x100 * high) == low && High(low as int + 0x100 * high) == high
  {
  }

  lemma PutGet(bytes: Bytes)
    requires |bytes| == 8
    ensures PutU64(GetU64(bytes)) == bytes
  {
    hide GetU64, PutU64, Low, High;
    var v6: nat := bytes[6] as int + 0x100 * (bytes[7] as int);
    var v5: nat := bytes[5] as int + 0x100 * v6;
    var v4: nat := bytes[4] as int + 0x100 * v5;
    var v3: nat := bytes[3] as int + 0x100 * v4;
    var v2: nat := bytes[2] as int + 0x100 * v3;
    var v1: nat := bytes[1] as int + 0x100 * v2;
    var v: nat := bytes[0] as int + 0x100 * v1;
    Horner(v, v1, v2, v3, v4, v5, v6, bytes);
    PutIs(v);
    PopByte(bytes[0], v1);
    PopByte(bytes[1], v2);
    PopByte(bytes[2], v3);
    PopByte(bytes[3], v4);
    PopByte(bytes[4], v5);
    PopByte(bytes[5], v6);
    PopByte(bytes[6], bytes[7]);
  }

  /** A block: the encodings of `values`, one after the other. */
  function EncodeBlock(values: seq<u64>): (block: Bytes)
    ensures |block| == 8 * |values|
  {
    if values == [] then [] else EncodeBlock(values[..|values| - 1]) + PutU64(values[|values| - 1])
  }

  function DecodeBlock(block: Bytes, count: nat): (values: seq<u64>)
    requires |block| >= 8 * count
    ensures |values| == count
  {
    seq<u64>(count, i requires 0 <= i < count => GetU64(block[8 * i..8 * i + 8]))
  }

  lemma {:induction false} SlotOfBlock(values: seq<u64>, i: nat)
    requires i < |values|
    ensures EncodeBlock(values)[8 * i..8 * i + 8] == PutU64(values[i])
  {
    var init := values[..|values| - 1];
    if i < |init| {
      SlotOfBlock(init, i);
      assert EncodeBlock(values)[8 * i..8 * i + 8] == EncodeBlock(init)[8 * i..8 * i + 8];
    }
  }

  lemma DecodeEncode(values: seq<u64>)
    ensures DecodeBlock(EncodeBlock(values), |values|) == values
  {
    hide GetU64, PutU64, EncodeBlock;
    forall i | 0 <= i < |values|
      ensures DecodeBlock(EncodeBlock(values), |values|)[i] == values[i]
    {
      SlotOfBlock(values, i);
      GetPut(values[i]);
    }
  }

  /** `putu64(value, &buffer[offset])`. */
  method PutU64At(value: u64, buffer: array<byte>, offset: nat)
    requires offset + 8 <= buffer.Length
    modifies buffer
    ensures buffer[offset..offset + 8] == PutU64(value)
    ensures forall i | 0 <= i < offset || offset + 8 <= i < buffer.Length :: buffer[i] == old(buffer[i])
  {
    var bytes := PutU64(value);
    buffer[offset] := bytes[0];
    buffer[offset + 1] := bytes[1];
    buffer[offset + 2] := bytes[2];
    buffer[offset + 3] := bytes[3];
    buffer[offset + 4] := bytes[4];
    buffer[offset + 5] := bytes[5];
    buffer[offset + 6] := bytes[6];
    buffer[offset + 7] := bytes[7];
    forall k | 0 <= k < 8
      ensures buffer[offset..offset + 8][k] == bytes[k]
    {
    }
  }

  /** Bitwise exclusive or, from the lowest bit up. */
  function Xor(a: nat, b: nat): nat {
    if a == 0 && b == 0 then 0 else (a % 2 + b % 2) % 2 + 2 * Xor(a / 2, b / 2)
  }

  lemma {:induction false} XorFits(a: nat, b: nat, bound: nat)
    requires a < bound && b < bound
    requires bound == 1 || (bound % 2 == 0 && IsPow2(bound))
    ensures Xor(a, b) < bound
  {
    if bound > 1 {
      XorFits(a / 2, b / 2, bound / 2);
    }
  }

  predicate IsPow2(n: nat) {
    n == 1 || (n > 1 && n % 2 == 0 && IsPow2(n / 2))
  }

  lemma XorUnfold(a: nat, b: nat)
    ensures Xor(a, b) == (a % 2 + b % 2) % 2 + 2 * Xor(a / 2, b / 2)
  {
  }

  lemma {:induction false} XorTwice(a: nat, b: nat)
    ensures Xor(Xor(a, b), b) == a
    decreases a + b
  {
    if a != 0 || b != 0 {
      hide Xor;
      var x, y, high := a % 2, b % 2, Xor(a / 2, b / 2);
      var low := (x + y) % 2;
      XorTwice(a / 2, b / 2);
      XorUnfold(a, b);
      PopBit(low, high);
      XorUnfold(low + 2 * high, b);
      BitTwice(x, y);
    }
  }

  lemma BitTwice(x: nat, y: nat)
    requires x < 2 && y < 2
    ensures ((x + y) % 2 + y) % 2 == x
  {
  }

  lemma PopBit(low: nat, high: nat)
    requires low < 2
    ensures (low + 2 * high) % 2 == low && (low + 2 * high) / 2 == high
  {
  }

  function XorByte(a: byte, b: byte): byte {
    XorFits(a, b, 0x100);
    Xor(a, b)
  }
}
