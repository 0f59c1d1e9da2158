/** The four in-place setters a frame's data offers: little- or big-endian, unsigned or
    signed. Each overwrites exactly the bits of its range. */
module FrameBuffer {
  import opened Bits
  import opened Layout

  method SetWord(data: array<bool>, r: BitRange, word: seq<bool>)
    requires data.Length == 64 && InFrame(r) && |word| == r.length
    modifies data
    ensures data[..] == Write(old(data[..]), r, word)
  {
    forall i | 0 <= i < 64 && Covers(r, i) {
      data[i] := word[Weight(r, i)];
    }
  }

  /** The word of `value` puts bit `w` of its binary, or two's complement, form at the frame
      bit of weight `w`. */
  lemma WordHolds(r: BitRange, u: nat, value: int)
    requires InFrame(r) && (u == value || u == value + Pow2(r.length))
    ensures forall i :: 0 <= i < 64 && Covers(r, i) ==>
              (ToBits(u, r.length)[Weight(r, i)] <==> value / Pow2(Weight(r, i)) % 2 == 1)
  {
    forall i | 0 <= i < 64 && Covers(r, i)
      ensures ToBits(u, r.length)[Weight(r, i)] <==> value / Pow2(Weight(r, i)) % 2 == 1
    {
      ToBitsAt(u, value, r.length, Weight(r, i));
    }
  }

  method SetUnsignedBitsLittleEndian(data: array<bool>, start: nat, length: nat, value: nat)
    requires data.Length == 64 && InFrame(BitRange(start, length, false)) && value < Pow2(length)
    modifies data
    ensures data[..] == Write(old(data[..]), BitRange(start, length, false), ToBits(value, length))
    ensures forall i :: 0 <= i < 64 ==>
              data[i] == if Covers(BitRange(start, length, false), i)
                         then value / Pow2(Weight(BitRange(start, length, false), i)) % 2 == 1 else old(data[i])
  {
    WordHolds(BitRange(start, length, false), value, value);
    SetWord(data, BitRange(start, length, false), ToBits(value, length));
  }

  method SetSignedBitsLittleEndian(data: array<bool>, start: nat, length: nat, value: int)
    requires data.Length == 64 && InFrame(BitRange(start, length, false))
    requires -Pow2(length - 1) <= value < Pow2(length - 1)
    modifies data
    ensures data[..] ==
            Write(old(data[..]), BitRange(start, length, false), ToBits(AsUnsigned(value, length), length))
    ensures forall i :: 0 <= i < 64 ==>
              data[i] == if Covers(BitRange(start, length, false), i)
                         then value / Pow2(Weight(BitRange(start, length, false), i)) % 2 == 1 else old(data[i])
  {
    WordHolds(BitRange(start, length, false), AsUnsigned(value, length), value);
    SetUnsignedBitsLittleEndian(data, start, length, AsUnsigned(value, length));
  }

  method SetUnsignedBitsBigEndian(data: array<bool>, start: nat, length: nat, value: nat)
    requires data.Length == 64 && InFrame(BitRange(start, length, true)) && value < Pow2(length)
    modifies data
    ensures data[..] == Write(old(data[..]), BitRange(start, length, true), ToBits(value, length))
    ensures forall i :: 0 <= i < 64 ==>
              data[i] == if Covers(BitRange(start, length, true), i)
                         then value / Pow2(Weight(BitRange(start, length, true), i)) % 2 == 1 else old(data[i])
  {
    WordHolds(BitRange(start, length, true), value, value);
    SetWord(data, BitRange(start, length, true), ToBits(value, length));
  }

  method SetSignedBitsBigEndian(data: array<bool>, start: nat, length: nat, value: int)
    requires data.Length == 64 && InFrame(BitRange(start, length, true))
    requires -Pow2(length - 1) <= value < Pow2(length - 1)
    modifies data
    ensures data[..] ==
            Write(old(data[..]), BitRange(start, length, true), ToBits(AsUnsigned(value, length), length))
    ensures forall i :: 0 <= i < 64 ==>
              data[i] == if Covers(BitRange(start, length, true), i)
                         then value / Pow2(Weight(BitRange(start, length, true), i)) % 2 == 1 else old(data[i])
  {
    WordHolds(BitRange(start, length, true), AsUnsigned(value, length), value);
    SetUnsignedBitsBigEndian(data, start, length, AsUnsigned(value, length));
  }
}
