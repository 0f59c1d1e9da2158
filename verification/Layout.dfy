/** The 64 data bits of a CAN frame and the bit ranges DBC signals occupy in them.
    Bit `i` of the frame is bit `i % 8` of byte `i / 8`. A little-endian range starts at
    its least significant bit; a big-endian (Motorola) range starts at its most
    significant bit. */
module Layout {
  type Data = d: seq<bool> | |d| == 64 witness seq(64, i => false)

  function ZeroData(): (d: Data)
    ensures forall i :: 0 <= i < 64 ==> !d[i]
  {
    seq(64, i => false)
  }

  datatype BitRange = BitRange(start: nat, length: nat, isBigEndian: bool)

  /** Where frame bit `i` lands once the eight bytes are packed big-endian. */
  function Mirror(i: nat): (m: nat)
    requires i < 64
    ensures m < 64
  {
    (7 - i / 8) * 8 + i % 8
  }

  predicate InFrame(r: BitRange) {
    && 1 <= r.length
    && if r.isBigEndian then r.start < 64 && r.length <= Mirror(r.start) + 1
       else r.start + r.length <= 64
  }

  /** The weight frame bit `i` has in the word stored in `r`; outside `[0, r.length)`
      when the bit is not part of the range. */
  function Weight(r: BitRange, i: nat): int
    requires InFrame(r) && i < 64
  {
    if r.isBigEndian then Mirror(i) - (Mirror(r.start) + 1 - r.length) else i - r.start
  }

  predicate Covers(r: BitRange, i: nat)
    requires InFrame(r) && i < 64
  {
    0 <= Weight(r, i) < r.length
  }

  /** The frame bit that holds the bit of weight `j`. */
  function BitAt(r: BitRange, j: nat): (i: nat)
    requires InFrame(r) && j < r.length
    ensures i < 64 && Weight(r, i) == j
  {
    if r.isBigEndian then Mirror(Mirror(r.start) + 1 - r.length + j) else r.start + j
  }

  lemma MirrorTwice(i: nat)
    requires i < 64
    ensures Mirror(Mirror(i)) == i
  {
  }

  /** A range occupies exactly the bits `BitAt` enumerates, each once. */
  lemma BitAtIsInverse(r: BitRange, i: nat)
    requires InFrame(r) && i < 64
    ensures Covers(r, i) <==> exists j: nat :: j < r.length && BitAt(r, j) == i
    ensures Covers(r, i) ==> BitAt(r, Weight(r, i)) == i
  {
    if Covers(r, i) {
      MirrorTwice(i);
      assert BitAt(r, Weight(r, i)) == i;
    }
  }

  /** The bit after `i` on the Motorola walk towards less significant bits. */
  function Sawtooth(i: nat): int {
    if i % 8 == 0 then i + 15 else i - 1
  }

  lemma MirrorDown(p: nat)
    requires 0 < p < 64
    ensures Mirror(p - 1) == Sawtooth(Mirror(p))
  {
    assert p == 8 * (p / 8) + p % 8;
    if p % 8 == 0 {
      assert (p - 1) / 8 == p / 8 - 1 && (p - 1) % 8 == 7;
    } else {
      assert (p - 1) / 8 == p / 8 && (p - 1) % 8 == p % 8 - 1;
    }
    assert Mirror(p) % 8 == p % 8;
  }

  /** Both numbering schemes as a walk over the frame. Intel: from the start bit upwards,
      in order of significance. Motorola: from the start bit, the most significant one,
      downwards in each byte and on to bit 7 of the next byte. */
  lemma WalkOrder(r: BitRange, j: nat)
    requires InFrame(r) && j < r.length
    ensures !r.isBigEndian ==> BitAt(r, 0) == r.start
    ensures !r.isBigEndian && j > 0 ==> BitAt(r, j) == BitAt(r, j - 1) + 1
    ensures r.isBigEndian ==> BitAt(r, r.length - 1) == r.start
    ensures r.isBigEndian && j > 0 ==>
              BitAt(r, j - 1) == if BitAt(r, j) % 8 == 0 then BitAt(r, j) + 15 else BitAt(r, j) - 1
  {
    if r.isBigEndian {
      MirrorTwice(r.start);
      var p := Mirror(r.start) + 1 - r.length + j;
      if j > 0 {
        MirrorDown(p);
      }
    }
  }

  /** Overwrites the bits of `r` with `word`, least significant bit first. */
  function Write(d: Data, r: BitRange, word: seq<bool>): Data
    requires InFrame(r) && |word| == r.length
  {
    seq(64, i requires 0 <= i < 64 => if Covers(r, i) then word[Weight(r, i)] else d[i])
  }

  function Read(d: Data, r: BitRange): (word: seq<bool>)
    requires InFrame(r)
    ensures |word| == r.length
  {
    seq(r.length, j requires 0 <= j < r.length => d[BitAt(r, j)])
  }

  lemma ReadCovered(d: Data, r: BitRange, i: nat)
    requires InFrame(r) && i < 64 && Covers(r, i)
    ensures Read(d, r)[Weight(r, i)] == d[i]
  {
    BitAtIsInverse(r, i);
  }

  ghost predicate Disjoint(r: BitRange, t: BitRange)
    requires InFrame(r) && InFrame(t)
  {
    forall i :: 0 <= i < 64 ==> !(Covers(r, i) && Covers(t, i))
  }

  lemma ReadWritten(d: Data, r: BitRange, word: seq<bool>)
    requires InFrame(r) && |word| == r.length
    ensures Read(Write(d, r, word), r) == word
  {
  }

  lemma ReadElsewhere(d: Data, r: BitRange, word: seq<bool>, t: BitRange)
    requires InFrame(r) && |word| == r.length && InFrame(t) && Disjoint(r, t)
    ensures Read(Write(d, r, word), t) == Read(d, t)
  {
  }
}
