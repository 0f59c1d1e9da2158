/** DBC signal definitions and the conversion between physical values and raw words:
    clamp to the declared range, affine map, saturation to the bit width, and Go's
    truncating conversion to an integer. */
module Physical {
  import opened Bits
  import opened Layout

  datatype SignalDef = SignalDef(
    name: string,
    start: nat,
    length: nat,
    isBigEndian: bool,
    isSigned: bool,
    isMultiplexer: bool,
    isMultiplexed: bool,
    multiplexerValue: nat,
    scale: real,
    offset: real,
    min: real,
    max: real,
    unit: string
  ) {
    function Range(): BitRange {
      BitRange(start, length, isBigEndian)
    }

    /** The bits fit the frame and the affine map can be undone. */
    predicate Usable() {
      InFrame(Range()) && scale != 0.0
    }

    predicate HasLimits() {
      min != 0.0 || max != 0.0
    }

    function MinRaw(): (r: int)
      requires length >= 1
      ensures r <= 0
    {
      if isSigned then -Pow2(length - 1) else 0
    }

    function MaxRaw(): (r: int)
      requires length >= 1
      ensures r >= 0
    {
      if isSigned then Pow2(length - 1) - 1 else Pow2(length) - 1
    }
  }

  function Min(x: real, y: real): real { if x <= y then x else y }

  function Max(x: real, y: real): real { if x >= y then x else y }

  function Abs(x: real): real { if x >= 0.0 then x else -x }

  lemma AbsoluteValue(x: real)
    ensures Abs(x) >= 0.0 && (Abs(x) == x || Abs(x) == -x)
  {
  }

  /** Conversion of a floating point value to an integer drops the fraction. */
  function Trunc(x: real): int {
    if x >= 0.0 then x.Floor else -(-x).Floor
  }

  /** Min and Max both zero means that no range is declared. */
  function Clamp(s: SignalDef, p: real): real {
    if s.HasLimits() then Max(Min(p, s.max), s.min) else p
  }

  function Scaled(s: SignalDef, raw: real): real {
    raw * s.scale + s.offset
  }

  function ToPhysical(s: SignalDef, raw: real): real {
    Clamp(s, Scaled(s, raw))
  }

  function Unscale(s: SignalDef, p: real): real
    requires s.scale != 0.0
  {
    (p - s.offset) / s.scale
  }

  function Saturate(s: SignalDef, x: real): (r: real)
    requires s.length >= 1
    ensures s.MinRaw() as real <= r <= s.MaxRaw() as real
  {
    Max(s.MinRaw() as real, Min(s.MaxRaw() as real, x))
  }

  function FromPhysical(s: SignalDef, p: real): (r: real)
    requires s.Usable()
    ensures s.MinRaw() as real <= r <= s.MaxRaw() as real
  {
    Saturate(s, Unscale(s, Clamp(s, p)))
  }

  /** The integer an encoder writes for physical value `p`; it always fits the signal. */
  function EncodeRaw(s: SignalDef, p: real): (raw: int)
    requires s.Usable()
    ensures s.MinRaw() <= raw <= s.MaxRaw()
  {
    Trunc(FromPhysical(s, p))
  }

  /** The word that stores a raw value: plain binary or two's complement. */
  function WordOf(s: SignalDef, raw: int): (word: seq<bool>)
    requires s.length >= 1 && s.MinRaw() <= raw <= s.MaxRaw()
    ensures |word| == s.length
  {
    ToBits(if s.isSigned then AsUnsigned(raw, s.length) else raw, s.length)
  }

  function RawOf(s: SignalDef, word: seq<bool>): (raw: int)
    requires s.length >= 1 && |word| == s.length
    ensures s.MinRaw() <= raw <= s.MaxRaw()
  {
    if s.isSigned then AsSigned(FromBits(word), s.length) else FromBits(word)
  }

  /** The physical value of a stored word. A one-bit signal is decoded as its bit, with
      neither scaling nor range. */
  function DecodeWord(s: SignalDef, word: seq<bool>): real
    requires s.length >= 1 && |word| == s.length
  {
    if s.length == 1 then (if word[0] then 1.0 else 0.0)
    else ToPhysical(s, RawOf(s, word) as real)
  }

  lemma RawOfWord(s: SignalDef, raw: int)
    requires s.length >= 1 && s.MinRaw() <= raw <= s.MaxRaw()
    ensures RawOf(s, WordOf(s, raw)) == raw
  {
    FromToBits(if s.isSigned then AsUnsigned(raw, s.length) else raw, s.length);
  }

  lemma WordOfRaw(s: SignalDef, word: seq<bool>)
    requires s.length >= 1 && |word| == s.length
    ensures WordOf(s, RawOf(s, word)) == word
  {
    ToFromBits(word);
  }

  /** The stored word bit by bit: bit `j` of the raw value in binary, or in two's complement,
      where the division rounds down below zero too. */
  lemma WordBits(s: SignalDef, raw: int, j: nat)
    requires s.length >= 1 && s.MinRaw() <= raw <= s.MaxRaw() && j < s.length
    ensures WordOf(s, raw)[j] <==> raw / Pow2(j) % 2 == 1
  {
    ToBitsAt(if s.isSigned then AsUnsigned(raw, s.length) else raw, raw, s.length, j);
  }

  /** A word stands for the one raw value in the signal's range that has its bits. */
  lemma RawBits(s: SignalDef, word: seq<bool>, raw: int)
    requires s.length >= 1 && |word| == s.length && s.MinRaw() <= raw <= s.MaxRaw()
    ensures RawOf(s, word) == raw <==> forall j :: 0 <= j < s.length ==> (word[j] <==> raw / Pow2(j) % 2 == 1)
  {
    forall j | 0 <= j < s.length
      ensures WordOf(s, raw)[j] <==> raw / Pow2(j) % 2 == 1
    {
      WordBits(s, raw, j);
    }
    RawOfWord(s, raw);
    WordOfRaw(s, word);
    if forall j :: 0 <= j < s.length ==> (word[j] <==> raw / Pow2(j) % 2 == 1) {
      assert word == WordOf(s, raw);
    }
  }

  /** What the encoder computes, step by step from the definition's own fields: `q` is `p`
      moved into the declared range, the minimum winning where the limits cross; `x` is where
      the affine map takes the value `q`; the raw value is `x` without its fraction, or the
      limit of the word that `x` reaches. */
  lemma EncodeMeaning(s: SignalDef, p: real, q: real, x: real, lo: int, hi: int)
    requires s.Usable()
    requires lo == if s.isSigned then -Pow2(s.length - 1) else 0
    requires hi == if s.isSigned then Pow2(s.length - 1) - 1 else Pow2(s.length) - 1
    requires q == if s.min == 0.0 && s.max == 0.0 then p
                  else if s.max < s.min || p < s.min then s.min
                  else if p > s.max then s.max else p
    requires x * s.scale + s.offset == q
    ensures x <= lo as real ==> EncodeRaw(s, p) == lo
    ensures x >= hi as real ==> EncodeRaw(s, p) == hi
    ensures lo as real <= x <= hi as real && x >= 0.0 ==> EncodeRaw(s, p) as real <= x < (EncodeRaw(s, p) + 1) as real
    ensures lo as real <= x <= hi as real && x <= 0.0 ==> (EncodeRaw(s, p) - 1) as real < x <= EncodeRaw(s, p) as real
  {
    UnscaleScaled(s, x);
    assert Scaled(s, x) == q == Clamp(s, p);
    TruncProps(Saturate(s, x));
  }

  lemma DecodeRaw(s: SignalDef, word: seq<bool>, raw: int, p: real)
    requires s.length > 1 && |word| == s.length && RawOf(s, word) == raw
    requires p == raw as real * s.scale + s.offset
    ensures DecodeWord(s, word) ==
            if s.min == 0.0 && s.max == 0.0 then p
            else if s.max < s.min || p < s.min then s.min
            else if p > s.max then s.max else p
  {
    assert Scaled(s, raw as real) == p;
  }

  /** What the decoder computes, from the definition's own fields: a one-bit signal is its
      bit; any other is the affine map `p` of the raw value that has the word's bits, moved
      into the declared range. */
  lemma DecodeMeaning(s: SignalDef, word: seq<bool>, raw: int, p: real)
    requires s.length >= 1 && |word| == s.length
    requires if s.isSigned then -Pow2(s.length - 1) <= raw < Pow2(s.length - 1) else 0 <= raw < Pow2(s.length)
    requires forall j :: 0 <= j < s.length ==> (word[j] <==> raw / Pow2(j) % 2 == 1)
    requires p == raw as real * s.scale + s.offset
    ensures s.length == 1 ==> DecodeWord(s, word) == if word[0] then 1.0 else 0.0
    ensures s.length > 1 ==>
              DecodeWord(s, word) ==
              if s.min == 0.0 && s.max == 0.0 then p
              else if s.max < s.min || p < s.min then s.min
              else if p > s.max then s.max else p
  {
    if s.length > 1 {
      RawBits(s, word, raw);
      DecodeRaw(s, word, raw, p);
    }
  }

  // ---------------------------------------------------------------- truncation

  lemma TruncProps(x: real)
    ensures Abs(x - Trunc(x) as real) < 1.0
    ensures x >= 0.0 ==> 0.0 <= Trunc(x) as real <= x
    ensures x <= 0.0 ==> x <= Trunc(x) as real <= 0.0
  {
  }

  lemma TruncInteger(n: int)
    ensures Trunc(n as real) == n
  {
  }

  // ---------------------------------------------------------------- the affine map

  lemma UnscaleScaled(s: SignalDef, x: real)
    requires s.scale != 0.0
    ensures Unscale(s, Scaled(s, x)) == x
  {
  }

  ghost predicate Between(x: real, y: real, z: real) {
    x <= y <= z || z <= y <= x
  }

  /** Clamping `q` moves it towards any already clamped value, and the affine map keeps
      that order or reverses it throughout. */
  lemma ClampMovesTowards(s: SignalDef, p: real, q: real)
    requires s.scale != 0.0
    ensures Between(Unscale(s, q), Unscale(s, Clamp(s, q)), Unscale(s, Clamp(s, p)))
         || Clamp(s, q) == q
  {
  }

  // ---------------------------------------------------------------- quantisation

  /** Saturating a value that lies between `x` and the truncation of the saturated `x`
      leaves that truncation in place. */
  lemma SaturateTowards(s: SignalDef, x: real, y: real, raw: int)
    requires s.length >= 1 && raw == Trunc(Saturate(s, x))
    requires y == raw as real || Between(raw as real, y, x)
    ensures Trunc(Saturate(s, y)) == raw
  {
  }

  lemma RequantiseAt(s: SignalDef, p: real, q: real)
    requires s.Usable() && Unscale(s, q) == EncodeRaw(s, p) as real
    ensures EncodeRaw(s, Clamp(s, q)) == EncodeRaw(s, p)
  {
    ClampMovesTowards(s, p, q);
    ClampIdempotent(s, q);
    SaturateTowards(s, Unscale(s, Clamp(s, p)), Unscale(s, Clamp(s, q)), EncodeRaw(s, p));
  }

  /** Encoding what a raw value decodes to, when that raw value came from an encoder,
      gives the raw value back, whatever the scale, the range and their alignment. */
  lemma RequantiseScaled(s: SignalDef, p: real)
    requires s.Usable()
    ensures EncodeRaw(s, ToPhysical(s, EncodeRaw(s, p) as real)) == EncodeRaw(s, p)
  {
    var x := EncodeRaw(s, p) as real;
    UnscaleScaled(s, x);
    RequantiseAt(s, p, Scaled(s, x));
  }

  lemma ClampIdempotent(s: SignalDef, p: real)
    ensures Clamp(s, Clamp(s, p)) == Clamp(s, p)
  {
  }

  /** A one-bit signal that its undecorated decoding fits: unsigned, scale 1, offset 0. */
  predicate PlainIfOneBit(s: SignalDef) {
    s.length == 1 ==> !s.isSigned && s.scale == 1.0 && s.offset == 0.0
  }

  lemma OneBitWord(s: SignalDef, raw: int)
    requires s.length == 1 && !s.isSigned && s.MinRaw() <= raw <= s.MaxRaw()
    ensures 0 <= raw <= 1
    ensures DecodeWord(s, WordOf(s, raw)) == raw as real
  {
  }

  /** Encode, decode, encode again: the second word is the first. */
  lemma EncodeDecodeEncode(s: SignalDef, p: real)
    requires s.Usable() && PlainIfOneBit(s)
    ensures EncodeRaw(s, DecodeWord(s, WordOf(s, EncodeRaw(s, p)))) == EncodeRaw(s, p)
  {
    var raw := EncodeRaw(s, p);
    RawOfWord(s, raw);
    RequantiseScaled(s, p);
    if s.length == 1 {
      OneBitWord(s, raw);
      ClampIdempotent(s, raw as real);
      assert ToPhysical(s, raw as real) == Clamp(s, raw as real);
    }
  }

  /** The raw position of a physical value before saturation and truncation. */
  function RawPosition(s: SignalDef, p: real): real
    requires s.scale != 0.0
  {
    Unscale(s, Clamp(s, p))
  }

  /** When a one-bit signal survives: the bit `p` is stored as, decoded as 0 or 1, falls on
      the same side again. */
  predicate OneBitSurvives(s: SignalDef, p: real)
    requires s.scale != 0.0
  {
    var x, zero, one := RawPosition(s, p), RawPosition(s, 0.0), RawPosition(s, 1.0);
    if s.isSigned then (if x <= -1.0 then one <= -1.0 else zero > -1.0)
    else (if x >= 1.0 then one >= 1.0 else zero < 1.0)
  }

  lemma OneBitExact(s: SignalDef, p: real)
    requires s.Usable() && s.length == 1
    ensures EncodeRaw(s, DecodeWord(s, WordOf(s, EncodeRaw(s, p)))) == EncodeRaw(s, p) <==> OneBitSurvives(s, p)
  {
    RawOfWord(s, EncodeRaw(s, p));
  }

  /** Exactly when encode, decode, encode gives the first raw value, for every signal and
      every input: always for more than one bit, else by where 0 and 1 fall. */
  lemma EncodeDecodeEncodeExact(s: SignalDef, p: real)
    requires s.Usable()
    ensures EncodeRaw(s, DecodeWord(s, WordOf(s, EncodeRaw(s, p)))) == EncodeRaw(s, p) <==>
            s.length > 1 || OneBitSurvives(s, p)
  {
    if s.length == 1 {
      OneBitExact(s, p);
    } else {
      EncodeDecodeEncode(s, p);
    }
  }

  /** The signed one-bit signal that does not: -1 is stored as a set bit, which is decoded
      as 1 and then saturates to 0. */
  lemma SignedOneBitLosesItsValue(s: SignalDef)
    requires s.Usable() && s.length == 1 && s.isSigned
    requires s.scale == 1.0 && s.offset == 0.0 && !s.HasLimits()
    ensures EncodeRaw(s, -1.0) == -1
    ensures DecodeWord(s, WordOf(s, -1)) == 1.0
    ensures EncodeRaw(s, 1.0) == 0
    ensures forall p :: OneBitSurvives(s, p) <==> p > -1.0
  {
  }

  /** Clamping never moves two values further apart. */
  lemma ClampContracts(s: SignalDef, p: real, q: real)
    ensures Abs(Clamp(s, p) - Clamp(s, q)) <= Abs(p - q)
  {
  }

  lemma BelowUnit(e: real, c: real)
    requires e < 1.0 && c > 0.0
    ensures e * c < c
  {
    var rest := 1.0 - e;
    assert rest * c > 0.0;
    assert e * c + rest * c == (e + rest) * c == c;
  }

  lemma AboveUnit(e: real, c: real)
    requires e > -1.0 && c > 0.0
    ensures -(e * c) < c
  {
    var rest := 1.0 + e;
    assert rest * c > 0.0;
    assert rest * c - e * c == (rest - e) * c == c;
  }

  lemma AbsBelow(x: real, c: real)
    requires x < c && -x < c
    ensures Abs(x) < c
  {
  }

  lemma ProductBound(e: real, c: real)
    requires -1.0 < e < 1.0 && c > 0.0
    ensures Abs(e * c) < c
  {
    BelowUnit(e, c);
    AboveUnit(e, c);
    AbsBelow(e * c, c);
  }

  lemma ScaleError(s: SignalDef, x: real, y: real)
    requires Abs(x - y) < 1.0 && s.scale != 0.0
    ensures Abs(Scaled(s, x) - Scaled(s, y)) < Abs(s.scale)
  {
    var e := if s.scale > 0.0 then x - y else y - x;
    ProductBound(e, Abs(s.scale));
    assert e * Abs(s.scale) == x * s.scale - y * s.scale;
  }

  lemma AffineError(s: SignalDef, x: real, y: real)
    requires Abs(x - y) < 1.0 && s.scale != 0.0
    ensures Abs(ToPhysical(s, x) - ToPhysical(s, y)) < Abs(s.scale)
  {
    ScaleError(s, x, y);
    ClampContracts(s, Scaled(s, x), Scaled(s, y));
  }

  /** The decoded value is less than one scale step from the clamped and saturated
      input. */
  lemma QuantisationError(s: SignalDef, p: real)
    requires s.Usable() && s.length > 1
    ensures Abs(DecodeWord(s, WordOf(s, EncodeRaw(s, p))) - ToPhysical(s, FromPhysical(s, p))) < Abs(s.scale)
  {
    TruncProps(FromPhysical(s, p));
    RawOfWord(s, EncodeRaw(s, p));
    AffineError(s, EncodeRaw(s, p) as real, FromPhysical(s, p));
  }

  /** The same for a plain one-bit signal, whose scale step is 1. */
  lemma OneBitError(s: SignalDef, p: real)
    requires s.Usable() && s.length == 1 && PlainIfOneBit(s)
    ensures Abs(DecodeWord(s, WordOf(s, EncodeRaw(s, p))) - FromPhysical(s, p)) < 1.0
  {
  }

  /** A physical value inside the declared range and the raw range is its own clamped
      and saturated form, so the error bound is then a bound on the value itself. */
  lemma InRangeIsIdeal(s: SignalDef, p: real)
    requires s.Usable() && Clamp(s, p) == p
    requires s.MinRaw() as real <= Unscale(s, p) <= s.MaxRaw() as real
    ensures ToPhysical(s, FromPhysical(s, p)) == p
  {
  }

  /** The raw value of `word` decodes to a physical value inside the declared range. */
  predicate DecodesInRange(s: SignalDef, word: seq<bool>)
    requires s.length >= 1 && |word| == s.length
  {
    var p := Scaled(s, RawOf(s, word) as real);
    s.HasLimits() ==> s.min <= p <= s.max
  }

  lemma EncodeUnclamped(s: SignalDef, raw: int, p: real)
    requires s.Usable() && s.MinRaw() <= raw <= s.MaxRaw()
    requires Unscale(s, p) == raw as real && Clamp(s, p) == p
    ensures EncodeRaw(s, p) == raw
  {
  }

  /** Words that decode inside the declared range survive decode and encode. */
  lemma DecodeEncode(s: SignalDef, word: seq<bool>)
    requires s.Usable() && PlainIfOneBit(s) && |word| == s.length && DecodesInRange(s, word)
    ensures WordOf(s, EncodeRaw(s, DecodeWord(s, word))) == word
  {
    var raw := RawOf(s, word);
    WordOfRaw(s, word);
    UnscaleScaled(s, raw as real);
    EncodeUnclamped(s, raw, Scaled(s, raw as real));
    if s.length == 1 {
      OneBitWord(s, raw);
    }
  }

  /** When a stored raw value survives decode and encode: the position `x` it comes back to
      truncates to it or saturates to it. */
  predicate KeepsRaw(s: SignalDef, raw: int)
    requires s.Usable()
  {
    var x := RawPosition(s, if s.length > 1 then Scaled(s, raw as real) else if raw == 0 then 0.0 else 1.0);
    if raw > 0 then raw as real <= x && (x < (raw + 1) as real || raw == s.MaxRaw())
    else if raw < 0 then x <= raw as real && ((raw - 1) as real < x || raw == s.MinRaw())
    else (-1.0 < x || s.MinRaw() == 0) && (x < 1.0 || s.MaxRaw() == 0)
  }

  lemma TruncatesTo(s: SignalDef, x: real, raw: int)
    requires s.length >= 1 && s.MinRaw() <= raw <= s.MaxRaw()
    ensures Trunc(Saturate(s, x)) == raw <==>
            if raw > 0 then raw as real <= x && (x < (raw + 1) as real || raw == s.MaxRaw())
            else if raw < 0 then x <= raw as real && ((raw - 1) as real < x || raw == s.MinRaw())
            else (-1.0 < x || s.MinRaw() == 0) && (x < 1.0 || s.MaxRaw() == 0)
  {
    TruncProps(Saturate(s, x));
  }

  /** Exactly which words survive decode and encode. */
  lemma DecodeEncodeExact(s: SignalDef, word: seq<bool>)
    requires s.Usable() && |word| == s.length
    ensures WordOf(s, EncodeRaw(s, DecodeWord(s, word))) == word <==> KeepsRaw(s, RawOf(s, word))
  {
    var raw := RawOf(s, word);
    var p := DecodeWord(s, word);
    WordOfRaw(s, word);
    RawOfWord(s, EncodeRaw(s, p));
    TruncatesTo(s, RawPosition(s, p), raw);
    if s.length == 1 {
      OneBitRaw(s, word);
    } else {
      ClampIdempotent(s, Scaled(s, raw as real));
    }
  }

  lemma OneBitRaw(s: SignalDef, word: seq<bool>)
    requires s.length == 1 && |word| == 1
    ensures RawOf(s, word) == 0 <==> !word[0]
  {
    PowersOfTwo();
    assert FromBits(word) == (if word[0] then 1 else 0) + 2 * FromBits(word[1..]);
  }

  /** Without a declared range different words mean different values. */
  lemma DecodeInjective(s: SignalDef, v: seq<bool>, w: seq<bool>)
    requires s.Usable() && s.length > 1 && !s.HasLimits() && |v| == |w| == s.length
    requires DecodeWord(s, v) == DecodeWord(s, w)
    ensures v == w
  {
    UnscaleScaled(s, RawOf(s, v) as real);
    UnscaleScaled(s, RawOf(s, w) as real);
    WordOfRaw(s, v);
    WordOfRaw(s, w);
  }

  /** Whole multiples of the scale step inside the range are carried exactly. */
  lemma ExactMultiple(s: SignalDef, n: int)
    requires s.Usable() && s.length > 1 && s.MinRaw() <= n <= s.MaxRaw()
    requires s.HasLimits() ==> s.min <= Scaled(s, n as real) <= s.max
    ensures EncodeRaw(s, Scaled(s, n as real)) == n
    ensures DecodeWord(s, WordOf(s, n)) == Scaled(s, n as real)
  {
    UnscaleScaled(s, n as real);
    EncodeUnclamped(s, n, Scaled(s, n as real));
    RawOfWord(s, n);
  }

  /** Integers inside the range of a signal with scale 1 and offset 0 are carried exactly. */
  lemma ExactInteger(s: SignalDef, n: int)
    requires s.Usable() && PlainIfOneBit(s) && s.scale == 1.0 && s.offset == 0.0
    requires s.MinRaw() <= n <= s.MaxRaw()
    requires s.HasLimits() ==> s.min <= n as real <= s.max
    ensures EncodeRaw(s, n as real) == n
    ensures DecodeWord(s, WordOf(s, n)) == n as real
  {
    assert Clamp(s, n as real) == n as real;
    assert FromPhysical(s, n as real) == n as real;
    TruncInteger(n);
    RawOfWord(s, n);
    if s.length == 1 {
      OneBitWord(s, n);
    }
  }
}
