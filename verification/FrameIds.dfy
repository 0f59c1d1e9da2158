/** Frame identifiers in text: trimming, decimal and hexadecimal digits, overflow. */
module FrameIds {
  import opened Results

  // ---------------------------------------------------------------- whitespace

  /** Unicode white space. */
  predicate IsSpace(c: char) {
    || '\U{0009}' <= c <= '\U{000D}' || c == ' ' || c == '\U{0085}' || c == '\U{00A0}'
    || c == '\U{1680}' || '\U{2000}' <= c <= '\U{200A}' || c == '\U{2028}' || c == '\U{2029}'
    || c == '\U{202F}' || c == '\U{205F}' || c == '\U{3000}'
  }

  predicate AllSpace(s: string) {
    forall c :: c in s ==> IsSpace(c)
  }

  function TrimLeft(s: string): string {
    if s != "" && IsSpace(s[0]) then TrimLeft(s[1..]) else s
  }

  function TrimRight(s: string): string {
    if s != "" && IsSpace(s[|s| - 1]) then TrimRight(s[..|s| - 1]) else s
  }

  function TrimSpace(s: string): string {
    TrimRight(TrimLeft(s))
  }

  /** A text that neither starts nor ends with white space. */
  predicate Trimmed(s: string) {
    s == "" || (!IsSpace(s[0]) && !IsSpace(s[|s| - 1]))
  }

  lemma {:induction false} TrimLeftOf(l: string, s: string)
    requires AllSpace(l) && s != "" && !IsSpace(s[0])
    ensures TrimLeft(l + s) == s
  {
    if l == "" {
      assert l + s == s;
    } else {
      assert l[0] in l;
      assert (l + s)[1..] == l[1..] + s;
      TrimLeftOf(l[1..], s);
    }
  }

  lemma {:induction false} TrimRightOf(s: string, r: string)
    requires AllSpace(r) && s != "" && !IsSpace(s[|s| - 1])
    ensures TrimRight(s + r) == s
  {
    if r == "" {
      assert s + r == s;
    } else {
      assert r[|r| - 1] in r;
      assert (s + r)[..|s + r| - 1] == s + r[..|r| - 1];
      TrimRightOf(s, r[..|r| - 1]);
    }
  }

  lemma TrimSpaceOf(l: string, s: string, r: string)
    requires AllSpace(l) && AllSpace(r) && s != "" && Trimmed(s)
    ensures TrimSpace(l + s + r) == s
  {
    assert l + s + r == l + (s + r);
    TrimLeftOf(l, s + r);
    TrimRightOf(s, r);
  }

  lemma {:induction false} TrimLeftSplits(s: string) returns (l: string)
    ensures AllSpace(l) && s == l + TrimLeft(s)
    ensures TrimLeft(s) != "" ==> !IsSpace(TrimLeft(s)[0])
  {
    if s != "" && IsSpace(s[0]) {
      l := TrimLeftSplits(s[1..]);
      l := [s[0]] + l;
    } else {
      l := "";
    }
  }

  lemma {:induction false} TrimRightSplits(s: string) returns (r: string)
    ensures AllSpace(r) && s == TrimRight(s) + r
    ensures TrimRight(s) != "" ==> !IsSpace(TrimRight(s)[|TrimRight(s)| - 1])
  {
    if s != "" && IsSpace(s[|s| - 1]) {
      r := TrimRightSplits(s[..|s| - 1]);
      r := r + [s[|s| - 1]];
    } else {
      r := "";
    }
  }

  /** Trimming leaves nothing exactly of white space. */
  lemma BlankTrims(s: string)
    ensures TrimSpace(s) == "" <==> AllSpace(s)
  {
    var l := TrimLeftSplits(s);
    var r := TrimRightSplits(TrimLeft(s));
    if TrimLeft(s) != "" {
      assert TrimLeft(s)[0] == s[|l|];
    }
  }

  // ---------------------------------------------------------------- digits

  /** Decimal digits and, in either case, the letters that continue them. */
  function Digit(c: char): Option<nat> {
    if '0' <= c <= '9' then Some(c as int - '0' as int)
    else if 'a' <= c <= 'z' then Some(c as int - 'a' as int + 10)
    else if 'A' <= c <= 'Z' then Some(c as int - 'A' as int + 10)
    else None
  }

  predicate IsDigit(c: char, base: nat) {
    Digit(c).Some? && Digit(c).value < base
  }

  predicate Digits(s: string, base: nat) {
    forall i :: 0 <= i < |s| ==> IsDigit(s[i], base)
  }

  /** The number a digit string denotes. */
  function ValueOf(s: string, base: nat): nat
    requires Digits(s, base)
  {
    if s == "" then 0
    else ValueOf(s[..|s| - 1], base) * base + Digit(s[|s| - 1]).value
  }

  lemma ShiftGrows(v: nat, base: nat)
    requires base >= 1
    ensures v <= v * base
  {
  }

  lemma {:induction false} PrefixValue(s: string, base: nat, i: nat)
    requires base >= 1 && Digits(s, base) && i <= |s|
    ensures ValueOf(s[..i], base) <= ValueOf(s, base)
  {
    if i == |s| {
      assert s[..i] == s;
    } else {
      PrefixValue(s[..|s| - 1], base, i);
      assert s[..|s| - 1][..i] == s[..i];
      ShiftGrows(ValueOf(s[..|s| - 1], base), base);
    }
  }

  const MAX_UINT32 := 0xFFFF_FFFF

  datatype FrameIdError = EmptyFrameId | InvalidFrameId

  function ParsedUint(s: string, base: nat): Result<nat, FrameIdError> {
    if s != "" && Digits(s, base) && ValueOf(s, base) <= MAX_UINT32 then Ok(ValueOf(s, base))
    else Err(InvalidFrameId)
  }

  /** Reads `s` digit by digit into 64-bit arithmetic with a 32-bit bound, stopping at the
      first character that is no digit or takes the number over the bound. */
  method ParseUint(s: string, base: nat) returns (r: Result<nat, FrameIdError>)
    requires base == 10 || base == 16
    ensures r == ParsedUint(s, base)
  {
    if s == "" {
      return Err(InvalidFrameId);
    }
    var n: nat := 0;
    for i := 0 to |s|
      invariant Digits(s[..i], base) && n == ValueOf(s[..i], base) <= MAX_UINT32
    {
      var d := Digit(s[i]);
      if d.None? || d.value >= base {
        assert !IsDigit(s[i], base);
        return Err(InvalidFrameId);
      }
      var n1 := n * base + d.value;
      assert n1 < 0x1_0000_0000_0000_0000;
      assert s[..i + 1][..i] == s[..i];
      if n1 > MAX_UINT32 {
        if Digits(s, base) {
          PrefixValue(s, base, i + 1);
        }
        return Err(InvalidFrameId);
      }
      n := n1;
    }
    assert s[..|s|] == s;
    return Ok(n);
  }

  /** Starts with `0x` or `0X`. */
  predicate IsHex(s: string) {
    |s| >= 2 && s[0] == '0' && (s[1] == 'x' || s[1] == 'X')
  }

  function ParsedFrameId(raw: string): Result<nat, FrameIdError> {
    var s := TrimSpace(raw);
    if s == "" then Err(EmptyFrameId)
    else if IsHex(s) then ParsedUint(s[2..], 16)
    else ParsedUint(s, 10)
  }

  method ParseFrameId(raw: string) returns (r: Result<nat, FrameIdError>)
    ensures r == ParsedFrameId(raw)
    ensures r.Ok? ==> r.value < 0x1_0000_0000
    ensures r.Err? ==> (r.error == EmptyFrameId <==> AllSpace(raw))
  {
    var s := TrimSpace(raw);
    BlankTrims(raw);
    if s == "" {
      return Err(EmptyFrameId);
    }
    var base := 10;
    if IsHex(s) {
      base := 16;
      s := s[2..];
    }
    r := ParseUint(s, base);
  }

  // ---------------------------------------------------------------- spellings

  /** `body` spells a number in the base its prefix announces. */
  predicate Spelling(prefix: string, body: string) {
    body != "" && match prefix
                  case "" => Digits(body, 10)
                  case _ => (prefix == "0x" || prefix == "0X") && Digits(body, 16)
  }

  function Base(prefix: string): nat {
    if prefix == "" then 10 else 16
  }

  lemma SpellingIsTrimmed(prefix: string, body: string)
    requires Spelling(prefix, body)
    ensures prefix + body != "" && Trimmed(prefix + body)
  {
  }

  lemma SpellingBase(prefix: string, body: string)
    requires Spelling(prefix, body)
    ensures IsHex(prefix + body) <==> prefix != ""
    ensures prefix != "" ==> (prefix + body)[2..] == body
  {
  }

  /** Every spelling, with any white space around it, any letter case and any leading
      zeros, parses to its number; numbers of more than 32 bits are rejected. */
  lemma SpellingParses(l: string, prefix: string, body: string, r: string)
    requires AllSpace(l) && AllSpace(r) && Spelling(prefix, body)
    ensures ParsedFrameId(l + prefix + body + r) ==
            var n := ValueOf(body, if prefix == "" then 10 else 16);
            if n < 0x1_0000_0000 then Ok(n) else Err(InvalidFrameId)
  {
    var s := prefix + body;
    SpellingIsTrimmed(prefix, body);
    SpellingBase(prefix, body);
    TrimSpaceOf(l, s, r);
    assert l + prefix + body + r == l + s + r;
    assert prefix == "" ==> s == body;
  }

  lemma TrimSpaceSplits(s: string) returns (l: string, r: string)
    ensures AllSpace(l) && AllSpace(r) && s == l + TrimSpace(s) + r
  {
    l := TrimLeftSplits(s);
    r := TrimRightSplits(TrimLeft(s));
    assert s == l + (TrimSpace(s) + r);
  }

  /** Whatever parses is such a spelling of the number it parses to. */
  lemma ParsedIsSpelling(raw: string) returns (l: string, prefix: string, body: string, r: string)
    requires ParsedFrameId(raw).Ok?
    ensures AllSpace(l) && AllSpace(r) && Spelling(prefix, body)
    ensures raw == l + prefix + body + r
    ensures ParsedFrameId(raw).value == ValueOf(body, Base(prefix)) <= MAX_UINT32
  {
    l, r := TrimSpaceSplits(raw);
    var s := TrimSpace(raw);
    prefix, body := SplitSpelling(s);
    assert l + s + r == l + prefix + body + r;
  }

  lemma SplitSpelling(s: string) returns (prefix: string, body: string)
    requires s != "" && (if IsHex(s) then ParsedUint(s[2..], 16) else ParsedUint(s, 10)).Ok?
    ensures s == prefix + body && Spelling(prefix, body)
    ensures body == if IsHex(s) then s[2..] else s
    ensures Base(prefix) == if IsHex(s) then 16 else 10
  {
    if IsHex(s) {
      prefix, body := s[..2], s[2..];
    } else {
      prefix, body := "", s;
    }
  }

  /** Leading zeros do not change the number. */
  lemma {:induction false} LeadingZero(s: string, base: nat)
    requires base >= 1 && Digits(s, base)
    ensures Digits("0" + s, base) && ValueOf("0" + s, base) == ValueOf(s, base)
  {
    assert Digits("0" + s, base) by {
      assert forall i :: 0 <= i < |"0" + s| ==> ("0" + s)[i] == (if i == 0 then '0' else s[i - 1]);
    }
    if s == "" {
      assert "0" + s == "0";
      assert "0"[..0] == "";
    } else {
      LeadingZero(s[..|s| - 1], base);
      assert ("0" + s)[..|s|] == "0" + s[..|s| - 1];
    }
  }

  /** Letter case does not change the number. */
  lemma {:induction false} LetterCase(s: string, t: string, base: nat)
    requires |s| == |t| && Digits(s, base)
    requires forall i :: 0 <= i < |s| ==> Digit(t[i]) == Digit(s[i])
    ensures Digits(t, base) && ValueOf(t, base) == ValueOf(s, base)
  {
    forall i | 0 <= i < |t|
      ensures IsDigit(t[i], base)
    {
      assert IsDigit(s[i], base);
    }
    if s != "" {
      LetterCase(s[..|s| - 1], t[..|t| - 1], base);
    }
  }

  // ---------------------------------------------------------------- what the text means

  /** The white space trimmed is that of the Unicode property White_Space. */
  lemma WhiteSpace(c: char)
    ensures IsSpace(c) <==>
            c as int in {0x09, 0x0A, 0x0B, 0x0C, 0x0D, 0x20, 0x85, 0xA0, 0x1680, 0x2028, 0x2029, 0x202F, 0x205F, 0x3000}
            || 0x2000 <= c as int <= 0x200A
  {
  }

  lemma DigitLetters(d: nat)
    requires d < 16
    ensures "0123456789abcdef"[d] as int == if d < 10 then '0' as int + d else 'a' as int + d - 10
    ensures "0123456789ABCDEF"[d] as int == if d < 10 then '0' as int + d else 'A' as int + d - 10
  {
  }

  /** The hexadecimal digits are these sixteen and the capitals of six of them, each standing
      for its position; the decimal digits are the first ten. */
  lemma DigitsMean(c: char, d: nat)
    requires d < 16
    ensures Digit(c) == Some(d) <==> c == "0123456789abcdef"[d] || c == "0123456789ABCDEF"[d]
    ensures IsDigit(c, 16) <==> exists n :: 0 <= n < 16 && Digit(c) == Some(n)
    ensures IsDigit(c, 10) <==> exists n :: 0 <= n < 10 && Digit(c) == Some(n)
  {
    DigitLetters(d);
  }

  /** The place value of a leading digit: `base` to the number of digits after it. */
  function PlaceValue(base: nat, places: nat): nat {
    if places == 0 then 1 else base * PlaceValue(base, places - 1)
  }

  lemma Regroup(a: nat, b: nat, c: nat, base: nat)
    ensures (a * b + c) * base == a * (base * b) + c * base
  {
  }

  /** A number in digits is its first digit at its place, and the number after it. */
  lemma {:induction false} LeadingDigit(s: string, base: nat)
    requires s != "" && Digits(s, base)
    ensures Digits(s[1..], base)
    ensures Digit(s[0]).value < base
    ensures ValueOf(s, base) == Digit(s[0]).value * PlaceValue(base, |s| - 1) + ValueOf(s[1..], base)
  {
    assert forall i :: 0 <= i < |s| - 1 ==> s[1..][i] == s[i + 1];
    assert IsDigit(s[0], base);
    if |s| == 1 {
      assert s[..0] == s[1..] == "";
    } else {
      var init := s[..|s| - 1];
      LeadingDigit(init, base);
      assert init[1..] == s[1..][..|s| - 2];
      Regroup(Digit(s[0]).value, PlaceValue(base, |s| - 2), ValueOf(init[1..], base), base);
    }
  }

  function DigitChar(d: nat): (c: char)
    requires d < 16
    ensures Digit(c) == Some(d)
  {
    if d < 10 then ('0' as int + d) as char else ('a' as int + (d - 10)) as char
  }

  lemma AppendDigit(s: string, c: char, base: nat)
    requires Digits(s, base) && IsDigit(c, base)
    ensures Digits(s + [c], base)
    ensures ValueOf(s + [c], base) == ValueOf(s, base) * base + Digit(c).value
  {
  }

  /** The shortest spelling of `n`, with lower-case letters. */
  function Format(n: nat, base: nat): (s: string)
    requires base == 10 || base == 16
    ensures s != "" && Digits(s, base)
    ensures ValueOf(s, base) == n
    decreases n
  {
    var c := DigitChar(if base == 10 then n % 10 else n % 16);
    if n < base then
      AppendDigit("", c, base);
      assert "" + [c] == [c];
      [c]
    else
      var high := Format(if base == 10 then n / 10 else n / 16, base);
      AppendDigit(high, c, base);
      high + [c]
  }

  /** So each 32-bit number has a decimal and a hexadecimal spelling that parse to it. */
  lemma FormatParses(n: nat, prefix: string)
    requires n <= MAX_UINT32 && prefix in ["", "0x", "0X"]
    ensures ParsedFrameId(prefix + Format(n, Base(prefix))) == Ok(n)
  {
    var body := Format(n, Base(prefix));
    SpellingParses("", prefix, body, "");
    assert "" + prefix + body + "" == prefix + body;
  }
}
