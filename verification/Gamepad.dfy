/** Gamepad state: button normal form, stick and control quantisation, and the signal
    tables sent as commands. Arithmetic is over the reals. */
module Gamepad {
  import opened Physical
  import opened FrameIds
  import opened CommandParser

  datatype Button = Button(pressed: bool, value: real)

  datatype State = State(axes: seq<real>, buttons: seq<Button>)

  function ClampTo(v: real, lo: real, hi: real): real {
    if v < lo then lo else if v > hi then hi else v
  }

  /** Clamping moves to the nearest point of the interval. */
  lemma ClampNearest(v: real, lo: real, hi: real, w: real)
    requires lo <= w <= hi
    ensures lo <= ClampTo(v, lo, hi) <= hi
    ensures Abs(ClampTo(v, lo, hi) - v) <= Abs(w - v)
  {
  }

  /** Nearest integer, halves away from zero. */
  function Round(x: real): int {
    if x >= 0.0 then (x + 0.5).Floor else -(-x + 0.5).Floor
  }

  lemma RoundNearest(x: real)
    ensures Abs(Round(x) as real - x) <= 0.5
    ensures Abs(Round(x) as real - x) == 0.5 ==> Abs(Round(x) as real) > Abs(x)
    ensures x >= 0.0 ==> Round(x) >= 0
    ensures x <= 0.0 ==> Round(x) <= 0
  {
  }

  lemma RoundMonotone(x: real, y: real)
    requires x <= y
    ensures Round(x) <= Round(y)
  {
  }

  lemma RoundInteger(n: int)
    ensures Round(n as real) == n
  {
  }

  // ---------------------------------------------------------------- buttons

  /** A JSON button after syntax: null, a bool, a number, an object with its two fields
      (absent ones zero), or anything else. */
  datatype ButtonJson =
    | NullJson
    | BoolJson(b: bool)
    | NumberJson(r: real)
    | ObjectJson(pressed: bool, value: real)
    | OtherJson

  /** Value in [0, 1]; more than half means pressed; pressed means some value. */
  predicate Normal(b: Button) {
    && 0.0 <= b.value <= 1.0
    && (b.value > 0.5 ==> b.pressed)
    && (b.pressed ==> b.value > 0.0)
  }

  /** What each accepted form stands for. */
  ghost predicate Denotes(j: ButtonJson, b: Button) {
    match j
    case NullJson => b == Button(false, 0.0)
    case BoolJson(p) => b == Button(p, if p then 1.0 else 0.0)
    case NumberJson(r) => b.value == ClampTo(r, 0.0, 1.0) && (b.pressed <==> r > 0.5)
    case ObjectJson(p, r) =>
      && (b.pressed <==> p || r > 0.5)
      && b.value == if p && r <= 0.0 then 1.0 else ClampTo(r, 0.0, 1.0)
    case OtherJson => false
  }

  class ButtonState {
    var pressed: bool
    var value: real

    ghost function Contents(): Button
      reads this
    {
      Button(pressed, value)
    }

    constructor ()
      ensures Contents() == Button(false, 0.0)
    {
      pressed, value := false, 0.0;
    }

    method UnmarshalJSON(data: ButtonJson) returns (ok: bool)
      modifies this
      ensures ok <==> !data.OtherJson?
      ensures ok ==> Denotes(data, Contents()) && Normal(Contents())
      ensures !ok ==> Contents() == old(Contents())
      ensures data.NullJson? ==> !pressed && value == 0.0
      ensures data.BoolJson? ==> pressed == data.b && value == if data.b then 1.0 else 0.0
      ensures data.NumberJson? ==>
                (pressed <==> data.r > 0.5)
                && value == if data.r < 0.0 then 0.0 else if data.r > 1.0 then 1.0 else data.r
      ensures data.ObjectJson? ==>
                (pressed <==> data.pressed || data.value > 0.5)
                && value == if data.value > 1.0 then 1.0 else if data.value > 0.0 then data.value
                            else if data.pressed then 1.0 else 0.0
    {
      if data.BoolJson? || data.NullJson? {
        var asBool := data.BoolJson? && data.b;
        pressed := asBool;
        if asBool {
          value := 1.0;
        } else {
          value := 0.0;
        }
        return true;
      }
      if data.NumberJson? {
        value := ClampTo(data.r, 0.0, 1.0);
        pressed := value > 0.5;
        return true;
      }
      if !data.ObjectJson? {
        return false;
      }
      pressed := data.pressed;
      value := ClampTo(data.value, 0.0, 1.0);
      if value == 0.0 && pressed {
        value := 1.0;
      }
      if value > 0.5 {
        pressed := true;
      }
      return true;
    }
  }

  /** A normal button written back as an object denotes itself and nothing else, and
      clamping its value again changes nothing. */
  lemma NormalFormIsFixed(b: Button, again: Button)
    requires Normal(b) && Denotes(ObjectJson(b.pressed, b.value), again)
    ensures again == b
    ensures ClampTo(b.value, 0.0, 1.0) == b.value
  {
  }

  function ButtonPressed(s: State, idx: int): bool {
    if idx < 0 || idx >= |s.buttons| then false else s.buttons[idx].pressed
  }

  function ButtonValue(s: State, idx: int): real {
    if idx < 0 || idx >= |s.buttons| then 0.0 else ClampTo(s.buttons[idx].value, 0.0, 1.0)
  }

  // ---------------------------------------------------------------- sticks

  /** The clamped axis, zero when the gamepad does not have it. */
  function Axis(s: State, idx: int): (v: real)
    ensures -1.0 <= v <= 1.0
  {
    if 0 <= idx < |s.axes| then ClampTo(s.axes[idx], -1.0, 1.0) else 0.0
  }

  lemma AxisMeans(s: State, idx: int)
    ensures !(0 <= idx < |s.axes|) ==> Axis(s, idx) == 0.0
    ensures 0 <= idx < |s.axes| ==>
              Axis(s, idx) == if s.axes[idx] < -1.0 then -1.0 else if s.axes[idx] > 1.0 then 1.0 else s.axes[idx]
  {
  }

  /** [-1, 1] to [-128, 127]: the scale is 127 from zero up and 128 below. */
  function StickValue(v: real): int {
    if v >= 0.0 then
      var iv := Round(v * 127.0);
      if iv > 127 then 127 else iv
    else
      var iv := Round(v * 128.0);
      if iv < -128 then -128 else iv
  }

  function AxisToInt8Physical(s: State, idx: int): real {
    StickValue(Axis(s, idx)) as real
  }

  /** In range, and within one half of the ideal scaled value, exact halves away from the
      middle. */
  lemma StickAccuracy(v: real)
    requires -1.0 <= v <= 1.0
    ensures -128 <= StickValue(v) <= 127
    ensures var ideal := v * (if v >= 0.0 then 127.0 else 128.0);
            && Abs(StickValue(v) as real - ideal) <= 0.5
            && (Abs(StickValue(v) as real - ideal) == 0.5 ==> Abs(StickValue(v) as real) > Abs(ideal))
  {
  }

  /** Monotone, the change of scale at zero included. */
  lemma StickMonotone(u: real, v: real)
    requires -1.0 <= u <= v <= 1.0
    ensures StickValue(u) <= StickValue(v)
  {
  }

  /** Every signed byte is some stick position. */
  lemma StickOnto(n: int) returns (v: real)
    requires -128 <= n <= 127
    ensures -1.0 <= v <= 1.0 && StickValue(v) == n
  {
    v := if n >= 0 then n as real / 127.0 else n as real / 128.0;
    RoundInteger(n);
    assert n >= 0 ==> v * 127.0 == n as real;
    assert n < 0 ==> v * 128.0 == n as real;
  }

  // ---------------------------------------------------------------- control value

  function Pow10(n: nat): int {
    if n == 0 then 1 else 10 * Pow10(n - 1)
  }

  function RoundTo(v: real, digits: int): real {
    if digits <= 0 then Round(v) as real
    else
      assert Pow10(digits) != 0 by { Pow10Positive(digits); }
      Round(v * Pow10(digits) as real) as real / Pow10(digits) as real
  }

  lemma Pow10Positive(n: nat)
    ensures Pow10(n) >= 1
  {
  }

  datatype Mapper = Mapper(deadZone: real, maxValue: real)

  function NewMapper(): Mapper {
    Mapper(0.12, 100.0)
  }

  datatype CommandSignals = CommandSignals(controlCommand: bool, controlValue: real)

  /** The control value before rounding, for a clamped axis. */
  function Throttle(m: Mapper, v: real): real {
    if Abs(v) >= m.deadZone then -v * m.maxValue else 0.0
  }

  lemma RoundToTenth(v: real)
    ensures RoundTo(v, 1) == Round(v * 10.0) as real / 10.0
  {
    assert Pow10(1) == 10;
  }

  /** `x` is the multiple of one tenth nearest to `v`, of two equally near ones the one
      further from zero. */
  predicate NearestTenth(x: real, v: real) {
    && x * 10.0 == (x * 10.0).Floor as real
    && Abs(x - v) <= 0.05
    && (Abs(x - v) == 0.05 ==> Abs(x) > Abs(v))
  }

  lemma ZeroTenth()
    ensures RoundTo(0.0, 1) == 0.0
  {
    RoundToTenth(0.0);
    RoundInteger(0);
  }

  /** A multiple of one tenth, within 0.05 of the unrounded value, and left alone by a
      second rounding. */
  lemma TenthAccuracy(v: real)
    ensures RoundTo(v, 1) * 10.0 == Round(v * 10.0) as real
    ensures Abs(RoundTo(v, 1) - v) <= 0.05
    ensures NearestTenth(RoundTo(v, 1), v)
    ensures RoundTo(RoundTo(v, 1), 1) == RoundTo(v, 1)
  {
    RoundToTenth(v);
    RoundToTenth(RoundTo(v, 1));
    RoundNearest(v * 10.0);
    RoundInteger(Round(v * 10.0));
  }

  /** The same at three decimal places. */
  predicate NearestThousandth(x: real, v: real) {
    && x * 1000.0 == (x * 1000.0).Floor as real
    && Abs(x - v) <= 0.0005
    && (Abs(x - v) == 0.0005 ==> Abs(x) > Abs(v))
  }

  lemma ThousandthAccuracy(v: real)
    ensures NearestThousandth(RoundTo(v, 3), v)
    ensures Abs(RoundTo(v, 3) - v) <= 0.0005
  {
    assert Pow10(3) == 1000;
    var n := Round(v * 1000.0);
    assert RoundTo(v, 3) == n as real / 1000.0;
    RoundNearest(v * 1000.0);
  }

  /** No decimal places, or fewer: the nearest integer. */
  lemma WholeAccuracy(v: real, digits: int)
    requires digits <= 0
    ensures Abs(RoundTo(v, digits) - v) <= 0.5
    ensures Abs(RoundTo(v, digits) - v) == 0.5 ==> Abs(RoundTo(v, digits)) > Abs(v)
    ensures RoundTo(v, digits) == RoundTo(v, digits).Floor as real
  {
    RoundNearest(v);
  }

  lemma TenthNearest(v: real)
    ensures NearestTenth(RoundTo(v, 1), v) && Abs(RoundTo(v, 1) - v) <= 0.05
  {
    TenthAccuracy(v);
  }

  /** Left stick Y and the first button; either may be missing. */
  method ToSignals(m: Mapper, s: State) returns (c: CommandSignals)
    ensures c.controlCommand == ButtonPressed(s, 0)
    ensures c.controlValue == RoundTo(if |s.axes| > 1 then Throttle(m, Axis(s, 1)) else 0.0, 1)
    ensures c.controlCommand <==> |s.buttons| > 0 && s.buttons[0].pressed
    ensures |s.axes| <= 1 ==> c.controlValue == 0.0
    ensures |s.axes| > 1 ==>
              && (Abs(Axis(s, 1)) < m.deadZone ==> c.controlValue == 0.0)
              && (Abs(Axis(s, 1)) >= m.deadZone ==>
                    NearestTenth(c.controlValue, -Axis(s, 1) * m.maxValue)
                    && Abs(c.controlValue - (-Axis(s, 1) * m.maxValue)) <= 0.05)
  {
    ZeroTenth();
    var throttle := 0.0;
    if |s.axes| > 1 {
      var v := ClampTo(s.axes[1], -1.0, 1.0);
      if Abs(v) >= m.deadZone {
        throttle := -v * m.maxValue;
      }
      assert v == Axis(s, 1) && throttle == Throttle(m, v);
    }
    var active := false;
    if |s.buttons| > 0 {
      active := s.buttons[0].pressed;
    }
    TenthNearest(throttle);
    return CommandSignals(active, RoundTo(throttle, 1));
  }

  function ControlValue(v: real): real {
    RoundTo(Throttle(NewMapper(), v), 1)
  }

  /** The default mapper: the axis reversed and scaled to 100, to the nearest tenth, outside
      a dead zone of 0.12. */
  lemma ControlAccuracy(v: real)
    ensures Abs(v) < 0.12 ==> ControlValue(v) == 0.0
    ensures Abs(v) >= 0.12 ==> NearestTenth(ControlValue(v), -100.0 * v)
  {
    ZeroTenth();
    TenthAccuracy(Throttle(NewMapper(), v));
  }

  lemma TenthsAreOrdered(x: real, n: int, v: real, bound: int)
    requires x * 10.0 == n as real && -0.05 <= x - v <= 0.05
    ensures v >= bound as real ==> x >= bound as real
    ensures v <= bound as real ==> x <= bound as real
  {
    assert n > 10 * bound - 1 || v < bound as real;
    assert n < 10 * bound + 1 || v > bound as real;
  }

  /** Zero inside the dead zone, between 12 and 100 in magnitude outside, against the sign
      of the axis. */
  lemma ControlRange(v: real)
    requires -1.0 <= v <= 1.0
    ensures Abs(v) < 0.12 ==> ControlValue(v) == 0.0
    ensures v >= 0.12 ==> -100.0 <= ControlValue(v) <= -12.0
    ensures v <= -0.12 ==> 12.0 <= ControlValue(v) <= 100.0
  {
    ControlAccuracy(v);
    var x := ControlValue(v);
    if Abs(v) >= 0.12 {
      TenthsAreOrdered(x, (x * 10.0).Floor, -100.0 * v, -100);
      TenthsAreOrdered(x, (x * 10.0).Floor, -100.0 * v, -12);
      TenthsAreOrdered(x, (x * 10.0).Floor, -100.0 * v, 12);
      TenthsAreOrdered(x, (x * 10.0).Floor, -100.0 * v, 100);
    }
  }

  /** Pulling the stick further never increases the control value. */
  lemma ControlAntitone(u: real, v: real)
    requires -1.0 <= u <= v <= 1.0
    ensures ControlValue(v) <= ControlValue(u)
  {
    var a, b := Throttle(NewMapper(), u), Throttle(NewMapper(), v);
    assert b <= a;
    RoundToTenth(a);
    RoundToTenth(b);
    RoundMonotone(b * 10.0, a * 10.0);
  }

  // ---------------------------------------------------------------- signal tables

  /** At least two decimal digits. */
  function TwoDigits(n: nat): string {
    if n < 10 then "0" + Format(n, 10) else Format(n, 10)
  }

  lemma TwoDigitsInjective(m: nat, n: nat)
    requires TwoDigits(m) == TwoDigits(n)
    ensures m == n
  {
    LeadingZero(Format(m, 10), 10);
    LeadingZero(Format(n, 10), 10);
  }

  function AxisName(n: nat): string { "Axis" + TwoDigits(n) }

  function PressedName(n: nat): string { "Btn" + TwoDigits(n) + "_P" }

  function ValueName(n: nat): string { "Btn" + TwoDigits(n) + "_V" }

  lemma AxisNameInjective(m: nat, n: nat)
    requires AxisName(m) == AxisName(n)
    ensures m == n
  {
    assert AxisName(m)[4..] == TwoDigits(m) && AxisName(n)[4..] == TwoDigits(n);
    TwoDigitsInjective(m, n);
  }

  lemma PressedNameInjective(m: nat, n: nat)
    requires PressedName(m) == PressedName(n)
    ensures m == n
  {
    Infix("Btn", TwoDigits(m), "_P");
    Infix("Btn", TwoDigits(n), "_P");
    TwoDigitsInjective(m, n);
  }

  lemma ValueNameInjective(m: nat, n: nat)
    requires ValueName(m) == ValueName(n)
    ensures m == n
  {
    Infix("Btn", TwoDigits(m), "_V");
    Infix("Btn", TwoDigits(n), "_V");
    TwoDigitsInjective(m, n);
  }

  lemma Infix(a: string, b: string, c: string)
    ensures |a| + |c| <= |a + b + c| && (a + b + c)[|a|..|a + b + c| - |c|] == b
  {
  }

  /** The table with one entry for each number in a range. */
  ghost predicate Table(t: map<string, Value>, name: nat -> string, value: nat -> Value, lo: nat, hi: nat) {
    && t.Keys == (set i: nat | lo <= i < hi :: name(i))
    && forall i :: lo <= i < hi ==> t[name(i)] == value(i)
  }

  ghost predicate Distinct(name: nat -> string) {
    forall m, n :: name(m) == name(n) ==> m == n
  }

  lemma ExtendTable(t: map<string, Value>, name: nat -> string, value: nat -> Value, lo: nat, hi: nat)
    requires lo <= hi && Table(t, name, value, lo, hi) && Distinct(name)
    ensures Table(t[name(hi) := value(hi)], name, value, lo, hi + 1)
  {
  }

  lemma AxisNamesDistinct()
    ensures Distinct(AxisName)
  {
    forall m: nat, n: nat | AxisName(m) == AxisName(n)
      ensures m == n
    {
      AxisNameInjective(m, n);
    }
  }

  lemma PressedNamesDistinct()
    ensures Distinct(PressedName)
  {
    forall m: nat, n: nat | PressedName(m) == PressedName(n)
      ensures m == n
    {
      PressedNameInjective(m, n);
    }
  }

  lemma ValueNamesDistinct()
    ensures Distinct(ValueName)
  {
    forall m: nat, n: nat | ValueName(m) == ValueName(n)
      ensures m == n
    {
      ValueNameInjective(m, n);
    }
  }

  function AxisEntry(s: State): nat -> Value {
    i => FloatValue(RoundTo(Axis(s, i), 3))
  }

  function PressedEntry(s: State): nat -> Value {
    i => BoolValue(ButtonPressed(s, i))
  }

  function ValueEntry(s: State): nat -> Value {
    i => FloatValue(RoundTo(ButtonValue(s, i), 3))
  }

  method AxisSignalMap(s: State, start: nat, count: nat) returns (res: map<string, Value>)
    ensures Table(res, AxisName, AxisEntry(s), start, start + count)
  {
    AxisNamesDistinct();
    res := map[];
    for i := 0 to count
      invariant Table(res, AxisName, AxisEntry(s), start, start + i)
    {
      var idx := start + i;
      var value := 0.0;
      if idx < |s.axes| {
        value := ClampTo(s.axes[idx], -1.0, 1.0);
      }
      ExtendTable(res, AxisName, AxisEntry(s), start, idx);
      assert AxisEntry(s)(idx) == FloatValue(RoundTo(value, 3));
      res := res[AxisName(idx) := FloatValue(RoundTo(value, 3))];
    }
  }

  method ButtonPressedSignalMap(s: State, start: nat, count: nat) returns (res: map<string, Value>)
    ensures Table(res, PressedName, PressedEntry(s), start, start + count)
  {
    PressedNamesDistinct();
    res := map[];
    for i := 0 to count
      invariant Table(res, PressedName, PressedEntry(s), start, start + i)
    {
      var idx := start + i;
      ExtendTable(res, PressedName, PressedEntry(s), start, idx);
      res := res[PressedName(idx) := BoolValue(ButtonPressed(s, idx))];
    }
  }

  method ButtonValueSignalMap(s: State, start: nat, count: nat) returns (res: map<string, Value>)
    ensures Table(res, ValueName, ValueEntry(s), start, start + count)
  {
    ValueNamesDistinct();
    res := map[];
    for i := 0 to count
      invariant Table(res, ValueName, ValueEntry(s), start, start + i)
    {
      var idx := start + i;
      ExtendTable(res, ValueName, ValueEntry(s), start, idx);
      res := res[ValueName(idx) := FloatValue(RoundTo(ButtonValue(s, idx), 3))];
    }
  }

  /** Names of the GamepadMsg signals: four sticks, then sixteen buttons. */
  function GamepadName(k: nat): string {
    if k == 0 then "StickLX" else if k == 1 then "StickLY" else if k == 2 then "StickRX"
    else if k == 3 then "StickRY" else PressedName(k - 4)
  }

  function GamepadEntry(s: State): nat -> Value {
    k => if k < 4 then FloatValue(AxisToInt8Physical(s, k)) else BoolValue(ButtonPressed(s, k - 4))
  }

  lemma SticksDiffer(m: nat, n: nat)
    requires m < n < 4
    ensures GamepadName(m) != GamepadName(n)
  {
    assert GamepadName(m)[5..] != GamepadName(n)[5..];
  }

  lemma StickIsNoButton(k: nat, i: nat)
    requires k < 4
    ensures GamepadName(k) != PressedName(i)
  {
    assert GamepadName(k)[0] == 'S';
    assert PressedName(i)[0] == 'B';
  }

  lemma ButtonsDiffer(i: nat, j: nat)
    requires i != j
    ensures PressedName(i) != PressedName(j)
  {
    if PressedName(i) == PressedName(j) {
      PressedNameInjective(i, j);
    }
  }

  lemma GamepadNamesDiffer(m: nat, n: nat)
    requires m < n
    ensures GamepadName(m) != GamepadName(n)
  {
    if n < 4 {
      SticksDiffer(m, n);
    } else if m < 4 {
      StickIsNoButton(m, n - 4);
    } else {
      ButtonsDiffer(m - 4, n - 4);
    }
  }

  lemma GamepadNamesDistinct()
    ensures Distinct(GamepadName)
  {
    forall m: nat, n: nat | GamepadName(m) == GamepadName(n)
      ensures m == n
    {
      if m < n {
        GamepadNamesDiffer(m, n);
      } else if n < m {
        GamepadNamesDiffer(n, m);
      }
    }
  }

  method GamepadMsgSignalMap(s: State) returns (res: map<string, Value>)
    ensures Table(res, GamepadName, GamepadEntry(s), 0, 20)
  {
    res := map[
      "StickLX" := FloatValue(AxisToInt8Physical(s, 0)),
      "StickLY" := FloatValue(AxisToInt8Physical(s, 1)),
      "StickRX" := FloatValue(AxisToInt8Physical(s, 2)),
      "StickRY" := FloatValue(AxisToInt8Physical(s, 3))
    ];
    GamepadNamesDistinct();
    FourSticks(res, s);
    for i := 0 to 16
      invariant Table(res, GamepadName, GamepadEntry(s), 0, 4 + i)
    {
      ExtendTable(res, GamepadName, GamepadEntry(s), 0, 4 + i);
      res := res[PressedName(i) := BoolValue(ButtonPressed(s, i))];
    }
  }

  lemma FourSticks(t: map<string, Value>, s: State)
    requires t.Keys == {GamepadName(0), GamepadName(1), GamepadName(2), GamepadName(3)}
    requires forall k :: 0 <= k < 4 ==> t[GamepadName(k)] == GamepadEntry(s)(k)
    ensures Table(t, GamepadName, GamepadEntry(s), 0, 4)
  {
  }

  // ---------------------------------------------------------------- the tables entry by entry

  /** Two digits, the first possibly zero. */
  lemma PaddedDigits(n: nat)
    requires n < 100
    ensures TwoDigits(n) == [('0' as int + n / 10) as char, ('0' as int + n % 10) as char]
  {
    if n >= 10 {
      assert Format(n / 10, 10) == [DigitChar(n / 10)];
    }
  }

  /** A table has an entry under each of its names, and no other. */
  lemma TableNames(t: map<string, Value>, name: nat -> string, value: nat -> Value, lo: nat, hi: nat, n: string)
    requires Table(t, name, value, lo, hi)
    ensures n in t <==> exists i: nat :: lo <= i < hi && name(i) == n
  {
  }

  /** The entry of axis `i`: its clamped position to three decimal places. */
  lemma AxisTableMeans(s: State, t: map<string, Value>, lo: nat, hi: nat, i: nat)
    requires Table(t, AxisName, AxisEntry(s), lo, hi) && lo <= i < hi && i < 100
    ensures var n := "Axis" + [('0' as int + i / 10) as char, ('0' as int + i % 10) as char];
            n in t && t[n].FloatValue? && NearestThousandth(t[n].r, Axis(s, i))
  {
    PaddedDigits(i);
    ThousandthAccuracy(Axis(s, i));
    assert t[AxisName(i)] == AxisEntry(s)(i);
  }

  /** The entry of button `i` as a switch; a missing button is released. */
  lemma PressedTableMeans(s: State, t: map<string, Value>, lo: nat, hi: nat, i: nat)
    requires Table(t, PressedName, PressedEntry(s), lo, hi) && lo <= i < hi && i < 100
    ensures var n := "Btn" + [('0' as int + i / 10) as char, ('0' as int + i % 10) as char] + "_P";
            n in t && t[n] == BoolValue(i < |s.buttons| && s.buttons[i].pressed)
  {
    PaddedDigits(i);
    assert t[PressedName(i)] == PressedEntry(s)(i);
  }

  /** The entry of button `i` as a lever: its value in [0, 1] to three decimal places, zero
      for a missing button. */
  lemma ValueTableMeans(s: State, t: map<string, Value>, lo: nat, hi: nat, i: nat, v: real)
    requires Table(t, ValueName, ValueEntry(s), lo, hi) && lo <= i < hi && i < 100
    requires v == if i >= |s.buttons| || s.buttons[i].value < 0.0 then 0.0
                  else if s.buttons[i].value > 1.0 then 1.0 else s.buttons[i].value
    ensures var n := "Btn" + [('0' as int + i / 10) as char, ('0' as int + i % 10) as char] + "_V";
            n in t && t[n].FloatValue? && NearestThousandth(t[n].r, v)
  {
    PaddedDigits(i);
    ThousandthAccuracy(v);
    assert t[ValueName(i)] == ValueEntry(s)(i);
  }

  /** The GamepadMsg entry of axis `k`: an integer within one half of the clamped position
      scaled to 127, or to 128 below the middle. */
  lemma StickTableMeans(s: State, t: map<string, Value>, k: nat)
    requires Table(t, GamepadName, GamepadEntry(s), 0, 20) && k < 4
    ensures var n := ["StickLX", "StickLY", "StickRX", "StickRY"][k];
            var ideal := Axis(s, k) * (if Axis(s, k) >= 0.0 then 127.0 else 128.0);
            && n in t && t[n].FloatValue? && t[n].r == t[n].r.Floor as real
            && Abs(t[n].r - ideal) <= 0.5
            && (Abs(t[n].r - ideal) == 0.5 ==> Abs(t[n].r) > Abs(ideal))
  {
    StickAccuracy(Axis(s, k));
    assert t[GamepadName(k)] == GamepadEntry(s)(k);
  }

  lemma ButtonEntry(s: State, t: map<string, Value>, i: nat)
    requires Table(t, GamepadName, GamepadEntry(s), 0, 20) && i < 16
    ensures PressedName(i) in t && t[PressedName(i)] == BoolValue(i < |s.buttons| && s.buttons[i].pressed)
  {
    assert GamepadName(4 + i) == PressedName(i);
    assert t[PressedName(i)] == GamepadEntry(s)(4 + i) == BoolValue(ButtonPressed(s, i));
  }

  /** The GamepadMsg entry of button `i`. */
  lemma ButtonTableMeans(s: State, t: map<string, Value>, i: nat)
    requires Table(t, GamepadName, GamepadEntry(s), 0, 20) && i < 16
    ensures var n := "Btn" + [('0' as int + i / 10) as char, ('0' as int + i % 10) as char] + "_P";
            n in t && t[n] == BoolValue(i < |s.buttons| && s.buttons[i].pressed)
  {
    PaddedDigits(i);
    ButtonEntry(s, t, i);
  }
}
