/**
 * `getPlayerColor`: a string hash over UTF-16 code units, folded into a hue.
 * JavaScript numbers are doubles and `<<` works on 32-bit integers; the fold
 * is written on unbounded integers with the 32-bit conversion explicit, and
 * `HashBound` shows the doubles stay exact for any id shorter than four
 * million code units.
 */
module Colours {
  import opened Decimal

  const TwoTo31 := 0x8000_0000
  const TwoTo32 := 0x1_0000_0000

  /** The UTF-16 code units of one character (a surrogate pair above U+FFFF). */
  function CharUnits(c: char): (units: seq<int>)
    ensures 1 <= |units| <= 2
    ensures forall i :: 0 <= i < |units| ==> 0 <= units[i] < 0x1_0000
    ensures |units| == 1 <==> (c as int) < 0x1_0000
    ensures |units| == 1 ==> units[0] == c as int
    ensures |units| == 2 ==> (units[0] - 0xD800) * 0x400 + (units[1] - 0xDC00) + 0x1_0000 == c as int
  {
    var code := c as int;
    if code < 0x1_0000 then [code]
    else
      var v := code - 0x1_0000;
      [0xD800 + v / 0x400, 0xDC00 + v % 0x400]
  }

  /** `s.split("")` with each piece's `charCodeAt(0)`. */
  function CodeUnits(s: string): (units: seq<int>)
    ensures |s| <= |units| <= 2 * |s|
    ensures forall i :: 0 <= i < |units| ==> 0 <= units[i] < 0x1_0000
    decreases |s|
  {
    if s == [] then [] else CharUnits(s[0]) + CodeUnits(s[1..])
  }

  /** ECMAScript ToInt32: the integer congruent modulo 2^32 in [-2^31, 2^31). */
  function ToInt32(x: int): (r: int)
    ensures -TwoTo31 <= r < TwoTo31
    ensures (r - x) % TwoTo32 == 0
  {
    (x + TwoTo31) % TwoTo32 - TwoTo31
  }

  /** One step of the reduce: `code + ((acc << 5) - acc)`. */
  function Step(acc: int, code: int): (r: int)
    ensures (r - (code + 31 * acc)) % TwoTo32 == 0
    ensures -TwoTo31 <= 32 * acc < TwoTo31 ==> r == code + 31 * acc
    ensures 0 <= code < 0x1_0000 ==> Abs(r) <= Abs(acc) + StepBound
  {
    var shifted := ToInt32(ToInt32(acc) * 32);
    assert (shifted - 32 * acc) % TwoTo32 == 0 by {
      var a := ToInt32(acc);
      assert (a - acc) % TwoTo32 == 0;
      assert 32 * a - 32 * acc == 32 * (a - acc);
    }
    code + (shifted - acc)
  }

  /** The reduce from the left, starting at `acc`: the last unit is folded in last. */
  function Fold(acc: int, units: seq<int>): (r: int)
    ensures units == [] ==> r == acc
    ensures |units| >= 1 ==> r == Step(Fold(acc, units[..|units| - 1]), units[|units| - 1])
    decreases |units|
  {
    if units == [] then acc
    else
      assert |units| >= 2 ==> units[..|units| - 1][1..] == units[1..][..|units| - 2];
      Fold(Step(acc, units[0]), units[1..])
  }

  /** The hash of an id, within (2^31 + 2^16) per code unit of zero. */
  function Hash(id: string): (r: int)
    ensures id == [] ==> r == 0
    ensures Abs(r) <= |CodeUnits(id)| * StepBound
  {
    HashBound(0, CodeUnits(id));
    Fold(0, CodeUnits(id))
  }

  /** How far one step can move the accumulator. */
  const StepBound := TwoTo31 + 0x1_0000

  /**
   * The accumulator grows by less than 2^31 + 2^16 per code unit, so after
   * fewer than 2^53 / (2^31 + 2^16) units every value is a safe integer and
   * the double arithmetic of the source is exact.
   */
  lemma {:induction false} HashBound(acc: int, units: seq<int>)
    requires forall i :: 0 <= i < |units| ==> 0 <= units[i] < 0x1_0000
    ensures -(Abs(acc) + |units| * StepBound) <= Fold(acc, units) <= Abs(acc) + |units| * StepBound
    decreases |units|
  {
    if units != [] {
      var next := Step(acc, units[0]);
      assert Abs(next) <= Abs(acc) + StepBound;
      HashBound(next, units[1..]);
      assert Abs(next) + (|units| - 1) * StepBound <= Abs(acc) + |units| * StepBound;
    }
  }

  function Abs(x: int): nat {
    if x < 0 then -x else x
  }

  /** JavaScript's `%`: the remainder takes the sign of the dividend. */
  function JsRemainder(a: int, n: int): (r: int)
    requires n > 0
    ensures a >= 0 ==> 0 <= r < n
    ensures a < 0 ==> -n < r <= 0
    ensures Abs(r) == Abs(a) % n
  {
    if a >= 0 then a % n else -((-a) % n)
  }

  /** `Math.abs(hash % 360)`. */
  function Hue(hash: int): (h: nat)
    ensures h < 360
    ensures h == Abs(hash) % 360
  {
    Abs(JsRemainder(hash, 360))
  }

  /** `hsl(<hue>, 70%, 60%)`. */
  function PlayerColor(id: string): (c: string)
    ensures |c| >= 16 && c[..4] == "hsl(" && c[|c| - 11..] == ", 70%, 60%)"
  {
    var digits := NatToString(Hue(Hash(id)));
    Framed("hsl(", digits, ", 70%, 60%)");
    "hsl(" + digits + ", 70%, 60%)"
  }

  /** The colour text names a hue below 360, and reads back as the hash's hue. */
  lemma PlayerColorShape(id: string)
    ensures var text := PlayerColor(id);
            var digits := text[4..|text| - 11];
            && |text| >= 16
            && text[..4] == "hsl(" && text[|text| - 11..] == ", 70%, 60%)"
            && AllDigits(digits) && DigitsValue(digits) == Hue(Hash(id)) && DigitsValue(digits) < 360
  {
    var d := NatToString(Hue(Hash(id)));
    var text := PlayerColor(id);
    assert text == "hsl(" + d + ", 70%, 60%)";
    assert text[4..|text| - 11] == d;
    NatToStringRoundTrip(Hue(Hash(id)));
  }

  lemma EmptyIdColour()
    ensures PlayerColor("") == "hsl(0, 70%, 60%)"
  {
    assert Hash("") == 0;
    assert NatToString(0) == "0";
  }
}
