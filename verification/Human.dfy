/** human_readable (tools/install/lib/human.c): repeated division with the fraction
    kept as tenths and a rounding state, over unbounded integers. */
module Human {
  import opened Options

  // Exact fractions num / den

  function Pow(base: nat, k: nat): nat {
    if k == 0 then 1 else base * Pow(base, k - 1)
  }

  /** What amt, tenths and rounding say about num / den: it is amt.tenths and a
      rest, which is zero, below 0.05, equal to 0.05, or above. */
  predicate Describes(num: nat, den: nat, amt: nat, tenths: nat, rounding: nat) {
    var rem := 20 * num - den * (20 * amt + 2 * tenths);
    && tenths <= 9
    && 0 <= rem < 2 * den
    && rounding == if rem == 0 then 0 else if rem < den then 1 else if rem == den then 2 else 3
  }

  /** The nearest whole number of tenths, the even one of two. */
  predicate NearestTenth(num: nat, den: nat, t: nat) {
    && t * (2 * den) <= 20 * num + den
    && 20 * num <= t * (2 * den) + den
    && (20 * num + den == t * (2 * den) || 20 * num == t * (2 * den) + den ==> t % 2 == 0)
  }

  /** A whole number is rounded up from 11/20, exactly there to the even one. */
  predicate RoundedAt55(num: nat, den: nat, w: nat) {
    && w * (20 * den) <= 20 * num + 9 * den
    && 20 * num <= w * (20 * den) + 11 * den
    && (20 * num + 9 * den == w * (20 * den) || 20 * num == w * (20 * den) + 11 * den ==> w % 2 == 0)
  }

  // The result

  /** A whole number, perhaps one decimal, and the power of the base that the
      suffix stands for. */
  datatype Shown = Shown(whole: nat, tenth: Option<nat>, power: nat)

  const MAX_POWER: nat := 8
  const SUFFIXES: string := "kMGTPEZY"

  /** The first power that leaves less than the base, or the last suffix. */
  ghost predicate IsPower(num: nat, den: nat, base: nat, p: nat) {
    && p <= MAX_POWER
    && (p < MAX_POWER ==> num < den * Pow(base, p + 1))
    && (p > 0 ==> den * Pow(base, p) <= num)
  }

  /** Less than ten units are rounded to tenths, unless that makes ten; others to
      whole units, or to one of the next unit. */
  ghost predicate IsHuman(num: nat, den: nat, base: nat, shown: Shown) {
    if base == 0 then shown.tenth.None? && shown.power == 0 && RoundedAt55(num, den, shown.whole)
    else exists p ::
      && IsPower(num, den, base, p)
      && InUnit(num, den * Pow(base, p), base, p, shown)
  }

  predicate InUnit(num: nat, unit: nat, base: nat, p: nat, shown: Shown) {
    if p == 0 then shown.tenth.None? && shown.power == 0 && num == shown.whole * unit
    else if num < 10 * unit then
      match shown.tenth
      case Some(t) => shown.power == p && t <= 9 && shown.whole < 10 && NearestTenth(num, unit, 10 * shown.whole + t)
      case None => shown.power == p && shown.whole == 10 && NearestTenth(num, unit, 100)
    else
      if shown.tenth.Some? then shown.power == p + 1 <= MAX_POWER && shown.whole == 1 && shown.tenth == Some(0) && RoundedAt55(num, unit, base)
      else shown.power == p && RoundedAt55(num, unit, shown.whole) && (p < MAX_POWER ==> shown.whole != base)
  }

  // One division

  lemma MulAdd(a: nat, b: nat, c: nat)
    ensures a * (b + c) == a * b + a * c
  {
  }

  lemma MulLe(a: nat, b: nat, c: nat)
    requires b <= c
    ensures a * b <= a * c
  {
  }

  lemma MulAssoc(a: nat, b: nat, c: nat)
    ensures a * b * c == a * (b * c)
  {
  }

  /** The digits of base * (20 q + 2 t) + 2 s are those of 20 amt + 2 tenths. */
  lemma SplitAmount(den: nat, base: nat, amt: nat, tenths: nat, q: nat, m: nat, t: nat, s: nat)
    requires amt == base * q + m && m * 10 + tenths == base * t + s
    ensures den * (20 * amt + 2 * tenths) == den * base * (20 * q + 2 * t) + den * (2 * s)
  {
    assert 20 * amt + 2 * tenths == base * (20 * q + 2 * t) + 2 * s by {
      MulAdd(base, 20 * q, 2 * t);
      assert base * (20 * q) == 20 * (base * q) && base * (2 * t) == 2 * (base * t);
    }
    MulAdd(den, base * (20 * q + 2 * t), 2 * s);
    MulAssoc(den, base, 20 * q + 2 * t);
  }

  /** Where the rest lies after a division, from where it lay before. */
  lemma RestOf(den: nat, base: nat, s: nat, rem: nat)
    requires den > 0 && s < base && rem < 2 * den
    ensures
      var rest := den * (2 * s) + rem;
      && rest < 2 * (den * base)
      && (2 * s + 2 <= base ==> rest < den * base)
      && (2 * s + 1 == base ==> rest - den * base == rem - den)
      && (2 * s == base ==> rest - den * base == rem)
      && (2 * s > base ==> rest > den * base)
      && (rest == 0 <==> s == 0 && rem == 0)
  {
    MulAdd(den, 2 * s, 2);
    MulAdd(den, 2 * s, 1);
    MulAdd(den, base, 1);
    MulLe(den, 2 * s + 2, 2 * base);
    MulLe(den, 2 * s + 2, if 2 * s + 2 <= base then base else 2 * s + 2);
    MulLe(den, base + 1, if 2 * s > base then 2 * s else base + 1);
    MulLe(den, if s > 0 then 1 else 2 * s, 2 * s);
  }

  /** The code's next rounding state. */
  function NextRounding(base: nat, r2: nat, rounding: nat): nat {
    if r2 < base then (if 0 < r2 + rounding then 1 else 0) else 2 + (if base < r2 + rounding then 1 else 0)
  }

  /** The new state describes the quotient exactly.  An odd base never reaches the
      state that stands for a half, so it needs no case of its own. */
  lemma DivisionExact(num: nat, den: nat, base: nat, amt: nat, tenths: nat, rounding: nat, q: nat, m: nat, t: nat, s: nat)
    requires den > 0 && base >= 2 && Describes(num, den, amt, tenths, rounding)
    requires base % 2 == 0 || rounding != 2
    requires amt == base * q + m && m < base && m * 10 + tenths == base * t + s && s < base
    ensures Describes(num, den * base, q, t, NextRounding(base, s * 2 + rounding / 2, rounding))
    ensures base % 2 == 0 || NextRounding(base, s * 2 + rounding / 2, rounding) != 2
  {
    var rem := 20 * num - den * (20 * amt + 2 * tenths);
    MulLe(base, 10, if t <= 9 then 10 else t);
    SplitAmount(den, base, amt, tenths, q, m, t, s);
    RestOf(den, base, s, rem);
    RoundingFits(den, base, s, rem, rounding);
  }

  lemma RoundingFits(den: nat, base: nat, s: nat, rem: nat, rounding: nat)
    requires den > 0 && s < base && rem < 2 * den && (base % 2 == 0 || rounding != 2)
    requires rounding == if rem == 0 then 0 else if rem < den then 1 else if rem == den then 2 else 3
    ensures
      var rest := den * (2 * s) + rem;
      var next := NextRounding(base, s * 2 + rounding / 2, rounding);
      && next == (if rest == 0 then 0 else if rest < den * base then 1 else if rest == den * base then 2 else 3)
      && (base % 2 == 0 || next != 2)
  {
    RestOf(den, base, s, rem);
    assert 2 * s + 2 <= base || 2 * s + 1 == base || 2 * s == base || 2 * s > base;
  }

  /** The amount is the floor of what is described. */
  lemma AmountIsFloor(num: nat, den: nat, amt: nat, tenths: nat, rounding: nat)
    requires den > 0 && Describes(num, den, amt, tenths, rounding)
    ensures amt * den <= num < (amt + 1) * den
  {
    MulLe(den, 20 * amt, 20 * amt + 2 * tenths);
    MulAdd(den, 20 * amt + 2 * tenths, 2);
    MulLe(den, 20 * amt + 2 * tenths + 2, 20 * (amt + 1));
    Twentieths(den, amt);
    Twentieths(den, amt + 1);
  }

  /** One round of the loop. */
  method Divide(base: nat, amt: nat, tenths: nat, rounding: nat, ghost num: nat, ghost den: nat)
    returns (amt': nat, tenths': nat, rounding': nat)
    requires den > 0 && base >= 2 && Describes(num, den, amt, tenths, rounding)
    requires base % 2 == 0 || rounding != 2
    ensures Describes(num, den * base, amt', tenths', rounding')
    ensures base % 2 == 0 || rounding' != 2
  {
    hide Describes;
    var r10 := (amt % base) * 10 + tenths;
    var r2 := (r10 % base) * 2 + rounding / 2;
    amt' := amt / base;
    tenths' := r10 / base;
    rounding' := if r2 < base then (if 0 < r2 + rounding then 1 else 0) else 2 + (if base < r2 + rounding then 1 else 0);
    DivisionExact(num, den, base, amt, tenths, rounding, amt', amt % base, tenths', r10 % base);
  }

  /** Divides until the amount is below the base or the suffixes run out. */
  method ReduceByBase(base: nat, amt0: nat, ghost num: nat, ghost den: nat)
    returns (amt: nat, tenths: nat, rounding: nat, power: nat)
    requires den > 0 && base >= 2 && base <= amt0 && Describes(num, den, amt0, 0, 0)
    ensures 0 < power <= MAX_POWER && IsPower(num, den, base, power)
    ensures den * Pow(base, power) > 0 && Describes(num, den * Pow(base, power), amt, tenths, rounding)
    ensures power < MAX_POWER ==> amt < base
  {
    hide Describes, Pow;
    amt, tenths, rounding, power := amt0, 0, 0, 0;
    ghost var unit := den;
    NextUnit(den, base, 0);
    while true
      invariant power < MAX_POWER && base <= amt
      invariant unit == den * Pow(base, power) && unit > 0
      invariant Describes(num, unit, amt, tenths, rounding)
      invariant base % 2 == 0 || rounding != 2
      decreases MAX_POWER - power
    {
      FullUnit(num, unit, base, amt, tenths, rounding);
      NextUnit(den, base, power);
      amt, tenths, rounding := Divide(base, amt, tenths, rounding, num, unit);
      unit := unit * base;
      power := power + 1;
      if !(base <= amt && power < MAX_POWER) {
        break;
      }
    }
    FullUnit(num, unit, base, amt, tenths, rounding);
    NextUnit(den, base, power);
  }

  lemma FullUnit(num: nat, unit: nat, base: nat, amt: nat, tenths: nat, rounding: nat)
    requires unit > 0 && base >= 2 && Describes(num, unit, amt, tenths, rounding)
    ensures unit * base > 0
    ensures base <= amt <==> unit * base <= num
  {
    AmountIsFloor(num, unit, amt, tenths, rounding);
    if base <= amt {
      MulLe(unit, base, amt);
    } else {
      MulLe(unit, amt + 1, base);
    }
    MulLe(unit, 1, base);
  }

  lemma NextUnit(den: nat, base: nat, power: nat)
    ensures den * Pow(base, power + 1) == den * Pow(base, power) * base
    ensures Pow(base, 0) == 1
  {
    MulAssoc(den, Pow(base, power), base);
  }

  // Rounding what is described

  lemma TenthRounded(num: nat, unit: nat, amt: nat, tenths: nat, rounding: nat)
    requires Describes(num, unit, amt, tenths, rounding) && unit > 0
    ensures NearestTenth(num, unit, 10 * amt + tenths + (if 2 < rounding + tenths % 2 then 1 else 0))
  {
    Tenths(unit, amt, tenths);
    TenthFits(num, unit, 10 * amt + tenths, unit * (20 * amt + 2 * tenths), rounding);
  }

  lemma Tenths(unit: nat, amt: nat, tenths: nat)
    ensures unit * (20 * amt + 2 * tenths) == (10 * amt + tenths) * (2 * unit)
    ensures (10 * amt + tenths) % 2 == tenths % 2
  {
  }

  lemma TenthFits(num: nat, unit: nat, t: nat, all: nat, rounding: nat)
    requires unit > 0 && all == t * (2 * unit)
    requires
      var rem := 20 * num - all;
      0 <= rem < 2 * unit && rounding == if rem == 0 then 0 else if rem < unit then 1 else if rem == unit then 2 else 3
    ensures NearestTenth(num, unit, t + (if 2 < rounding + t % 2 then 1 else 0))
  {
    assert (t + 1) * (2 * unit) == all + 2 * unit;
  }

  lemma Twentieths(unit: nat, amt: nat)
    ensures unit * (20 * amt) == amt * (20 * unit)
    ensures (amt + 1) * (20 * unit) == amt * (20 * unit) + 20 * unit
  {
  }

  lemma WholeRounded(num: nat, unit: nat, amt: nat, tenths: nat, rounding: nat)
    requires Describes(num, unit, amt, tenths, rounding) && unit > 0
    ensures RoundedAt55(num, unit, if 5 < tenths + (if 2 < rounding + amt % 2 then 1 else 0) then amt + 1 else amt)
  {
    MulAdd(unit, 20 * amt, 2 * tenths);
    Twentieths(unit, amt);
    TenthsBound(unit, tenths);
    var all, part := amt * (20 * unit), unit * (2 * tenths);
    WholeFits(num, unit, amt, tenths, rounding, all, part);
  }

  lemma TenthsBound(unit: nat, tenths: nat)
    requires tenths <= 9
    ensures tenths <= 4 ==> unit * (2 * tenths) <= 8 * unit
    ensures tenths == 5 ==> unit * (2 * tenths) == 10 * unit
    ensures tenths >= 6 ==> 12 * unit <= unit * (2 * tenths) <= 18 * unit
  {
    MulLe(unit, 2 * tenths, if tenths <= 4 then 8 else 2 * tenths);
    MulLe(unit, if tenths >= 6 then 12 else 2 * tenths, 2 * tenths);
    MulLe(unit, 2 * tenths, 18);
  }

  lemma WholeFits(num: nat, unit: nat, amt: nat, tenths: nat, rounding: nat, all: nat, part: nat)
    requires unit > 0 && tenths <= 9 && all == amt * (20 * unit)
    requires
      var rem := 20 * num - (all + part);
      0 <= rem < 2 * unit && rounding == if rem == 0 then 0 else if rem < unit then 1 else if rem == unit then 2 else 3
    requires tenths <= 4 ==> part <= 8 * unit
    requires tenths == 5 ==> part == 10 * unit
    requires tenths >= 6 ==> 12 * unit <= part <= 18 * unit
    ensures RoundedAt55(num, unit, if 5 < tenths + (if 2 < rounding + amt % 2 then 1 else 0) then amt + 1 else amt)
  {
    assert (amt + 1) * (20 * unit) == all + 20 * unit;
  }

  // The characters

  function DigitChar(d: nat): char
    requires d <= 9
  {
    ['0', '1', '2', '3', '4', '5', '6', '7', '8', '9'][d]
  }

  function Digits(n: nat): string {
    if n < 10 then [DigitChar(n)] else Digits(n / 10) + [DigitChar(n % 10)]
  }

  function Suffix(power: nat): string
    requires power <= MAX_POWER
  {
    if power == 0 then "" else [SUFFIXES[power - 1]]
  }

  function Render(shown: Shown): string
    requires shown.power <= MAX_POWER && (shown.tenth.Some? ==> shown.tenth.value <= 9)
  {
    Digits(shown.whole)
    + (match shown.tenth case None => "" case Some(t) => ['.', DigitChar(t)])
    + Suffix(shown.power)
  }

  /** The digits go in front of what the buffer holds, the last one first. */
  method PutDigits(n: nat, tail: string) returns (p: string)
    ensures p == Digits(n) + tail
  {
    var amt := n;
    p := tail;
    while true
      invariant Digits(amt) + p == Digits(n) + tail
      decreases amt
    {
      var d := amt % 10;
      assert amt >= 10 ==> Digits(amt) + p == Digits(amt / 10) + ([DigitChar(d)] + p);
      p := [DigitChar(d)] + p;
      if amt / 10 == 0 {
        break;
      }
      amt := amt / 10;
    }
  }

  /** From one block size to the other, of which one is a multiple of the other. */
  method Adjust(n: nat, from: nat, to: nat) returns (amt: nat, tenths: nat, rounding: nat)
    requires from > 0 && to > 0 && (from % to == 0 || to % from == 0)
    ensures Describes(n * from, to, amt, tenths, rounding)
    ensures to <= from ==> n * from == amt * to && tenths == 0 && rounding == 0
  {
    hide Describes;
    if to <= from {
      DivPart(from, to);
      var multiplier := from / to;
      amt := n * multiplier;
      tenths, rounding := 0, 0;
      MultiplierExact(n, from, to, multiplier);
    } else {
      DivPart(to, from);
      amt, tenths, rounding := DivideBlocks(n, to / from, from);
    }
  }

  method DivideBlocks(n: nat, divisor: nat, ghost from: nat) returns (amt: nat, tenths: nat, rounding: nat)
    requires divisor >= 2 && from > 0
    ensures Describes(n * from, divisor * from, amt, tenths, rounding)
  {
    hide Describes;
    var r10 := (n % divisor) * 10;
    var r2 := (r10 % divisor) * 2;
    amt := n / divisor;
    tenths := r10 / divisor;
    rounding := if r2 < divisor then (if 0 < r2 then 1 else 0) else 2 + (if divisor < r2 then 1 else 0);
    DivisorExact(n, from, divisor, amt, n % divisor, tenths, r10 % divisor);
  }

  lemma DivPart(a: nat, b: nat)
    requires a > 0 && b > 0 && b <= a && (a % b == 0 || b % a == 0)
    ensures a == b * (a / b)
  {
    if b % a == 0 {
      assert b == a * (b / a);
      MulLe(a, 1, b / a);
      assert a == b;
    }
  }

  lemma MultiplierExact(n: nat, from: nat, to: nat, multiplier: nat)
    requires to > 0 && from == to * multiplier
    ensures n * from == (n * multiplier) * to
    ensures Describes(n * from, to, n * multiplier, 0, 0)
  {
    assert n * (to * multiplier) == (n * multiplier) * to;
    Twentieths(to, n * multiplier);
  }

  /** Both parts of a fraction may be multiplied. */
  lemma Enlarged(num: nat, den: nat, k: nat, amt: nat, tenths: nat, rounding: nat)
    requires den > 0 && k > 0 && Describes(num, den, amt, tenths, rounding)
    ensures Describes(num * k, den * k, amt, tenths, rounding)
  {
    var x := 20 * amt + 2 * tenths;
    var rem: nat := 20 * num - den * x;
    assert 20 * (num * k) - (den * k) * x == rem * k by {
      MulAdd(k, den * x, rem);
      assert (den * k) * x == k * (den * x);
      assert k * (20 * num) == 20 * (num * k);
    }
    Scaled(k, rem, den);
    Scaled(k, den, rem);
    Scaled(k, rem, 2 * den);
    assert 2 * (den * k) == (2 * den) * k;
    assert rem == 0 <==> rem * k == 0 by { Scaled(k, 0, rem); }
  }

  lemma Scaled(k: nat, a: nat, b: nat)
    requires k > 0
    ensures a < b <==> a * k < b * k
  {
    if a < b {
      MulAdd(k, a, 1);
      MulLe(k, a + 1, b);
    } else {
      MulLe(k, b, a);
    }
  }

  lemma DivisorExact(n: nat, from: nat, divisor: nat, q: nat, m: nat, t: nat, s: nat)
    requires from > 0 && divisor >= 2
    requires n == divisor * q + m && m < divisor && m * 10 == divisor * t + s && s < divisor
    ensures Describes(n * from, divisor * from, q, t, NextRounding(divisor, s * 2, 0))
  {
    DivisionExact(n, 1, divisor, n, 0, 0, q, m, t, s);
    Enlarged(n, divisor, from, q, t, NextRounding(divisor, s * 2, 0));
  }

  /** Less than ten units show a decimal, and then nothing is left to round. */
  method ToTenths(amt0: nat, tenths0: nat, rounding: nat, p0: string, ghost num: nat, ghost unit: nat)
    returns (amt: nat, tenths: nat, tenth: Option<nat>, p: string)
    requires unit > 0 && Describes(num, unit, amt0, tenths0, rounding)
    ensures num >= 10 * unit ==> amt == amt0 >= 10 && tenths == tenths0 && tenth == None && p == p0
    ensures num < 10 * unit ==> tenths == 0 && match tenth
      case Some(t) => t <= 9 && amt < 10 && p == ['.', DigitChar(t)] + p0 && NearestTenth(num, unit, 10 * amt + t)
      case None => amt == 10 && p == p0 && NearestTenth(num, unit, 100)
  {
    TenOrMore(num, unit, amt0, tenths0, rounding);
    TenthRounded(num, unit, amt0, tenths0, rounding);
    amt, tenths, tenth, p := amt0, tenths0, None, p0;
    hide Describes, NearestTenth;
    if amt < 10 {
      if 2 < rounding + tenths % 2 {
        tenths := tenths + 1;
      }
      if tenths == 10 {
        amt := amt + 1;
        tenths := 0;
      }
      if amt < 10 {
        p := ['.', DigitChar(tenths)] + p;
        tenth := Some(tenths);
        tenths := 0;
      }
    }
  }

  lemma TenOrMore(num: nat, unit: nat, amt: nat, tenths: nat, rounding: nat)
    requires unit > 0 && Describes(num, unit, amt, tenths, rounding)
    ensures num < 10 * unit <==> amt < 10
    ensures tenths <= 9
  {
    AmountIsFloor(num, unit, amt, tenths, rounding);
    if amt < 10 {
      MulLe(unit, amt + 1, 10);
    } else {
      MulLe(unit, 10, amt);
    }
  }

  predicate CanRender(shown: Shown) {
    shown.power <= MAX_POWER && (shown.tenth.Some? ==> shown.tenth.value <= 9)
  }

  function DigitValue(c: char): nat {
    if '0' <= c <= '9' then c as nat - '0' as nat else 0
  }

  function Value(s: string): nat {
    if s == "" then 0 else 10 * Value(s[..|s| - 1]) + DigitValue(s[|s| - 1])
  }

  /** The digits read back as the number, and no zero leads them. */
  lemma {:induction false} DigitsReadBack(n: nat)
    ensures Value(Digits(n)) == n
    ensures |Digits(n)| > 0 && (n > 0 ==> Digits(n)[0] != '0')
    ensures forall c :: c in Digits(n) ==> '0' <= c <= '9'
  {
    if n >= 10 {
      DigitsReadBack(n / 10);
      assert Digits(n)[..|Digits(n)| - 1] == Digits(n / 10);
    } else {
      assert Digits(n)[..0] == "";
    }
  }

  /** A decimal numeral without a leading zero. */
  predicate IsNumeral(p: string, n: nat) {
    && p != "" && (forall c :: c in p ==> '0' <= c <= '9')
    && Value(p) == n && (n > 0 ==> p[0] != '0')
  }

  /** The text of the buffer: a numeral, perhaps a point and a digit, and the letter of
      the power. */
  ghost predicate Reads(p: string, shown: Shown) {
    CanRender(shown) &&
    var point := if shown.tenth.Some? then ['.', "0123456789"[shown.tenth.value]] else "";
    var suffix := ["", "k", "M", "G", "T", "P", "E", "Z", "Y"][shown.power];
    exists digits :: IsNumeral(digits, shown.whole) && p == digits + point + suffix
  }

  lemma RenderReads(shown: Shown)
    requires CanRender(shown)
    ensures Reads(Render(shown), shown)
  {
    DigitsReadBack(shown.whole);
    SuffixIs(shown.power);
    assert IsNumeral(Digits(shown.whole), shown.whole);
    assert shown.tenth.Some? ==> DigitChar(shown.tenth.value) == "0123456789"[shown.tenth.value];
  }

  lemma SuffixIs(power: nat)
    requires power <= MAX_POWER
    ensures Suffix(power) == ["", "k", "M", "G", "T", "P", "E", "Z", "Y"][power]
  {
    assert SUFFIXES[0] == 'k' && SUFFIXES[1] == 'M' && SUFFIXES[2] == 'G' && SUFFIXES[3] == 'T';
    assert SUFFIXES[4] == 'P' && SUFFIXES[5] == 'E' && SUFFIXES[6] == 'Z' && SUFFIXES[7] == 'Y';
  }

  lemma HumanFrom(num: nat, den: nat, base: nat, p: nat, shown: Shown)
    requires base > 0
    ensures IsPower(num, den, base, p) && InUnit(num, den * Pow(base, p), base, p, shown) ==> IsHuman(num, den, base, shown)
  {
  }

  /** The whole function: the buffer shows the number in a unit and with a rounding
      that the block sizes alone determine. */
  method HumanReadable(n: nat, fromBlockSize: nat, outputBlockSize: int) returns (p: string)
    requires fromBlockSize > 0 && outputBlockSize != 0 && outputBlockSize != -1
    requires outputBlockSize > 0 ==> fromBlockSize % outputBlockSize == 0 || outputBlockSize % fromBlockSize == 0
    ensures exists shown :: Reads(p, shown)
                         && IsHuman(n * fromBlockSize, if outputBlockSize > 0 then outputBlockSize else 1,
                                    if outputBlockSize > 0 then 0 else -outputBlockSize, shown)
  {
    hide Describes, Digits, RoundedAt55, NearestTenth, Pow, IsPower, Reads;
    var base: nat, to: nat := 0, 1;
    if outputBlockSize < 0 {
      base := -outputBlockSize;
    } else {
      to := outputBlockSize;
    }
    ghost var num := n * fromBlockSize;
    ghost var unit := to;
    p := "";
    var amt, tenths, rounding := Adjust(n, fromBlockSize, to);
    var power: nat, tenth: Option<nat> := 0, None;
    if base != 0 && base <= amt {
      amt, tenths, rounding, power := ReduceByBase(base, amt, num, to);
      unit := to * Pow(base, power);
      p := Suffix(power);
      WholeRounded(num, unit, amt, tenths, rounding);
      amt, tenths, tenth, p := ToTenths(amt, tenths, rounding, p, num, unit);
    } else {
      WholeRounded(num, unit, amt, tenths, rounding);
      UnitOfOne(base);
      NoPower(amt, base);
    }
    ghost var unitPower := power;
    if 5 < tenths + (if 2 < rounding + amt % 2 then 1 else 0) {
      amt := amt + 1;
      if amt == base && power < MAX_POWER {
        p := ['.', '0'] + Suffix(power + 1);
        amt := 1;
        tenth := Some(0);
        power := power + 1;
      }
    }
    ghost var shown := Shown(amt, tenth, power);
    if base > 0 {
      HumanFrom(num, to, base, unitPower, shown);
    }
    p := PutDigits(amt, p);
    assert p == Render(shown);
    RenderReads(shown);
  }

  lemma NoPower(num: nat, base: nat)
    requires num < base || base == 0
    ensures base > 0 ==> IsPower(num, 1, base, 0)
  {
  }

  lemma UnitOfOne(base: nat)
    ensures Pow(base, 0) == 1 && Pow(base, 1) == base
  {
  }

  // What the reader of the buffer may rely on

  lemma {:induction false} PowGrows(base: nat, a: nat, b: nat)
    requires base >= 2 && a <= b
    ensures 0 < Pow(base, a) <= Pow(base, b)
    decreases b
  {
    if b > 0 {
      PowGrows(base, if a < b then a else a - 1, b - 1);
      MulLe(Pow(base, b - 1), 1, base);
      if a == b {
        MulLe(base, 1, Pow(base, b - 1));
      }
    }
  }

  /** Two neighbours are a whole step apart. */
  lemma Steps(d: nat, t: nat, u: nat)
    requires t < u
    ensures u * d >= t * d + d
    ensures u == t + 1 || u * d >= t * d + 2 * d
  {
    MulLe(d, t + 1, u);
    MulLe(d, t + 2, if t + 2 <= u then u else t + 2);
    MulAdd(d, t, 1);
    MulAdd(d, t, 2);
  }

  lemma OneTenth(num: nat, den: nat, t: nat, u: nat)
    requires den > 0 && NearestTenth(num, den, t) && NearestTenth(num, den, u)
    ensures t >= u
  {
    Steps(2 * den, t, if t < u then u else t + 1);
  }

  lemma OneWhole(num: nat, den: nat, w: nat, v: nat)
    requires den > 0 && RoundedAt55(num, den, w) && RoundedAt55(num, den, v)
    ensures w >= v
  {
    Steps(20 * den, w, if w < v then v else w + 1);
  }

  lemma OnePower(num: nat, den: nat, base: nat, p: nat, q: nat)
    requires den > 0 && base >= 2 && IsPower(num, den, base, p) && IsPower(num, den, base, q)
    ensures p >= q
  {
    var r := if p < q then q else p + 1;
    PowGrows(base, p + 1, r);
    MulLe(den, Pow(base, p + 1), Pow(base, r));
  }

  lemma OneInUnit(num: nat, unit: nat, base: nat, p: nat, a: Shown, b: Shown)
    requires unit > 0 && InUnit(num, unit, base, p, a) && InUnit(num, unit, base, p, b)
    ensures a == b
  {
    if p == 0 {
      MulEq(unit, a.whole, b.whole);
    } else if num < 10 * unit {
      var t, u := 10 * a.whole + TenthOf(a), 10 * b.whole + TenthOf(b);
      OneTenth(num, unit, t, u);
      OneTenth(num, unit, u, t);
    } else {
      var w, v := if a.tenth.Some? then base else a.whole, if b.tenth.Some? then base else b.whole;
      OneWhole(num, unit, w, v);
      OneWhole(num, unit, v, w);
    }
  }

  function TenthOf(shown: Shown): nat {
    match shown.tenth case None => 0 case Some(t) => t
  }

  lemma MulEq(unit: nat, a: nat, b: nat)
    requires unit > 0 && a * unit == b * unit
    ensures a == b
  {
  }

  /** Nothing is left open: the sizes and the number determine the result. */
  lemma HumanDetermined(num: nat, den: nat, base: nat, a: Shown, b: Shown)
    requires den > 0 && base != 1
    ensures IsHuman(num, den, base, a) && IsHuman(num, den, base, b) ==> a == b
  {
    hide RoundedAt55, InUnit, Pow;
    if !(IsHuman(num, den, base, a) && IsHuman(num, den, base, b)) {
    } else if base == 0 {
      OneWhole(num, den, a.whole, b.whole);
      OneWhole(num, den, b.whole, a.whole);
    } else {
      var p :| IsPower(num, den, base, p) && InUnit(num, den * Pow(base, p), base, p, a);
      var q :| IsPower(num, den, base, q) && InUnit(num, den * Pow(base, q), base, q, b);
      OnePower(num, den, base, p, q);
      OnePower(num, den, base, q, p);
      PowGrows(base, p, p);
      MulLe(den, 1, Pow(base, p));
      OneInUnit(num, den * Pow(base, p), base, p, a, b);
    }
  }

  /** A result with a decimal is the nearest tenth of its unit, also where rounding
      went over into the next unit. */
  lemma DecimalIsNearest(num: nat, den: nat, base: nat, shown: Shown)
    requires den > 0 && base != 1 && shown.tenth.Some?
    ensures IsHuman(num, den, base, shown) ==>
      NearestTenth(num, den * Pow(base, shown.power), 10 * shown.whole + TenthOf(shown))
  {
    hide Pow;
    if !IsHuman(num, den, base, shown) {
      return;
    }
    var p :| IsPower(num, den, base, p) && InUnit(num, den * Pow(base, p), base, p, shown);
    var unit := den * Pow(base, p);
    if num >= 10 * unit {
      NextUnit(den, base, p);
      CarryIsNearest(num, unit, base);
    }
  }

  lemma CarryIsNearest(num: nat, unit: nat, base: nat)
    requires 10 * unit <= num < unit * base && RoundedAt55(num, unit, base)
    ensures NearestTenth(num, unit * base, 10)
  {
    Scaled(unit, 10, base);
    MulLe(unit, 11, if base > 10 then base else 11);
    assert base * (20 * unit) == 20 * (unit * base);
    assert 10 * (2 * (unit * base)) == 20 * (unit * base);
  }

  /** A decimal is shown exactly below 9.95 units, other than single ones. */
  lemma DecimalIff(num: nat, den: nat, base: nat, shown: Shown)
    requires den > 0 && base >= 2
    ensures IsHuman(num, den, base, shown) ==>
      (shown.tenth.Some? <==> shown.power > 0 && 20 * num < 199 * (den * Pow(base, shown.power)))
  {
    hide Pow;
    if IsHuman(num, den, base, shown) {
      var p :| IsPower(num, den, base, p) && InUnit(num, den * Pow(base, p), base, p, shown);
      var unit := den * Pow(base, p);
      if p > 0 && num < 10 * unit {
        TenthsBelow(num, unit, 10 * shown.whole + TenthOf(shown));
      }
    }
  }

  lemma TenthsBelow(num: nat, unit: nat, t: nat)
    ensures NearestTenth(num, unit, t) && unit > 0 ==> (t <= 99 <==> 20 * num < 199 * unit)
  {
    if NearestTenth(num, unit, t) && unit > 0 {
      if t <= 98 {
        MulLe(2 * unit, t, 98);
      } else if t >= 100 {
        MulLe(2 * unit, 100, t);
      }
    }
  }

  /** The unit fits: the number shown is at least one unit, and less than one of the next
      unit. */
  lemma UnitFits(num: nat, den: nat, base: nat, shown: Shown)
    requires den > 0 && base > 10
    ensures IsHuman(num, den, base, shown) ==>
      && (shown.power > 0 ==> shown.whole >= 1)
      && (shown.power < MAX_POWER ==> shown.whole < base)
  {
    hide Pow, InUnit;
    if IsHuman(num, den, base, shown) {
      var p :| IsPower(num, den, base, p) && InUnit(num, den * Pow(base, p), base, p, shown);
      NextUnit(den, base, p);
      PowGrows(base, p, p);
      MulLe(den, 1, Pow(base, p));
      FitsInUnit(num, den * Pow(base, p), base, p, shown);
    }
  }

  lemma FitsInUnit(num: nat, unit: nat, base: nat, p: nat, shown: Shown)
    requires unit > 0 && base > 10 && p <= MAX_POWER && InUnit(num, unit, base, p, shown)
    requires (p > 0 ==> unit <= num) && (p < MAX_POWER ==> num < unit * base)
    ensures shown.power > 0 ==> shown.whole >= 1
    ensures shown.power < MAX_POWER ==> shown.whole < base
  {
    WholeFitsUnit(num, unit, base, shown.whole);
    if p > 0 && num < 10 * unit && shown.whole == 0 {
      MulLe(2 * unit, TenthOf(shown), 9);
    }
  }

  lemma WholeFitsUnit(num: nat, unit: nat, base: nat, w: nat)
    requires unit > 0
    ensures RoundedAt55(num, unit, w) && num >= 10 * unit ==> w >= 1
    ensures RoundedAt55(num, unit, w) && num < unit * base ==> w <= base
    ensures num == w * unit && num < unit * base ==> w < base
  {
    MulLe(20 * unit, base + 1, if w > base then w else base + 1);
    MulLe(unit, base, if w > base then w else base);
    assert (base + 1) * (20 * unit) == 20 * (unit * base) + 20 * unit;
  }

  predicate Within11Of20(num: nat, unit: nat, w: nat) {
    w * (20 * unit) <= 20 * num + 11 * unit && 20 * num <= w * (20 * unit) + 11 * unit
  }

  lemma CloseInUnit(num: nat, unit: nat, base: nat, p: nat, shown: Shown)
    requires InUnit(num, unit, base, p, shown) && shown.tenth.None?
    ensures Within11Of20(num, unit, shown.whole)
  {
    Twentieths(unit, shown.whole);
    assert unit * shown.whole == shown.whole * unit;
    assert 100 * (2 * unit) == 10 * (20 * unit);
  }

  /** A result without one is within 11/20 of its unit. */
  lemma WholeIsClose(num: nat, den: nat, base: nat, shown: Shown)
    requires den > 0 && base != 1 && shown.tenth.None?
    ensures IsHuman(num, den, base, shown) ==> Within11Of20(num, den * Pow(base, shown.power), shown.whole)
  {
    UnitOfOne(base);
    hide Pow, InUnit, Within11Of20;
    if !IsHuman(num, den, base, shown) {
    } else if base != 0 {
      var p :| IsPower(num, den, base, p) && InUnit(num, den * Pow(base, p), base, p, shown);
      CloseInUnit(num, den * Pow(base, p), base, p, shown);
      SamePower(num, den * Pow(base, p), base, p, shown);
    } else {
      CloseToRounded(num, den, shown.whole);
    }
  }

  lemma SamePower(num: nat, unit: nat, base: nat, p: nat, shown: Shown)
    requires InUnit(num, unit, base, p, shown) && shown.tenth.None?
    ensures shown.power == p
  {
  }

  lemma CloseToRounded(num: nat, den: nat, w: nat)
    requires RoundedAt55(num, den, w)
    ensures Within11Of20(num, den, w)
  {
  }

  /** The nearest whole number, whichever way a tie goes. */
  predicate NearestWhole(num: nat, den: nat, w: nat) {
    2 * (w * den) <= 2 * num + den && 2 * num <= 2 * (w * den) + den
  }

  predicate GoesUp(den: nat, q: nat, r: nat) {
    20 * r > 11 * den || (20 * r == 11 * den && q % 2 == 1)
  }

  lemma WhichWhole(num: nat, den: nat, w: nat, q: nat, r: nat)
    requires den > 0 && num == q * den + r && r < den && RoundedAt55(num, den, w)
    ensures w == if GoesUp(den, q, r) then q + 1 else q
  {
    var v := if GoesUp(den, q, r) then q + 1 else q;
    assert q * (20 * den) == 20 * (q * den) && (q + 1) * (20 * den) == q * (20 * den) + 20 * den;
    OneWhole(num, den, w, v);
    OneWhole(num, den, v, w);
  }

  /** Exactly the fractions above 1/2 that do not get above 11/20 go the wrong way. */
  lemma NearestWholeIff(num: nat, den: nat, w: nat, q: nat, r: nat)
    requires den > 0 && num == q * den + r && r < den && RoundedAt55(num, den, w)
    ensures NearestWhole(num, den, w) <==>
      !(den < 2 * r && (20 * r < 11 * den || (20 * r == 11 * den && q % 2 == 0)))
  {
    WhichWhole(num, den, w, q, r);
    assert (q + 1) * den == q * den + den;
    hide RoundedAt55;
  }

  /** 10.55 thousands are shown as 10k, although 11k is nearer. */
  lemma TenFiftyFive()
    ensures IsHuman(10550, 1, 1000, Shown(10, None, 1))
    ensures !NearestWhole(10550, 1000, 10) && NearestWhole(10550, 1000, 11)
  {
    assert Pow(1000, 1) == 1000 && Pow(1000, 2) == 1000000;
    assert IsPower(10550, 1, 1000, 1) && InUnit(10550, 1 * Pow(1000, 1), 1000, 1, Shown(10, None, 1));
  }
}
