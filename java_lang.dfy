/** The pieces of the Java platform the reward ledger relies on: 32-bit `int`
    arithmetic, `/` and `%` (which truncate toward zero), decimal printing of
    an `int` (`"" + n`), `Integer.parseInt` and `String.split(",")`. */
module JavaLang {

  datatype Option<T> = None | Some(value: T)

  const MinInt32: int := -0x8000_0000
  const MaxInt32: int := 0x7fff_ffff

  /** A Java `int`. */
  type Int32 = x: int | MinInt32 <= x <= MaxInt32

  /** Two's-complement wrap-around of a Java `int` computation. */
  function Wrap32(x: int): (r: Int32)
    ensures MinInt32 <= x <= MaxInt32 ==> r == x
    ensures (r - x) % 0x1_0000_0000 == 0
  {
    var m := x % 0x1_0000_0000;
    if m > MaxInt32 then m - 0x1_0000_0000 else m
  }

  /** Java's `a / b` for b > 0: the quotient truncated toward zero. */
  function JavaDiv(a: int, b: int): (q: int)
    requires b > 0
    ensures 0 <= a ==> 0 <= b * q <= a < b * q + b
    ensures a < 0 ==> b * q - b < a <= b * q <= 0
  {
    if a >= 0 then
      DivBounds(a, b);
      a / b
    else
      DivBounds(-a, b);
      assert b * -((-a) / b) == -(b * ((-a) / b));
      -((-a) / b)
  }

  /** Euclidean division of a natural number: b * (n / b) is the largest
      multiple of b that does not exceed n. */
  lemma DivBounds(n: int, b: int)
    requires 0 <= n && 0 < b
    ensures 0 <= b * (n / b) <= n < b * (n / b) + b
  {
    var q, r := n / b, n % b;
    assert n == b * q + r && 0 <= r < b;
    assert 0 <= q;
  }

  /** Java's `a % b` for b > 0: the remainder takes the sign of a. */
  function JavaRem(a: int, b: int): (r: int)
    requires b > 0
    ensures 0 <= a ==> 0 <= r < b
    ensures a < 0 ==> -b < r <= 0
  {
    a - b * JavaDiv(a, b)
  }

  /** `a == b * (a / b) + a % b`, and the remainder lies strictly between
      -b and b with the sign of a. */
  lemma JavaDivRem(a: int, b: int)
    requires b > 0
    ensures a == b * JavaDiv(a, b) + JavaRem(a, b)
    ensures a >= 0 ==> 0 <= JavaRem(a, b) < b
    ensures a < 0 ==> -b < JavaRem(a, b) <= 0
  {
    if a < 0 {
      var q := (-a) / b;
      assert -a == b * q + (-a) % b;
    }
  }

  /** b * q grows with q. */
  lemma MulMonotone(b: int, q: int, q': int)
    requires b > 0 && q < q'
    ensures b * q + b <= b * q'
  {
    var d := q' - q;
    assert b * q' == b * q + b * d;
    assert b * d >= b by {
      assert d >= 1;
    }
  }

  /** Truncating division by a positive divisor is monotone. */
  lemma JavaDivMonotone(a: int, c: int, b: int)
    requires b > 0 && a <= c
    ensures JavaDiv(a, b) <= JavaDiv(c, b)
  {
    var qa, qc := JavaDiv(a, b), JavaDiv(c, b);
    JavaDivRem(a, b);
    JavaDivRem(c, b);
    if qc < qa {
      MulMonotone(b, qc, qa);
    }
  }

  predicate IsDigit(ch: char)
  {
    '0' <= ch <= '9'
  }

  predicate AllDigits(s: string)
  {
    forall i :: 0 <= i < |s| ==> IsDigit(s[i])
  }

  function DigitChar(d: nat): (ch: char)
    requires d < 10
    ensures IsDigit(ch)
  {
    "0123456789"[d]
  }

  function DigitValue(ch: char): (d: nat)
    requires IsDigit(ch)
    ensures d < 10
  {
    (ch as int - '0' as int) as nat
  }

  lemma DigitRoundTrip(d: nat)
    requires d < 10
    ensures DigitValue(DigitChar(d)) == d
  {
  }

  /** The decimal digits of n, most significant first, without leading zeros. */
  function NatToString(n: nat): (s: string)
    ensures 1 <= |s| && AllDigits(s)
    decreases n
  {
    if n < 10 then [DigitChar(n)] else NatToString(n / 10) + [DigitChar(n % 10)]
  }

  /** `Integer.toString(x)`: a minus sign for negative values, then the digits. */
  function IntToString(x: int): (s: string)
    ensures 1 <= |s| && ',' !in s
  {
    if x < 0 then "-" + NatToString(-x) else NatToString(x)
  }

  /** The value of a string of decimal digits. */
  function DigitsValue(s: string): nat
    requires AllDigits(s)
  {
    if s == [] then 0 else DigitsValue(s[..|s| - 1]) * 10 + DigitValue(s[|s| - 1])
  }

  lemma {:induction false} DigitsValueOfNatToString(n: nat)
    ensures DigitsValue(NatToString(n)) == n
    decreases n
  {
    var s := NatToString(n);
    if n < 10 {
      DigitRoundTrip(n);
    } else {
      DigitsValueOfNatToString(n / 10);
      assert s[..|s| - 1] == NatToString(n / 10);
      DigitRoundTrip(n % 10);
    }
  }

  /** Distinct naturals print differently. */
  lemma NatToStringInjective(m: nat, n: nat)
    requires NatToString(m) == NatToString(n)
    ensures m == n
  {
    DigitsValueOfNatToString(m);
    DigitsValueOfNatToString(n);
  }

  /** `Integer.parseInt(s)`: an optional sign, at least one decimal digit, and
      a value in the `int` range; anything else throws, which is `None` here. */
  function ParseInt(s: string): (r: Option<Int32>)
    ensures r.Some? ==> 1 <= |s|
    ensures r.Some? && s[0] != '-' && s[0] != '+' ==> AllDigits(s) && r.value == DigitsValue(s)
  {
    if s == [] then None
    else
      var digits := if s[0] == '-' || s[0] == '+' then s[1..] else s;
      if digits == [] || !AllDigits(digits) then None
      else
        var v: int := if s[0] == '-' then -(DigitsValue(digits) as int) else DigitsValue(digits);
        if MinInt32 <= v <= MaxInt32 then Some(v) else None
  }

  /** Printing an `int` and parsing it back gives the same `int`. */
  lemma ParseIntToString(x: Int32)
    ensures ParseInt(IntToString(x)) == Some(x)
  {
    if x < 0 {
      ParseIntOfNegative(-(x as int));
    } else {
      ParseIntOfNat(x);
    }
  }

  lemma ParseIntOfNegative(n: nat)
    requires 0 < n <= -MinInt32
    ensures ParseInt("-" + NatToString(n)) == Some((-(n as int)) as Int32)
  {
    var s := "-" + NatToString(n);
    DigitsValueOfNatToString(n);
    assert s[0] == '-' && s[1..] == NatToString(n);
  }

  lemma ParseIntOfNat(n: nat)
    requires n <= MaxInt32
    ensures ParseInt(NatToString(n)) == Some(n)
  {
    DigitsValueOfNatToString(n);
    assert IsDigit(NatToString(n)[0]);
  }


  /** Every comma-separated piece of s, empty ones included. */
  function Pieces(s: string): (r: seq<string>)
    ensures |r| >= 1
    ensures forall i :: 0 <= i < |r| ==> ',' !in r[i]
  {
    if s == [] then [""]
    else
      var rest := Pieces(s[1..]);
      if s[0] == ',' then [""] + rest else [[s[0]] + rest[0]] + rest[1..]
  }

  function DropTrailingEmpty(p: seq<string>): (r: seq<string>)
    ensures |r| <= |p| && r == p[..|r|]
    ensures forall i :: |r| <= i < |p| ==> p[i] == ""
    ensures r == [] || r[|r| - 1] != ""
  {
    if p == [] then []
    else if p[|p| - 1] == "" then DropTrailingEmpty(p[..|p| - 1])
    else p
  }

  /** `s.split(",")`: a string without a comma gives itself; otherwise the
      pieces, with the trailing empty pieces removed. */
  function JavaSplit(s: string): (r: seq<string>)
    ensures forall i :: 0 <= i < |r| ==> ',' !in r[i]
    ensures ',' in s ==> r == [] || r[|r| - 1] != ""
  {
    if ',' !in s then [s] else DropTrailingEmpty(Pieces(s))
  }

  /** `f[0] + "," + f[1] + "," + ... + f[|f|-1]`. */
  function JoinCommas(f: seq<string>): (s: string)
    requires |f| >= 1
    ensures |f| >= 2 ==> ',' in s
  {
    if |f| == 1 then f[0]
    else
      var s := f[0] + "," + JoinCommas(f[1..]);
      assert s[|f[0]|] == ',';
      s
  }

  /** Joining peels off the last field as well as the first. */
  lemma {:induction false} JoinCommasSnoc(f: seq<string>)
    requires |f| >= 2
    ensures JoinCommas(f) == JoinCommas(f[..|f| - 1]) + "," + f[|f| - 1]
    decreases |f|
  {
    if |f| > 2 {
      JoinCommasSnoc(f[1..]);
      assert f[1..][..|f| - 2] == f[..|f| - 1][1..];
    }
  }

  /** A comma-free text followed by a comma starts the first piece. */
  lemma {:induction false} PiecesOfField(a: string, rest: string)
    requires ',' !in a
    ensures Pieces(a + "," + rest) == [a] + Pieces(rest)
  {
    if a != [] {
      assert (a + "," + rest)[1..] == a[1..] + "," + rest;
      PiecesOfField(a[1..], rest);
      assert [a[0]] + a[1..] == a;
    }
  }

  /** A comma-free text is a single piece. */
  lemma {:induction false} PiecesOfText(a: string)
    requires ',' !in a
    ensures Pieces(a) == [a]
  {
    if a != [] {
      PiecesOfText(a[1..]);
      assert [a[0]] + a[1..] == a;
    }
  }

  /** Joining comma-free fields and splitting at every comma gives the fields back. */
  lemma {:induction false} PiecesOfJoin(f: seq<string>)
    requires |f| >= 1 && forall i :: 0 <= i < |f| ==> ',' !in f[i]
    ensures Pieces(JoinCommas(f)) == f
  {
    if |f| == 1 {
      PiecesOfText(f[0]);
    } else {
      PiecesOfJoin(f[1..]);
      PiecesOfField(f[0], JoinCommas(f[1..]));
      assert [f[0]] + f[1..] == f;
    }
  }

  /** `String.split(",")` inverts the join when there are at least two
      comma-free fields and the last one is not empty. */
  lemma SplitOfJoin(f: seq<string>)
    requires |f| >= 2 && forall i :: 0 <= i < |f| ==> ',' !in f[i]
    requires f[|f| - 1] != ""
    ensures JavaSplit(JoinCommas(f)) == f
  {
    PiecesOfJoin(f);
  }

  /** With an empty last field the split loses it. */
  lemma SplitOfJoinEmptyLast(f: seq<string>)
    requires |f| >= 2 && forall i :: 0 <= i < |f| ==> ',' !in f[i]
    requires f[|f| - 1] == ""
    ensures |JavaSplit(JoinCommas(f))| < |f|
  {
    PiecesOfJoin(f);
  }
}
