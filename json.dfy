/**
 * `JSON.stringify` on the candidates the history stores: arrays of integers,
 * written `[a,b,...]` with each integer in plain decimal. The history compares
 * candidates by these strings; the lemmas here show that for integer arrays
 * equal strings mean equal arrays.
 */
module Json {
  import opened Decimal

  /** An integer as JSON writes it: optional minus sign, then its digits. */
  function IntText(x: int): (s: string)
    ensures |s| >= 1 && ',' !in s
  {
    if x < 0 then "-" + Digits(-x) else Digits(x)
  }

  /** The comma-separated elements between the brackets. */
  function Elements(q: seq<int>): (s: string)
    ensures s == [] <==> q == []
    decreases |q|, 1
  {
    if q == [] then "" else IntText(q[0]) + AfterFirst(q)
  }

  /** What follows the first element: nothing, or a comma and the other elements. */
  function AfterFirst(q: seq<int>): (s: string)
    requires q != []
    ensures s == [] <==> |q| == 1
    decreases |q|, 0
  {
    if |q| == 1 then "" else "," + Elements(q[1..])
  }

  function Stringify(q: seq<int>): (s: string)
    ensures |s| >= 2 && s[0] == '[' && s[|s| - 1] == ']'
  {
    "[" + Elements(q) + "]"
  }

  /** The value an integer's text denotes. */
  function ParseInt(s: string): int
    requires |s| >= 1 && (if s[0] == '-' then AllDigits(s[1..]) else AllDigits(s))
  {
    var magnitude: int := if s[0] == '-' then ParseDecimal(s[1..]) else ParseDecimal(s);
    if s[0] == '-' then -magnitude else magnitude
  }

  lemma IntTextRoundTrip(x: int)
    ensures var s := IntText(x);
            |s| >= 1 && (if s[0] == '-' then AllDigits(s[1..]) else AllDigits(s)) && ParseInt(s) == x
  {
    if x < 0 {
      ParseDigits(-x);
      assert IntText(x)[1..] == Digits(-x);
    } else {
      ParseDigits(x);
    }
  }

  lemma IntTextInjective(x: int, y: int)
    requires IntText(x) == IntText(y)
    ensures x == y
  {
    IntTextRoundTrip(x);
    IntTextRoundTrip(y);
  }

  /** The index of the first comma of `s`, or `|s|` when there is none. */
  function FirstComma(s: string): (k: nat)
    ensures k <= |s|
  {
    if s == [] || s[0] == ',' then 0 else 1 + FirstComma(s[1..])
  }

  lemma {:induction false} FirstCommaAfter(u: string, r: string)
    requires ',' !in u
    requires r == [] || r[0] == ','
    ensures FirstComma(u + r) == |u|
    decreases |u|
  {
    if u != [] {
      assert u[0] in u;
      assert (u + r)[1..] == u[1..] + r;
      FirstCommaAfter(u[1..], r);
    } else {
      assert u + r == r;
    }
  }

  /**
   * A comma-free prefix followed by nothing or by a comma is determined by the
   * whole string: both the prefix and the rest are.
   */
  lemma CommaFreePrefix(u: string, r: string, v: string, r': string)
    requires ',' !in u && ',' !in v
    requires r == [] || r[0] == ','
    requires r' == [] || r'[0] == ','
    requires u + r == v + r'
    ensures u == v && r == r'
  {
    FirstCommaAfter(u, r);
    FirstCommaAfter(v, r');
    assert u == (u + r)[..|u|] && v == (v + r')[..|v|];
    assert r == (u + r)[|u|..] && r' == (v + r')[|v|..];
  }

  lemma {:induction false} ElementsInjective(a: seq<int>, b: seq<int>)
    requires Elements(a) == Elements(b)
    ensures a == b
    decreases |a|
  {
    if a != [] && b != [] {
      CommaFreePrefix(IntText(a[0]), AfterFirst(a), IntText(b[0]), AfterFirst(b));
      IntTextInjective(a[0], b[0]);
      if |a| > 1 {
        assert Elements(a[1..]) == AfterFirst(a)[1..] == AfterFirst(b)[1..] == Elements(b[1..]);
        ElementsInjective(a[1..], b[1..]);
        assert a == [a[0]] + a[1..] && b == [b[0]] + b[1..];
      }
    }
  }

  /** Two integer arrays serialise to the same JSON text iff they are equal. */
  lemma StringifyInjective(a: seq<int>, b: seq<int>)
    ensures Stringify(a) == Stringify(b) <==> a == b
  {
    if Stringify(a) == Stringify(b) {
      var s := Stringify(a);
      assert Elements(a) == s[1..|s| - 1] == Elements(b);
      ElementsInjective(a, b);
    }
  }
}
