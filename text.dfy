/**
 * Decimal rendering of integers and `Array.prototype.join(',')` over paths.
 * The editor deduplicates dirty paths by their joined text, and error
 * messages interpolate paths as `[1,2]`; both need the same rendering.
 */
module Text {

  /** The character of one decimal digit. */
  function DigitChar(d: int): (c: char)
    requires 0 <= d < 10
    ensures '0' <= c <= '9'
  {
    (48 + d) as char
  }

  /** The decimal text of a natural number, without leading zeros. */
  function NatText(n: nat): (s: string)
    ensures |s| >= 1
    ensures forall i :: 0 <= i < |s| ==> '0' <= s[i] <= '9'
    decreases n
  {
    if n < 10 then [DigitChar(n)] else NatText(n / 10) + [DigitChar(n % 10)]
  }

  /** `String(n)` for an integer: a minus sign before the digits of a negative number. */
  function IntText(n: int): (s: string)
    ensures |s| >= 1 && ',' !in s
  {
    if n < 0 then "-" + NatText(-n) else NatText(n)
  }

  /** `path.join(',')`: the entries' texts separated by commas; "" for the empty path. */
  function Join(p: seq<int>): (s: string)
    ensures |p| == 0 <==> s == ""
  {
    if |p| == 0 then ""
    else if |p| == 1 then IntText(p[0])
    else IntText(p[0]) + "," + Join(p[1..])
  }

  /** The text a path takes inside a template literal: `[${path}]`. */
  function Bracketed(p: seq<int>): string
  {
    "[" + Join(p) + "]"
  }

  /** The message of the `TypeError` raised by reading `property` of `undefined` or `null`. */
  function ReadOfMissing(value: string, property: string): string
  {
    "Cannot read properties of " + value + " (reading '" + property + "')"
  }

  lemma {:induction false} NatTextInjective(m: nat, n: nat)
    requires NatText(m) == NatText(n)
    ensures m == n
    decreases m
  {
    if m < 10 && n < 10 {
      assert NatText(m)[0] == NatText(n)[0];
    } else if m >= 10 && n >= 10 {
      var a, b := NatText(m), NatText(n);
      assert a[|a| - 1] == DigitChar(m % 10) && b[|b| - 1] == DigitChar(n % 10);
      assert NatText(m / 10) == a[..|a| - 1] == b[..|b| - 1] == NatText(n / 10);
      NatTextInjective(m / 10, n / 10);
    }
  }

  /** Only the text of a negative number starts with a minus sign. */
  lemma IntTextSign(n: int)
    ensures IntText(n)[0] == '-' <==> n < 0
  {
  }

  lemma IntTextInjective(m: int, n: int)
    requires IntText(m) == IntText(n)
    ensures m == n
  {
    IntTextSign(m);
    IntTextSign(n);
    if m < 0 && n < 0 {
      assert NatText(-m) == IntText(m)[1..] == IntText(n)[1..] == NatText(-n);
      NatTextInjective(-m, -n);
    } else if m >= 0 && n >= 0 {
      NatTextInjective(m, n);
    }
  }

  /** The first comma of a joined path ends the text of its first entry. */
  lemma JoinFirstComma(p: seq<int>)
    requires |p| >= 1
    ensures |p| == 1 ==> ',' !in Join(p)
    ensures |p| > 1 ==> Join(p)[|IntText(p[0])|] == ','
    ensures forall i :: 0 <= i < |IntText(p[0])| ==> Join(p)[i] == IntText(p[0])[i]
  {
  }

  /** Two paths with the same joined text are the same path. */
  lemma {:induction false} JoinInjective(p: seq<int>, q: seq<int>)
    requires Join(p) == Join(q)
    ensures p == q
    decreases |p|
  {
    if |p| >= 1 && |q| >= 1 {
      JoinFirstComma(p);
      JoinFirstComma(q);
      var s, t := IntText(p[0]), IntText(q[0]);
      assert |s| <= |t| ==> forall i :: 0 <= i < |s| ==> s[i] == t[i];
    }
    if |p| == 0 || |q| == 0 {
    } else if |p| == 1 && |q| == 1 {
      IntTextInjective(p[0], q[0]);
    } else if |p| > 1 && |q| > 1 {
      var s, t := IntText(p[0]), IntText(q[0]);
      var j := Join(p);
      if |s| == |t| {
        assert s == j[..|s|] == t;
        IntTextInjective(p[0], q[0]);
        assert Join(p[1..]) == j[|s| + 1..] == Join(q[1..]);
        JoinInjective(p[1..], q[1..]);
      }
    }
  }
}
