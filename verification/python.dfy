/** The slice of Python's value semantics the helpers rely on: the scalar
    values that travel through model dicts, `str()` of a scalar, `int()` of a
    string, and `==` between scalars (where `True == 1`). */
module Python {
  import opened Wrappers

  /** A scalar Python value; `Null` is Python's `None`. `Str` is text, a
      Python 2 `unicode` as decoded JSON requests deliver it. */
  datatype Value = Null | Bool(b: bool) | Int(i: int) | Str(s: string)

  /** Text that Python 2's default ASCII codec can encode, as `str()` of a
      `unicode` value does. */
  predicate IsAscii(s: string) {
    forall i :: 0 <= i < |s| ==> s[i] as int < 128
  }

  /** A top-level value of a dict that may itself be a flat dict
      (an `extra` bag, a `links` sub-dict). */
  datatype Field = Flat(v: Value) | Nested(m: map<string, Value>)

  predicate IsDigit(c: char) {
    '0' <= c <= '9'
  }

  /** The characters C's `isspace` accepts in the default locale, which is
      what Python 2's `int()` strips around its argument. */
  predicate IsSpace(c: char) {
    c == ' ' || c == '\t' || c == '\n' || c == '\r' || c == '\U{B}' || c == '\U{C}'
  }

  predicate AllDigits(s: string) {
    forall k :: 0 <= k < |s| ==> IsDigit(s[k])
  }

  function DigitChar(d: nat): (c: char)
    requires d < 10
    ensures IsDigit(c)
  {
    ['0', '1', '2', '3', '4', '5', '6', '7', '8', '9'][d]
  }

  function DigitValue(c: char): (d: nat)
    requires IsDigit(c)
    ensures d < 10
  {
    (c as int - '0' as int) as nat
  }

  /** Decimal representation of a natural number, as `str()` writes it. */
  function NatToString(n: nat): (s: string)
    ensures |s| > 0 && AllDigits(s)
    ensures s[0] == '0' ==> n == 0
  {
    if n < 10 then [DigitChar(n)] else NatToString(n / 10) + [DigitChar(n % 10)]
  }

  /** `str(i)` for an integer: a leading '-' for negative numbers. */
  function IntToString(i: int): string {
    if i < 0 then "-" + NatToString(-i) else NatToString(i)
  }

  /** `str(v)` for a scalar. */
  function ToStr(v: Value): string {
    match v
    case Null => "None"
    case Bool(b) => if b then "True" else "False"
    case Int(i) => IntToString(i)
    case Str(s) => s
  }

  /** The number a non-empty run of decimal digits denotes. */
  function DigitsValue(s: string): nat
    requires AllDigits(s)
  {
    if |s| == 0 then 0 else DigitsValue(s[..|s| - 1]) * 10 + DigitValue(s[|s| - 1])
  }

  /** `s` without its leading whitespace. */
  function StripLeft(s: string): string {
    if |s| > 0 && IsSpace(s[0]) then StripLeft(s[1..]) else s
  }

  /** `s` without its trailing whitespace. */
  function StripRight(s: string): string {
    if |s| > 0 && IsSpace(s[|s| - 1]) then StripRight(s[..|s| - 1]) else s
  }

  /** `StripLeft` removes exactly the leading run of whitespace. */
  lemma {:induction false} StripLeftRemovesLeadingSpace(s: string)
    ensures var r := StripLeft(s);
      && |r| <= |s| && r == s[|s| - |r|..]
      && (|r| > 0 ==> !IsSpace(r[0]))
      && (forall k :: 0 <= k < |s| - |r| ==> IsSpace(s[k]))
  {
    if |s| > 0 && IsSpace(s[0]) {
      StripLeftRemovesLeadingSpace(s[1..]);
      var r := StripLeft(s[1..]);
      forall k | 0 <= k < |s| - |r|
        ensures IsSpace(s[k])
      {
        if k > 0 {
          assert s[k] == s[1..][k - 1];
        }
      }
    }
  }

  /** `StripRight` removes exactly the trailing run of whitespace. */
  lemma {:induction false} StripRightRemovesTrailingSpace(s: string)
    ensures var r := StripRight(s);
      && |r| <= |s| && r == s[..|r|]
      && (|r| > 0 ==> !IsSpace(r[|r| - 1]))
      && (forall k :: |r| <= k < |s| ==> IsSpace(s[k]))
  {
    if |s| > 0 && IsSpace(s[|s| - 1]) {
      StripRightRemovesTrailingSpace(s[..|s| - 1]);
      var r := StripRight(s[..|s| - 1]);
      forall k | |r| <= k < |s|
        ensures IsSpace(s[k])
      {
        if k < |s| - 1 {
          assert s[k] == s[..|s| - 1][k];
        }
      }
    }
  }

  /** `s.strip()` with the whitespace `int()` ignores. */
  function Strip(s: string): string {
    StripRight(StripLeft(s))
  }

  /** The body `int()` accepts once surrounding whitespace is gone: an
      optional sign, then (after a sign, possibly after more whitespace, which
      `PyOS_strtoul` skips again) at least one decimal digit. */
  predicate IsIntLiteral(t: string) {
    if |t| > 0 && (t[0] == '-' || t[0] == '+') then |StripLeft(t[1..])| > 0 && AllDigits(StripLeft(t[1..]))
    else |t| > 0 && AllDigits(t)
  }

  /** Python 2 `int(s)` on a string: `None` stands for the `ValueError`. */
  function ParseInt(s: string): Option<int> {
    ParseStripped(Strip(s))
  }

  /** `int()` accepts exactly the text that is an integer literal once its
      surrounding whitespace is stripped. */
  lemma ParseIntAccepts(s: string)
    ensures ParseInt(s).Some? <==> IsIntLiteral(Strip(s))
  {
    var t := Strip(s);
    assert ParseStripped(t).Some? <==> IsIntLiteral(t);
  }

  /** `int()` on text with no surrounding whitespace. */
  function ParseStripped(t: string): Option<int> {
    if |t| > 0 && (t[0] == '-' || t[0] == '+') then
      var u := StripLeft(t[1..]);
      if |u| > 0 && AllDigits(u) then Some(if t[0] == '-' then -(DigitsValue(u) as int) else DigitsValue(u))
      else None
    else if |t| > 0 && AllDigits(t) then Some(DigitsValue(t))
    else None
  }

  /** Python `==` between scalars: booleans compare as the integers 0 and 1. */
  predicate Equal(a: Value, b: Value) {
    match (a, b)
    case (Null, Null) => true
    case (Str(x), Str(y)) => x == y
    case (Str(_), _) => false
    case (_, Str(_)) => false
    case (Null, _) => false
    case (_, Null) => false
    case _ => AsNumber(a) == AsNumber(b)
  }

  function AsNumber(v: Value): int
    requires v.Bool? || v.Int?
  {
    if v.Bool? then (if v.b then 1 else 0) else v.i
  }

  lemma {:induction false} DigitsOfNat(n: nat)
    ensures DigitsValue(NatToString(n)) == n
  {
    var s := NatToString(n);
    if n < 10 {
      assert s[..|s| - 1] == [];
    } else {
      var p := NatToString(n / 10);
      assert s[..|s| - 1] == p;
      assert s[|s| - 1] == DigitChar(n % 10);
      DigitsOfNat(n / 10);
    }
  }

  lemma NoSpaceStripped(s: string)
    requires |s| > 0 && !IsSpace(s[0]) && !IsSpace(s[|s| - 1])
    ensures Strip(s) == s
  {
  }

  /** `int(str(i)) == i`: printing an integer and parsing it back is lossless. */
  lemma {:induction false} ParseIntOfToStr(i: int)
    ensures ParseInt(IntToString(i)) == Some(i)
  {
    if i < 0 {
      ParseIntOfNegative(i);
    } else {
      ParseIntOfNatText(i);
    }
  }

  lemma {:induction false} ParseIntOfNegative(i: int)
    requires i < 0
    ensures ParseInt(IntToString(i)) == Some(i)
  {
    assert IntToString(i) == "-" + NatToString(-i);
    ParseIntOfMinusNat(-i);
  }

  /** `int('-' + str(n))` is `-n`. */
  lemma {:induction false} ParseIntOfMinusNat(n: nat)
    ensures ParseInt("-" + NatToString(n)) == Some(-(n as int))
  {
    var d := NatToString(n);
    DigitsOfNat(n);
    ParseIntOfSignedText("-" + d, d, n);
  }

  /** `int(t)` for `t` a '-' followed by a run of digits. */
  lemma {:induction false} ParseIntOfSignedText(t: string, d: string, n: nat)
    requires t == "-" + d && |d| > 0 && AllDigits(d) && DigitsValue(d) == n
    ensures ParseInt(t) == Some(-(n as int))
  {
    assert t[0] == '-' && t[1..] == d;
    ParseIntOfMinusDigits(t, d);
  }

  /** `int('-' + digits)` is the negated digits' value. */
  lemma {:induction false} ParseIntOfMinusDigits(t: string, d: string)
    requires |t| > 0 && t[0] == '-' && t[1..] == d
    requires |d| > 0 && AllDigits(d)
    ensures ParseInt(t) == Some(-(DigitsValue(d) as int))
  {
    assert StripLeft(d) == d by {
      assert IsDigit(d[0]);
    }
    assert ParseInt(t) == ParseStripped(t) by {
      assert t[|t| - 1] == d[|d| - 1] && IsDigit(d[|d| - 1]);
      ParseIntOfStripped(t);
    }
    ParseStrippedSigned(t, d);
  }

  lemma {:induction false} ParseIntOfNatText(n: nat)
    ensures ParseInt(NatToString(n)) == Some(n)
  {
    var d := NatToString(n);
    DigitsOfNat(n);
    assert ParseInt(d) == ParseStripped(d) by {
      assert IsDigit(d[0]) && IsDigit(d[|d| - 1]);
      ParseIntOfStripped(d);
    }
    assert ParseStripped(d) == Some(n) by {
      assert IsDigit(d[0]);
    }
  }

  lemma {:induction false} StripLeftOfSpaces(w: string, d: string)
    requires forall k :: 0 <= k < |w| ==> IsSpace(w[k])
    requires |d| > 0 && !IsSpace(d[0])
    ensures StripLeft(w + d) == d
  {
    if |w| > 0 {
      assert (w + d)[1..] == w[1..] + d;
      StripLeftOfSpaces(w[1..], d);
    } else {
      assert w + d == d;
    }
  }

  /** A sign, whitespace, then digits: Python 2 `int()` skips whitespace
      after the sign, as `PyOS_strtoul` strips leading space once more. */
  lemma {:induction false} ParseIntOfSpacedSign(c: char, w: string, d: string)
    requires c == '-' || c == '+'
    requires forall k :: 0 <= k < |w| ==> IsSpace(w[k])
    requires |d| > 0 && AllDigits(d)
    ensures c == '-' ==> ParseInt([c] + (w + d)) == Some(-(DigitsValue(d) as int))
    ensures c == '+' ==> ParseInt([c] + (w + d)) == Some(DigitsValue(d) as int)
  {
    SpacedSignIsStripped(c, w, d);
    SpacesAfterSign(c, w, d);
    ParseStrippedSigned([c] + (w + d), d);
  }

  lemma {:induction false} SpacedSignIsStripped(c: char, w: string, d: string)
    requires c == '-' || c == '+'
    requires |d| > 0 && AllDigits(d)
    ensures ParseInt([c] + (w + d)) == ParseStripped([c] + (w + d))
  {
    var s := [c] + (w + d);
    assert s[|s| - 1] == d[|d| - 1];
    assert IsDigit(d[|d| - 1]);
    ParseIntOfStripped(s);
  }

  lemma {:induction false} SpacesAfterSign(c: char, w: string, d: string)
    requires forall k :: 0 <= k < |w| ==> IsSpace(w[k])
    requires |d| > 0 && AllDigits(d)
    ensures StripLeft(([c] + (w + d))[1..]) == d
  {
    var u := w + d;
    assert ([c] + u)[1..] == u;
    assert IsDigit(d[0]);
    StripLeftOfSpaces(w, d);
  }

  lemma ParseIntOfStripped(s: string)
    requires |s| > 0 && !IsSpace(s[0]) && !IsSpace(s[|s| - 1])
    ensures ParseInt(s) == ParseStripped(s)
  {
    NoSpaceStripped(s);
  }

  lemma ParseStrippedSigned(t: string, d: string)
    requires |t| > 0 && (t[0] == '-' || t[0] == '+')
    requires StripLeft(t[1..]) == d && |d| > 0 && AllDigits(d)
    ensures ParseStripped(t) == Some(if t[0] == '-' then -(DigitsValue(d) as int) else DigitsValue(d) as int)
  {
  }

  lemma EqualReflexive(a: Value)
    ensures Equal(a, a)
  {
  }

  // A Python dict whose iteration order matters is a sequence of
  // (key, value) pairs in that order.

  /** No key occurs twice, as in any Python dict. */
  ghost predicate DistinctKeys<V>(d: seq<(string, V)>) {
    forall i, j :: 0 <= i < j < |d| ==> d[i].0 != d[j].0
  }

  /** `d[k]` on the pairs: the value of the first pair with key `k`. */
  function Lookup<V>(d: seq<(string, V)>, k: string): (r: Option<V>)
    ensures r.None? <==> forall i :: 0 <= i < |d| ==> d[i].0 != k
    ensures r.Some? ==> exists i :: 0 <= i < |d| && d[i] == (k, r.value)
  {
    if |d| == 0 then None
    else if d[0].0 == k then Some(d[0].1)
    else
      var r := Lookup(d[1..], k);
      assert r.Some? ==> exists i :: 0 <= i < |d[1..]| && d[1..][i] == (k, r.value);
      r
  }

  /** `dict(d)`: the map the pairs describe, later pairs winning. */
  function ToMap<V>(d: seq<(string, V)>): (m: map<string, V>)
    ensures forall k :: k in m <==> exists i :: 0 <= i < |d| && d[i].0 == k
  {
    if |d| == 0 then map[]
    else
      var m := ToMap(d[..|d| - 1]);
      assert forall i :: 0 <= i < |d| - 1 ==> d[..|d| - 1][i] == d[i];
      m[d[|d| - 1].0 := d[|d| - 1].1]
  }

  lemma {:induction false} ToMapOfDistinct<V>(d: seq<(string, V)>)
    requires DistinctKeys(d)
    ensures forall i :: 0 <= i < |d| ==> ToMap(d)[d[i].0] == d[i].1
  {
    if |d| > 0 {
      var p := d[..|d| - 1];
      assert DistinctKeys(p) by {
        forall i, j | 0 <= i < j < |p|
          ensures p[i].0 != p[j].0
        {
          assert p[i] == d[i] && p[j] == d[j];
        }
      }
      ToMapOfDistinct(p);
      forall i | 0 <= i < |d| - 1
        ensures ToMap(d)[d[i].0] == d[i].1
      {
        assert p[i] == d[i];
      }
    }
  }
}
