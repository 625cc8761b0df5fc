/** Character-level helpers shared by the interval parser and the interpreter:
    decimal digits, Python's notion of whitespace, `str.lower`, `str.strip`
    and the integer literals accepted by `int(...)`. */
module Text {

  datatype Option<+T> = None | Some(value: T) {
    function GetOr(default: T): T {
      match this
      case Some(v) => v
      case None => default
    }
  }

  predicate IsDigit(c: char) {
    '0' <= c <= '9'
  }

  function DigitValue(c: char): (d: nat)
    requires IsDigit(c)
    ensures d < 10
  {
    (c as int) - ('0' as int)
  }

  predicate AllDigits(s: string) {
    forall i :: 0 <= i < |s| ==> IsDigit(s[i])
  }

  predicate HasDigit(s: string) {
    exists i :: 0 <= i < |s| && IsDigit(s[i])
  }

  /** The natural number written in decimal by the digit string `s`. */
  function DigitsValue(s: string): (n: nat)
    requires AllDigits(s)
    decreases |s|
  {
    if s == [] then 0 else DigitsValue(s[..|s| - 1]) * 10 + DigitValue(s[|s| - 1])
  }

  /** Appending a digit multiplies by ten and adds it. */
  lemma DigitsValueSnoc(x: string, c: char)
    requires AllDigits(x) && IsDigit(c)
    ensures AllDigits(x + [c])
    ensures DigitsValue(x + [c]) == DigitsValue(x) * 10 + DigitValue(c)
  {
    assert (x + [c])[..|x|] == x;
  }

  function Pow10(k: nat): (p: nat)
    ensures p >= 1
  {
    if k == 0 then 1 else 10 * Pow10(k - 1)
  }

  /** The characters for which Python's `str.isspace()` holds; `str.strip()`
      and `int()` discard exactly these around their argument. */
  predicate IsSpace(c: char) {
    c == ' ' || ('\t' <= c <= '\r') || ('\U{1C}' <= c <= '\U{1F}')
    || c == '\U{85}' || c == '\U{A0}' || c == '\U{1680}'
    || ('\U{2000}' <= c <= '\U{200A}') || c == '\U{2028}' || c == '\U{2029}'
    || c == '\U{202F}' || c == '\U{205F}' || c == '\U{3000}'
  }

  predicate AllSpace(s: string) {
    forall i :: 0 <= i < |s| ==> IsSpace(s[i])
  }

  predicate IsUpper(c: char) {
    ('A' <= c <= 'Z') || ('\U{C0}' <= c <= '\U{DE}' && c != '\U{D7}')
  }

  /** `str.lower()` on one character, for the Basic Latin and Latin-1 letters. */
  function LowerChar(c: char): (r: char)
    ensures !IsUpper(r)
  {
    if IsUpper(c) then (c as int + 32) as char else c
  }

  function Lower(s: string): (r: string)
    ensures |r| == |s|
    ensures forall i :: 0 <= i < |s| ==> r[i] == LowerChar(s[i])
  {
    if s == [] then [] else [LowerChar(s[0])] + Lower(s[1..])
  }

  /** Lower-casing a lower-cased string changes nothing. */
  lemma LowerIdempotent(s: string)
    ensures Lower(Lower(s)) == Lower(s)
  {
  }

  /** `s` without its leading whitespace. */
  function StripLeft(s: string): string {
    if s != [] && IsSpace(s[0]) then StripLeft(s[1..]) else s
  }

  /** `s` without its trailing whitespace. */
  function StripRight(s: string): string {
    if s != [] && IsSpace(s[|s| - 1]) then StripRight(s[..|s| - 1]) else s
  }

  /** `str.strip()`: whitespace cut off at both ends. */
  function Strip(s: string): string {
    StripRight(StripLeft(s))
  }

  /** What `StripLeft` cuts off is whitespace, and what it keeps is a suffix
      that does not start with whitespace. */
  lemma {:induction false} StripLeftShape(s: string)
    ensures var r := StripLeft(s);
      |r| <= |s| && r == s[|s| - |r|..] && AllSpace(s[..|s| - |r|]) && (r != [] ==> !IsSpace(r[0]))
    decreases |s|
  {
    if s != [] && IsSpace(s[0]) {
      var t := s[1..];
      StripLeftShape(t);
      var r := StripLeft(t);
      var k := |s| - |r|;
      assert r == s[k..] by { assert t[|t| - |r|..] == s[k..]; }
      forall i | 0 <= i < k ensures IsSpace(s[i]) {
        if i > 0 { assert s[i] == t[..|t| - |r|][i - 1]; }
      }
    } else {
      assert s[|s|..] == [] && s[..0] == [];
    }
  }

  /** What `StripRight` cuts off is whitespace, and what it keeps is a
      prefix that does not end with whitespace. */
  lemma {:induction false} StripRightShape(s: string)
    ensures var r := StripRight(s);
      |r| <= |s| && r == s[..|r|] && AllSpace(s[|r|..]) && (r != [] ==> !IsSpace(r[|r| - 1]))
    decreases |s|
  {
    if s != [] && IsSpace(s[|s| - 1]) {
      var t := s[..|s| - 1];
      StripRightShape(t);
      var r := StripRight(t);
      assert r == s[..|r|] by { assert t[..|r|] == s[..|r|]; }
      forall i | |r| <= i < |s| ensures IsSpace(s[i]) {
        if i < |t| { assert s[i] == t[|r|..][i - |r|]; }
      }
    } else {
      assert s[..|s|] == s && s[|s|..] == [];
    }
  }

  /** `Strip(s)` is the slice of `s` between its leading and its trailing
      whitespace, and neither starts nor ends with whitespace. */
  lemma StripShape(s: string)
    ensures |StripLeft(s)| <= |s|
    ensures var a := |s| - |StripLeft(s)|; var r := Strip(s);
      a + |r| <= |s| && r == s[a..a + |r|] && AllSpace(s[..a]) && AllSpace(s[a + |r|..])
      && (r != [] ==> !IsSpace(r[0]) && !IsSpace(r[|r| - 1]))
  {
    var l := StripLeft(s);
    StripLeftShape(s);
    StripRightShape(l);
    StripParts(s, |s| - |l|, l, StripRight(l));
  }

  /** Cutting `r` from the front of the suffix `l` of `s` cuts it from `s`. */
  lemma StripParts(s: string, a: nat, l: string, r: string)
    requires a <= |s| && l == s[a..] && (l != [] ==> !IsSpace(l[0]))
    requires |r| <= |l| && r == l[..|r|] && AllSpace(l[|r|..])
    requires r != [] ==> !IsSpace(r[|r| - 1])
    ensures a + |r| <= |s| && r == s[a..a + |r|] && AllSpace(s[a + |r|..])
    ensures r != [] ==> !IsSpace(r[0]) && !IsSpace(r[|r| - 1])
  {
    assert s[a + |r|..] == l[|r|..];
    if r != [] {
      assert r[0] == l[0];
    }
  }

  lemma {:induction false} StripLeftPadded(p: string, s: string)
    requires AllSpace(p)
    requires s == [] || !IsSpace(s[0])
    ensures StripLeft(p + s) == s
    decreases |p|
  {
    if p != [] {
      assert (p + s)[1..] == p[1..] + s;
      StripLeftPadded(p[1..], s);
    } else {
      assert p + s == s;
    }
  }

  lemma {:induction false} StripRightPadded(s: string, p: string)
    requires AllSpace(p)
    requires s == [] || !IsSpace(s[|s| - 1])
    ensures StripRight(s + p) == s
    decreases |p|
  {
    if p != [] {
      assert (s + p)[..|s + p| - 1] == s + p[..|p| - 1];
      StripRightPadded(s, p[..|p| - 1]);
    } else {
      assert s + p == s;
    }
  }

  lemma {:induction false} StripLeftAllSpace(p: string)
    requires AllSpace(p)
    ensures StripLeft(p) == []
    decreases |p|
  {
    if p != [] {
      StripLeftAllSpace(p[1..]);
    }
  }

  lemma AllSpaceConcat(x: string, y: string)
    requires AllSpace(x) && AllSpace(y)
    ensures AllSpace(x + y)
  {
    assert forall i :: |x| <= i < |x + y| ==> (x + y)[i] == y[i - |x|];
  }

  lemma Regroup(p: string, l: string, t: string, r: string, q: string)
    ensures p + (l + t + r) + q == (p + l) + t + (r + q)
  {
  }

  /** A string that neither starts nor ends with whitespace, padded with
      whitespace on both sides, strips back to itself. */
  lemma StripOfPadded(p: string, t: string, q: string)
    requires AllSpace(p) && AllSpace(q)
    requires t == [] || (!IsSpace(t[0]) && !IsSpace(t[|t| - 1]))
    ensures Strip(p + t + q) == t
  {
    assert p + t + q == p + (t + q);
    if t == [] {
      AllSpaceConcat(p, q);
      assert p + (t + q) == p + q;
      StripLeftAllSpace(p + q);
    } else {
      StripLeftPadded(p, t + q);
      StripRightPadded(t, q);
    }
  }

  /** A string is its leading whitespace, its strip and its trailing
      whitespace, in that order. */
  lemma StripSplit(s: string)
    ensures |StripLeft(s)| <= |s| && |s| - |StripLeft(s)| + |Strip(s)| <= |s|
    ensures var a := |s| - |StripLeft(s)|; var t := Strip(s);
      s == s[..a] + t + s[a + |t|..]
  {
    StripShape(s);
  }

  lemma StripOfPaddedParts(p: string, lead: string, t: string, trail: string, q: string)
    requires AllSpace(p) && AllSpace(lead) && AllSpace(trail) && AllSpace(q)
    requires t == [] || (!IsSpace(t[0]) && !IsSpace(t[|t| - 1]))
    ensures Strip(p + (lead + t + trail) + q) == t
  {
    AllSpaceConcat(p, lead);
    AllSpaceConcat(trail, q);
    Regroup(p, lead, t, trail, q);
    StripOfPadded(p + lead, t, trail + q);
  }

  /** Whitespace added around a string makes no difference to `strip()`. */
  lemma StripPadded(p: string, s: string, q: string)
    requires AllSpace(p) && AllSpace(q)
    ensures Strip(p + s + q) == Strip(s)
  {
    var t := Strip(s);
    var a := |s| - |StripLeft(s)|;
    StripShape(s);
    StripSplit(s);
    StripOfPaddedParts(p, s[..a], t, s[a + |t|..], q);
  }

  /** A string that does not start or end with whitespace is its own strip. */
  lemma StripTrimmed(s: string)
    requires s == [] || (!IsSpace(s[0]) && !IsSpace(s[|s| - 1]))
    ensures Strip(s) == s
  {
    StripPadded([], s, []);
    assert [] + s + [] == s;
    if s != [] {
      StripLeftPadded([], s);
      assert [] + s == s;
      StripRightPadded(s, []);
      assert s + [] == s;
    }
  }

  /** `str.strip()` applied twice strips nothing more. */
  lemma StripIdempotent(s: string)
    ensures Strip(Strip(s)) == Strip(s)
  {
    StripShape(s);
    StripTrimmed(Strip(s));
  }

  /** Lower-casing never turns whitespace into non-whitespace or back, so it
      commutes with `strip()`. */
  lemma LowerPreservesSpace(s: string)
    ensures AllSpace(s) ==> AllSpace(Lower(s))
    ensures forall i :: 0 <= i < |s| ==> (IsSpace(Lower(s)[i]) <==> IsSpace(s[i]))
  {
  }

  /** Removes every occurrence of `c`, as `s.replace(c, "")` does. */
  function RemoveAll(s: string, c: char): (r: string)
    ensures c !in r
    ensures forall d :: d != c ==> (d in r <==> d in s)
    ensures |r| <= |s|
  {
    if s == [] then [] else (if s[0] == c then [] else [s[0]]) + RemoveAll(s[1..], c)
  }

  /** `replace` works piece by piece: it distributes over concatenation ... */
  lemma {:induction false} RemoveAllConcat(x: string, y: string, c: char)
    ensures RemoveAll(x + y, c) == RemoveAll(x, c) + RemoveAll(y, c)
    decreases |x|
  {
    if x == [] {
      assert x + y == y;
    } else {
      assert (x + y)[1..] == x[1..] + y;
      RemoveAllConcat(x[1..], y, c);
    }
  }

  /** ... and on one character it deletes `c` and keeps anything else, so
      the other characters stay in order and in number. */
  lemma RemoveAllSingle(d: char, c: char)
    ensures RemoveAll([d], c) == if d == c then [] else [d]
  {
    assert [d][1..] == [];
  }

  /** Without an occurrence of `c` there is nothing to remove. */
  lemma {:induction false} RemoveAllAbsent(s: string, c: char)
    requires c !in s
    ensures RemoveAll(s, c) == s
    decreases |s|
  {
    if s != [] {
      assert c !in s[1..];
      RemoveAllAbsent(s[1..], c);
      assert s == [s[0]] + s[1..];
    }
  }

  function Count(s: string, c: char): (n: nat)
    ensures n <= |s|
    ensures n == 0 <==> c !in s
  {
    if s == [] then 0 else (if s[0] == c then 1 else 0) + Count(s[1..], c)
  }

  /** Index of the first occurrence of `c` in `s`. */
  function IndexOf(s: string, c: char): (k: nat)
    requires c in s
    ensures k < |s| && s[k] == c && c !in s[..k]
  {
    if s[0] == c then 0 else 1 + IndexOf(s[1..], c)
  }

  /** Strings that Python's `int()` accepts in this model: surrounding
      whitespace, an optional sign, then one or more ASCII digits. */
  predicate IsIntLiteral(s: string) {
    var t := Strip(s);
    |t| > 0 &&
    if t[0] == '+' || t[0] == '-' then |t| > 1 && AllDigits(t[1..]) else AllDigits(t)
  }

  function IntValue(s: string): (n: int)
    requires IsIntLiteral(s)
  {
    var t := Strip(s);
    if t[0] == '-' then -(DigitsValue(t[1..]) as int)
    else if t[0] == '+' then DigitsValue(t[1..])
    else DigitsValue(t)
  }

  /** A run of ASCII digits is an `int()` literal with its decimal value. */
  lemma DigitsLiteral(d: string)
    requires |d| > 0 && AllDigits(d)
    ensures IsIntLiteral(d) && IntValue(d) == DigitsValue(d)
  {
    assert IsDigit(d[0]) && IsDigit(d[|d| - 1]);
    StripTrimmed(d);
  }

  /** `int()` reads a minus sign in front of the digits as a negative number. */
  lemma NegativeLiteral(d: string)
    requires |d| > 0 && AllDigits(d)
    ensures IsIntLiteral(['-'] + d) && IntValue(['-'] + d) == -(DigitsValue(d) as int)
  {
    var s := ['-'] + d;
    assert s[0] == '-' && s[|s| - 1] == d[|d| - 1] && IsDigit(d[|d| - 1]);
    StripTrimmed(s);
    assert s[1..] == d;
  }

  /** Whitespace around an `int()` literal makes no difference to whether it
      is read or to its value. */
  lemma IntLiteralPadded(p: string, s: string, q: string)
    requires AllSpace(p) && AllSpace(q)
    ensures IsIntLiteral(p + s + q) <==> IsIntLiteral(s)
    ensures IsIntLiteral(s) ==> IntValue(p + s + q) == IntValue(s)
  {
    StripPadded(p, s, q);
  }
}
