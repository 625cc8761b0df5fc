/** The reference-range parser `parse_interval`: a free-text range such as
    "12,0 a 15,8", "< 200" or "140.000 a 450.000" becomes a pair of optional
    bounds. Numbers are exact decimals (reals) read from the text's tokens. */
module Interval {
  import opened Text

  /** Lower and upper bound; `None` is Python's `None`. */
  datatype Bounds = Bounds(lo: Option<real>, hi: Option<real>)

  /** A numeric token `\d+(?:\.\d+)?`: its integer digits and, after the
      point, its fraction digits (empty when the token has no point). */
  datatype Token = Token(whole: string, frac: string)

  predicate WellFormedToken(t: Token) {
    |t.whole| > 0 && AllDigits(t.whole) && AllDigits(t.frac)
  }

  /** The text of a token as it appears in the range string. */
  function TokenText(t: Token): string {
    t.whole + (if t.frac == [] then [] else ['.'] + t.frac)
  }

  /** `x` with the decimal point moved `k` places to the left. */
  function Shift(x: real, k: nat): real {
    x / Pow10(k) as real
  }

  /** `float(token)`, exactly. */
  function Value(t: Token): (v: real)
    requires WellFormedToken(t)
    ensures v >= DigitsValue(t.whole) as real
  {
    DigitsValue(t.whole) as real + Shift(DigitsValue(t.frac) as real, |t.frac|)
  }

  // ---------------------------------------------------------------------
  // Rewriting: `replace(",", ".")` and `re.sub(r"(?<=\d)\.(?=\d{3})", "", ...)`

  function ReplaceCommas(s: string): (r: string)
    ensures |r| == |s|
  {
    if s == [] then [] else [if s[0] == ',' then '.' else s[0]] + ReplaceCommas(s[1..])
  }

  /** Every comma becomes a point; nothing else changes. */
  lemma {:induction false} ReplaceCommasAt(s: string)
    ensures ',' !in ReplaceCommas(s)
    ensures forall i :: 0 <= i < |s| ==> ReplaceCommas(s)[i] == (if s[i] == ',' then '.' else s[i])
  {
    if s != [] {
      ReplaceCommasAt(s[1..]);
      var r := ReplaceCommas(s);
      assert r == [if s[0] == ',' then '.' else s[0]] + ReplaceCommas(s[1..]);
      forall i | 0 < i < |s| ensures r[i] == (if s[i] == ',' then '.' else s[i]) {
        assert r[i] == ReplaceCommas(s[1..])[i - 1];
        assert s[1..][i - 1] == s[i];
      }
    }
  }

  /** The point at index `i` has a digit before it and three digits after
      it, so the substitution reads it as a thousands separator. Both
      look-arounds look at `s` itself, not at the partly rewritten text. */
  predicate IsSeparatorAt(s: string, i: int) {
    1 <= i && i + 3 < |s| && s[i] == '.'
    && IsDigit(s[i - 1]) && IsDigit(s[i + 1]) && IsDigit(s[i + 2]) && IsDigit(s[i + 3])
  }

  /** `s[i..]` without the separator points of `s`. */
  function DropFrom(s: string, i: nat): (r: string)
    requires i <= |s|
    ensures |r| <= |s| - i
    decreases |s| - i
  {
    if i == |s| then []
    else (if IsSeparatorAt(s, i) then [] else [s[i]]) + DropFrom(s, i + 1)
  }

  function DropSeparators(s: string): (r: string)
    ensures |r| <= |s|
  {
    DropFrom(s, 0)
  }

  /** The rewriting `parse_interval` applies before it looks for tokens. */
  function RewriteAsWritten(text: string): string {
    DropSeparators(ReplaceCommas(text))
  }

  /** The same two rewrites in the other order: thousands points are found in
      the text as written, and only then do commas become decimal points. */
  function RewriteDecimalComma(text: string): string {
    ReplaceCommas(DropSeparators(text))
  }

  // ---------------------------------------------------------------------
  // Tokens: `re.findall(r"\d+(?:\.\d+)?", ...)`

  /** Length of the run of digits in `s` that starts at index `i`. */
  function DigitRun(s: string, i: nat): (n: nat)
    requires i <= |s|
    ensures i + n <= |s|
    decreases |s| - i
  {
    if i < |s| && IsDigit(s[i]) then 1 + DigitRun(s, i + 1) else 0
  }

  /** The run is made of digits, stops at a character that is not one, and
      is empty only when it starts at one that is not. */
  lemma {:induction false} DigitRunShape(s: string, i: nat)
    requires i <= |s|
    ensures var n := DigitRun(s, i);
      (forall k :: i <= k < i + n ==> IsDigit(s[k]))
      && (i + n < |s| ==> !IsDigit(s[i + n]))
      && (i < |s| && IsDigit(s[i]) ==> n > 0)
    decreases |s| - i
  {
    if i < |s| && IsDigit(s[i]) {
      DigitRunShape(s, i + 1);
    }
  }

  /** A run of digits from `i` to a non-digit (or the end) at `j` is what
      `DigitRun` measures. */
  lemma {:induction false} DigitRunSpan(s: string, i: nat, j: nat)
    requires i <= j <= |s|
    requires forall k :: i <= k < j ==> IsDigit(s[k])
    requires j == |s| || !IsDigit(s[j])
    ensures DigitRun(s, i) == j - i
    decreases j - i
  {
    if i < j {
      DigitRunSpan(s, i + 1, j);
    }
  }

  lemma AllDigitsSlice(s: string, i: nat, j: nat)
    requires i <= j <= |s| && AllDigits(s[i..j])
    ensures forall k :: i <= k < j ==> IsDigit(s[k])
  {
    forall k | i <= k < j ensures IsDigit(s[k]) {
      assert s[k] == s[i..j][k - i];
    }
  }

  /** The token that `s` starts with, and the number of characters it
      takes: a run of digits, then a point and a second run of digits when
      the point is followed by a digit. */
  function FirstToken(s: string): (r: (Token, nat))
    requires s != [] && IsDigit(s[0])
    ensures 0 < r.1 <= |s|
  {
    var n := DigitRun(s, 0);
    if n + 1 < |s| && s[n] == '.' && IsDigit(s[n + 1]) then
      var m := DigitRun(s, n + 1);
      (Token(s[..n], s[n + 1..n + 1 + m]), n + 1 + m)
    else
      (Token(s[..n], []), n)
  }

  /** The numeric tokens of `s`, leftmost first, each as long as the greedy
      pattern makes it; scanning resumes right after each token. */
  function Tokens(s: string): seq<Token>
    decreases |s|
  {
    if s == [] then []
    else if !IsDigit(s[0]) then Tokens(s[1..])
    else [FirstToken(s).0] + Tokens(s[FirstToken(s).1..])
  }

  lemma TokensStep(s: string)
    requires s != [] && IsDigit(s[0])
    ensures Tokens(s) == [FirstToken(s).0] + Tokens(s[FirstToken(s).1..])
  {
  }

  lemma FirstTokenInteger(s: string, n: nat)
    requires s != [] && IsDigit(s[0]) && DigitRun(s, 0) == n
    requires n + 1 >= |s| || s[n] != '.'
    ensures FirstToken(s) == (Token(s[..n], []), n)
  {
  }

  lemma FirstTokenDecimal(s: string, n: nat, m: nat)
    requires n + 1 < |s| && IsDigit(s[0]) && DigitRun(s, 0) == n
    requires s[n] == '.' && IsDigit(s[n + 1]) && DigitRun(s, n + 1) == m
    ensures n + 1 + m <= |s|
    ensures FirstToken(s) == (Token(s[..n], s[n + 1..n + 1 + m]), n + 1 + m)
  {
  }

  lemma FirstTokenWellFormed(s: string)
    requires s != [] && IsDigit(s[0])
    ensures WellFormedToken(FirstToken(s).0)
  {
    var n := DigitRun(s, 0);
    DigitRunShape(s, 0);
    assert AllDigits(s[..n]) by {
      forall k | 0 <= k < n ensures IsDigit(s[..n][k]) { assert s[..n][k] == s[k]; }
    }
    if n + 1 < |s| && s[n] == '.' && IsDigit(s[n + 1]) {
      var m := DigitRun(s, n + 1);
      DigitRunShape(s, n + 1);
      var f := s[n + 1..n + 1 + m];
      forall k | 0 <= k < m ensures IsDigit(f[k]) { assert f[k] == s[n + 1 + k]; }
    }
  }

  /** Every token has one or more digits before the point and only digits
      after it. */
  lemma {:induction false} TokensWellFormed(s: string)
    ensures forall k :: 0 <= k < |Tokens(s)| ==> WellFormedToken(Tokens(s)[k])
    decreases |s|
  {
    if s == [] {
    } else if !IsDigit(s[0]) {
      TokensWellFormed(s[1..]);
    } else {
      var t, rest := FirstToken(s).0, s[FirstToken(s).1..];
      TokensStep(s);
      FirstTokenWellFormed(s);
      TokensWellFormed(rest);
      forall k | 0 <= k < |Tokens(s)| ensures WellFormedToken(Tokens(s)[k]) {
        if k > 0 { assert Tokens(s)[k] == Tokens(rest)[k - 1]; }
      }
    }
  }

  // ---------------------------------------------------------------------
  // The priority rules

  /** The early returns of `parse_interval`, applied to the rewritten text:
      `<` first, then `>`, then two tokens, then one, then none. */
  function Decide(s: string): Bounds {
    TokensWellFormed(s);
    var ts := Tokens(s);
    if '<' in s && |ts| > 0 then Bounds(None, Some(Value(ts[0])))
    else if '>' in s && |ts| > 0 then Bounds(Some(Value(ts[0])), None)
    else if |ts| >= 2 then Bounds(Some(Value(ts[0])), Some(Value(ts[1])))
    else if |ts| == 1 then Bounds(Some(Value(ts[0])), Some(Value(ts[0])))
    else Bounds(None, None)
  }

  /** `parse_interval` as the repository writes it. */
  function ParseIntervalAsWritten(text: string): Bounds {
    Decide(RewriteAsWritten(text))
  }

  /** `parse_interval` with a comma always read as a decimal point: the
      corrected parser. The interpreter keeps the code's
      `ParseIntervalAsWritten`. */
  function ParseInterval(text: string): Bounds {
    Decide(RewriteDecimalComma(text))
  }

  // ---------------------------------------------------------------------
  // Lemmas: the rewriting

  lemma {:induction false} DropFromKeepsNonDots(s: string, i: nat)
    requires i <= |s|
    ensures RemoveAll(DropFrom(s, i), '.') == RemoveAll(s[i..], '.')
    decreases |s| - i
  {
    if i < |s| {
      DropFromKeepsNonDots(s, i + 1);
      var head := if IsSeparatorAt(s, i) then [] else [s[i]];
      RemoveAllConcat(head, DropFrom(s, i + 1), '.');
      assert s[i..] == [s[i]] + s[i + 1..];
      RemoveAllConcat([s[i]], s[i + 1..], '.');
    }
  }

  /** Dropping thousands separators removes points only: every other
      character survives, in order. */
  lemma DropSeparatorsKeepsNonDots(s: string)
    ensures RemoveAll(DropSeparators(s), '.') == RemoveAll(s, '.')
  {
    DropFromKeepsNonDots(s, 0);
    assert s[0..] == s;
  }

  lemma {:induction false} DropFromNoSeparator(s: string, i: nat, j: nat)
    requires i <= j <= |s|
    requires forall p :: i <= p < j ==> !IsSeparatorAt(s, p)
    ensures DropFrom(s, i) == s[i..j] + DropFrom(s, j)
    decreases j - i
  {
    if i < j {
      DropFromKept(s, i);
      DropFromNoSeparator(s, i + 1, j);
      SliceCons(s, i, j);
      Assoc([s[i]], s[i + 1..j], DropFrom(s, j));
    } else {
      assert s[i..j] == [];
    }
  }

  /** A character that is not a separator is copied. */
  lemma DropFromKept(s: string, i: nat)
    requires i < |s| && !IsSeparatorAt(s, i)
    ensures DropFrom(s, i) == [s[i]] + DropFrom(s, i + 1)
  {
  }

  lemma SliceCons<T>(s: seq<T>, i: nat, j: nat)
    requires i < j <= |s|
    ensures s[i..j] == [s[i]] + s[i + 1..j]
  {
  }

  lemma Assoc<T>(a: seq<T>, b: seq<T>, c: seq<T>)
    ensures a + (b + c) == (a + b) + c
  {
  }

  /** A text with no thousands separator is left as it is. */
  lemma DropSeparatorsUnchanged(s: string)
    requires forall p :: 0 <= p < |s| ==> !IsSeparatorAt(s, p)
    ensures DropSeparators(s) == s
  {
    DropFromNoSeparator(s, 0, |s|);
    assert s[0..|s|] == s;
  }

  /** A stretch without points is copied as it is. */
  lemma {:induction false} DropFromNoPoint(s: string, i: nat, j: nat)
    requires i <= j <= |s| && '.' !in s[i..j]
    ensures DropFrom(s, i) == s[i..j] + DropFrom(s, j)
    decreases j - i
  {
    if i < j {
      assert s[i..j] == [s[i]] + s[i + 1..j];
      assert !IsSeparatorAt(s, i);
      assert DropFrom(s, i) == [s[i]] + DropFrom(s, i + 1);
      DropFromNoPoint(s, i + 1, j);
      Assoc([s[i]], s[i + 1..j], DropFrom(s, j));
    } else {
      assert s[i..j] == [];
    }
  }

  /** A text whose only point is a thousands separator loses exactly it. */
  lemma DropOneSeparator(s: string, k: nat)
    requires k < |s| && IsSeparatorAt(s, k)
    requires '.' !in s[..k] && '.' !in s[k + 1..]
    ensures DropSeparators(s) == s[..k] + s[k + 1..]
  {
    var x, y := s[..k], s[k + 1..];
    assert s[0..k] == x;
    assert s[k + 1..|s|] == y;
    DropFromNoPoint(s, 0, k);
    DropFromNoPoint(s, k + 1, |s|);
    assert DropFrom(s, |s|) == [];
    assert y + [] == y;
  }

  lemma DropFromKeepsChar(s: string, i: nat, c: char)
    requires i <= |s| && c != '.'
    ensures c in DropFrom(s, i) <==> c in s[i..]
  {
    DropFromKeepsNonDots(s, i);
  }

  /** Two texts agree on the comparison signs and on having a digit. */
  predicate SameSignsAndDigits(x: string, y: string) {
    && ('<' in x <==> '<' in y)
    && ('>' in x <==> '>' in y)
    && (HasDigit(x) <==> HasDigit(y))
  }

  lemma SameDigits(x: string, y: string)
    requires forall ch :: IsDigit(ch) ==> (ch in x <==> ch in y)
    ensures HasDigit(x) <==> HasDigit(y)
  {
    HasDigitIsMember(x);
    HasDigitIsMember(y);
  }

  lemma ReplaceCommasKeeps(s: string, ch: char)
    requires ch != ',' && ch != '.'
    ensures ch in ReplaceCommas(s) <==> ch in s
  {
    ReplaceCommasAt(s);
    var r := ReplaceCommas(s);
    if ch in s { var i :| 0 <= i < |s| && s[i] == ch; assert r[i] == ch; }
    if ch in r { var i :| 0 <= i < |r| && r[i] == ch; assert s[i] == ch; }
  }

  lemma ReplaceCommasPreserves(s: string)
    ensures SameSignsAndDigits(ReplaceCommas(s), s)
  {
    ReplaceCommasKeeps(s, '<');
    ReplaceCommasKeeps(s, '>');
    forall ch | IsDigit(ch) ensures ch in ReplaceCommas(s) <==> ch in s {
      ReplaceCommasKeeps(s, ch);
    }
    SameDigits(ReplaceCommas(s), s);
  }

  lemma DropSeparatorsPreserves(s: string)
    ensures SameSignsAndDigits(DropSeparators(s), s)
  {
    assert s[0..] == s;
    DropFromKeepsChar(s, 0, '<');
    DropFromKeepsChar(s, 0, '>');
    forall ch | IsDigit(ch) ensures ch in DropSeparators(s) <==> ch in s {
      DropFromKeepsChar(s, 0, ch);
    }
    SameDigits(DropSeparators(s), s);
  }

  /** The rewriting keeps the comparison signs and the digits of the text. */
  lemma RewritePreserves(text: string)
    ensures SameSignsAndDigits(RewriteAsWritten(text), text)
    ensures SameSignsAndDigits(RewriteDecimalComma(text), text)
  {
    ReplaceCommasPreserves(text);
    DropSeparatorsPreserves(ReplaceCommas(text));
    DropSeparatorsPreserves(text);
    ReplaceCommasPreserves(DropSeparators(text));
  }

  /** Every character other than a comma or a point, each digit and the
      `<`, `>`, `+` and `-` signs among them, occurs after either rewrite
      exactly when it occurs before. */
  lemma RewriteKeepsChar(text: string, ch: char)
    requires ch != ',' && ch != '.'
    ensures ch in RewriteAsWritten(text) <==> ch in text
    ensures ch in RewriteDecimalComma(text) <==> ch in text
  {
    ReplaceCommasKeeps(text, ch);
    var r := ReplaceCommas(text);
    assert r[0..] == r;
    DropFromKeepsChar(r, 0, ch);
    assert text[0..] == text;
    DropFromKeepsChar(text, 0, ch);
    ReplaceCommasKeeps(DropSeparators(text), ch);
  }

  lemma HasDigitIsMember(s: string)
    ensures HasDigit(s) <==> exists ch :: IsDigit(ch) && ch in s
  {
    if HasDigit(s) {
      var i :| 0 <= i < |s| && IsDigit(s[i]);
      assert s[i] in s;
    }
  }

  // ---------------------------------------------------------------------
  // Lemmas: the tokens

  /** A text has a numeric token exactly when it has a digit. */
  lemma {:induction false} TokensEmptyIff(s: string)
    ensures Tokens(s) == [] <==> !HasDigit(s)
    decreases |s|
  {
    if s != [] && !IsDigit(s[0]) {
      TokensEmptyIff(s[1..]);
      if HasDigit(s) {
        var i :| 0 <= i < |s| && IsDigit(s[i]);
        assert s[1..][i - 1] == s[i];
      }
      if HasDigit(s[1..]) {
        var i :| 0 <= i < |s[1..]| && IsDigit(s[1..][i]);
        assert s[i + 1] == s[1..][i];
      }
    } else if s != [] {
      assert IsDigit(s[0]);
    }
  }

  lemma TokensAfterInteger(d: string, rest: string)
    requires |d| > 0 && AllDigits(d)
    requires rest == [] || (!IsDigit(rest[0]) && rest[0] != '.')
    ensures Tokens(d + rest) == [Token(d, [])] + Tokens(rest)
  {
    var s, n := d + rest, |d|;
    assert s[0..n] == d && s[..n] == d && s[n..] == rest;
    assert n < |s| ==> s[n] == rest[0];
    AllDigitsSlice(s, 0, n);
    DigitRunSpan(s, 0, n);
    FirstTokenInteger(s, n);
    TokensStep(s);
  }

  lemma TokensAfterDecimal(d: string, f: string, rest: string)
    requires |d| > 0 && AllDigits(d) && |f| > 0 && AllDigits(f)
    requires rest == [] || (!IsDigit(rest[0]) && rest[0] != '.')
    ensures Tokens(d + (['.'] + f) + rest) == [Token(d, f)] + Tokens(rest)
  {
    var s, n, m := d + (['.'] + f) + rest, |d|, |f|;
    DecimalParts(d, f, rest);
    AllDigitsSlice(s, 0, n);
    DigitRunSpan(s, 0, n);
    AllDigitsSlice(s, n + 1, n + 1 + m);
    DigitRunSpan(s, n + 1, n + 1 + m);
    FirstTokenDecimal(s, n, m);
    TokensStep(s);
  }

  /** Where the pieces of "d.f" followed by `rest` sit. */
  lemma DecimalParts(d: string, f: string, rest: string)
    requires |d| > 0 && |f| > 0
    ensures var s, n, m := d + (['.'] + f) + rest, |d|, |f|;
      s[0..n] == d && s[..n] == d && s[n] == '.' && s[n + 1] == f[0]
      && s[n + 1..n + 1 + m] == f && s[n + 1 + m..] == rest
      && (n + 1 + m < |s| ==> s[n + 1 + m] == rest[0])
  {
    var s, n, m := d + (['.'] + f) + rest, |d|, |f|;
    assert s == d + (['.'] + (f + rest));
    assert s[n + 1..] == f + rest;
  }

  /** A token followed by anything that cannot continue it is read back as
      that token, and scanning then goes on with what follows. */
  lemma TokensAfter(t: Token, rest: string)
    requires WellFormedToken(t)
    requires rest == [] || (!IsDigit(rest[0]) && rest[0] != '.')
    ensures Tokens(TokenText(t) + rest) == [t] + Tokens(rest)
  {
    if t.frac == [] {
      assert TokenText(t) == t.whole;
      TokensAfterInteger(t.whole, rest);
    } else {
      TokensAfterDecimal(t.whole, t.frac, rest);
    }
  }

  /** Tokens written out with a separator that is neither a digit nor a point. */
  function Render(ts: seq<Token>, sep: char): string {
    if ts == [] then [] else TokenText(ts[0]) + [sep] + Render(ts[1..], sep)
  }

  /** Round trip: the tokenizer reads back exactly the tokens written out. */
  lemma {:induction false} TokensRender(ts: seq<Token>, sep: char)
    requires forall k :: 0 <= k < |ts| ==> WellFormedToken(ts[k])
    requires !IsDigit(sep) && sep != '.'
    ensures Tokens(Render(ts, sep)) == ts
  {
    if ts != [] {
      var rest := Render(ts[1..], sep);
      assert Render(ts, sep) == TokenText(ts[0]) + ([sep] + rest);
      TokensAfter(ts[0], [sep] + rest);
      assert !HasDigit([sep]);
      TokensSkip([sep], rest);
      TokensRender(ts[1..], sep);
      assert ts == [ts[0]] + ts[1..];
    }
  }

  // ---------------------------------------------------------------------
  // Lemmas: the result

  /** The priority rules, stated on the original text: `<` gives an open
      lower bound, else `>` an open upper bound, else a closed interval;
      a text without digits gives no bound at all, and only `<` or `>`
      leaves a pair half filled. */
  lemma DecideShape(text: string, s: string)
    requires SameSignsAndDigits(s, text)
    ensures var b := Decide(s);
      && (b == Bounds(None, None) <==> !HasDigit(text))
      && ('<' in text && HasDigit(text) ==> b.lo.None? && b.hi.Some?)
      && ('<' !in text && '>' in text && HasDigit(text) ==> b.lo.Some? && b.hi.None?)
      && ('<' !in text && '>' !in text && HasDigit(text) ==> b.lo.Some? && b.hi.Some?)
      && (b.lo.None? != b.hi.None? ==> '<' in text || '>' in text)
      && (b.lo.Some? ==> b.lo.value >= 0.0)
      && (b.hi.Some? ==> b.hi.value >= 0.0)
  {
    TokensEmptyIff(s);
  }

  lemma ParseIntervalAsWrittenShape(text: string)
    ensures var b := ParseIntervalAsWritten(text);
      && (b == Bounds(None, None) <==> !HasDigit(text))
      && ('<' in text && HasDigit(text) ==> b.lo.None? && b.hi.Some?)
      && ('<' !in text && '>' in text && HasDigit(text) ==> b.lo.Some? && b.hi.None?)
      && ('<' !in text && '>' !in text && HasDigit(text) ==> b.lo.Some? && b.hi.Some?)
      && (b.lo.None? != b.hi.None? ==> '<' in text || '>' in text)
  {
    RewritePreserves(text);
    DecideShape(text, RewriteAsWritten(text));
  }

  lemma ParseIntervalShape(text: string)
    ensures var b := ParseInterval(text);
      && (b == Bounds(None, None) <==> !HasDigit(text))
      && ('<' in text && HasDigit(text) ==> b.lo.None? && b.hi.Some?)
      && ('<' !in text && '>' in text && HasDigit(text) ==> b.lo.Some? && b.hi.None?)
      && ('<' !in text && '>' !in text && HasDigit(text) ==> b.lo.Some? && b.hi.Some?)
      && (b.lo.None? != b.hi.None? ==> '<' in text || '>' in text)
  {
    RewritePreserves(text);
    DecideShape(text, RewriteDecimalComma(text));
  }

  // ---------------------------------------------------------------------
  // Lemmas: decimal commas

  lemma AllDigitsConcat(x: string, y: string)
    requires AllDigits(x) && AllDigits(y)
    ensures AllDigits(x + y)
  {
    forall i | 0 <= i < |x + y| ensures IsDigit((x + y)[i]) {
      if i >= |x| { assert (x + y)[i] == y[i - |x|]; } else { assert (x + y)[i] == x[i]; }
    }
  }

  lemma {:induction false} DigitsValueConcat(x: string, y: string)
    requires AllDigits(x) && AllDigits(y)
    ensures AllDigits(x + y)
    ensures DigitsValue(x + y) == DigitsValue(x) * Pow10(|y|) + DigitsValue(y)
    decreases |y|
  {
    AllDigitsConcat(x, y);
    if y == [] {
      assert x + y == x;
    } else {
      var y', c := y[..|y| - 1], y[|y| - 1];
      assert y == y' + [c];
      assert x + y == (x + y') + [c];
      DigitsValueConcat(x, y');
      AllDigitsConcat(x, y');
      DigitsValueSnoc(x + y', c);
      DigitsValueSnoc(y', c);
      assert Pow10(|y|) == 10 * Pow10(|y'|);
      ShiftDigit(DigitsValue(x), Pow10(|y'|), DigitsValue(y'), DigitValue(c));
    }
  }

  lemma ShiftDigit(v: nat, p: nat, w: nat, d: nat)
    ensures (v * p + w) * 10 + d == v * (10 * p) + (w * 10 + d)
  {
  }

  lemma {:induction false} NoCommaUnchanged(s: string)
    requires ',' !in s
    ensures ReplaceCommas(s) == s
  {
    if s != [] {
      NoCommaUnchanged(s[1..]);
    }
  }

  lemma NoDotUnchanged(s: string)
    requires '.' !in s
    ensures DropSeparators(s) == s
  {
    DropSeparatorsUnchanged(s);
  }

  /** Characters that are not digits are skipped over by the tokenizer. */
  lemma {:induction false} TokensSkip(p: string, s: string)
    requires !HasDigit(p)
    ensures Tokens(p + s) == Tokens(s)
    decreases |p|
  {
    if p == [] {
      assert p + s == s;
    } else {
      assert !IsDigit(p[0]);
      assert (p + s)[1..] == p[1..] + s;
      assert !HasDigit(p[1..]) by {
        forall i | 0 <= i < |p[1..]| ensures !IsDigit(p[1..][i]) { assert p[1..][i] == p[i + 1]; }
      }
      TokensSkip(p[1..], s);
    }
  }

  /** Two tokens with a digit-free gap between them are read as exactly
      those two tokens. */
  lemma TokensPair(t1: Token, gap: string, t2: Token)
    requires WellFormedToken(t1) && WellFormedToken(t2)
    requires |gap| > 0 && gap[0] != '.' && !HasDigit(gap)
    ensures Tokens(TokenText(t1) + gap + TokenText(t2)) == [t1, t2]
  {
    var x, y := TokenText(t1), TokenText(t2);
    assert x + gap + y == x + (gap + y);
    assert (gap + y)[0] == gap[0];
    TokensAfter(t1, gap + y);
    TokensGapThen(gap, t2);
  }

  /** A digit-free gap and then one token: exactly that token. */
  lemma TokensGapThen(gap: string, t: Token)
    requires WellFormedToken(t) && !HasDigit(gap)
    ensures Tokens(gap + TokenText(t)) == [t]
  {
    TokensSkip(gap, TokenText(t));
    TokensAfter(t, []);
    assert TokenText(t) + [] == TokenText(t);
  }

  lemma {:induction false} ReplaceCommasConcat(x: string, y: string)
    ensures ReplaceCommas(x + y) == ReplaceCommas(x) + ReplaceCommas(y)
    decreases |x|
  {
    if x == [] {
      assert x + y == y;
    } else {
      assert (x + y)[1..] == x[1..] + y;
      ReplaceCommasConcat(x[1..], y);
    }
  }

  lemma DigitsHaveNoSigns(x: string)
    requires AllDigits(x)
    ensures ',' !in x && '.' !in x && '<' !in x && '>' !in x && '+' !in x && '-' !in x
  {
    forall i | 0 <= i < |x|
      ensures x[i] != ',' && x[i] != '.' && x[i] != '<' && x[i] != '>' && x[i] != '+' && x[i] != '-'
    {
      assert IsDigit(x[i]);
    }
  }

  /** A text without signs whose only token is `t` is the pinpoint `t`. */
  lemma DecideSingle(s: string, t: Token)
    requires '<' !in s && '>' !in s && Tokens(s) == [t]
    ensures WellFormedToken(t)
    ensures Decide(s) == Bounds(Some(Value(t)), Some(Value(t)))
  {
    TokensWellFormed(s);
    assert Tokens(s)[0] == t;
  }

  lemma CommaToPoint(a: string, b: string)
    requires ',' !in a && ',' !in b
    ensures ReplaceCommas(a + [','] + b) == a + ['.'] + b
  {
    ReplaceCommasConcat(a + [','], b);
    ReplaceCommasConcat(a, [',']);
    assert ReplaceCommas([',']) == ['.'] by { assert [','][1..] == []; }
    NoCommaUnchanged(a);
    NoCommaUnchanged(b);
  }

  lemma DropPointBetween(a: string, b: string)
    requires |a| > 0 && AllDigits(a) && |b| >= 3 && AllDigits(b)
    ensures DropSeparators(a + ['.'] + b) == a + b
  {
    DigitsHaveNoSigns(a);
    DigitsHaveNoSigns(b);
    var c := a + ['.'] + b;
    var k := |a|;
    assert c[k - 1] == a[k - 1] && c[k + 1] == b[0] && c[k + 2] == b[1] && c[k + 3] == b[2];
    assert c[..k] == a;
    assert c[k + 1..] == b;
    DropOneSeparator(c, k);
    assert c[..k] == a;
    assert c[k + 1..] == b;
  }

  lemma ValueOfInteger(d: string)
    requires |d| > 0 && AllDigits(d)
    ensures Value(Token(d, [])) == DigitsValue(d) as real
  {
  }

  /** A run of digits alone is the pinpoint reference of its own value. */
  lemma DecideDigits(d: string)
    requires |d| > 0 && AllDigits(d)
    ensures Decide(d) == Bounds(Some(Value(Token(d, []))), Some(Value(Token(d, []))))
  {
    DigitsHaveNoSigns(d);
    TokensOfDigits(d);
    DecideSingle(d, Token(d, []));
  }

  /** A number as a range text writes it: the fraction after a point or,
      in the Brazilian style, after a comma. */
  function Written(t: Token, sep: char): string {
    t.whole + (if t.frac == [] then [] else [sep] + t.frac)
  }

  /** A number with fewer than three fraction digits, written with a point
      or a comma, comes out of both rewrites as the token itself. */
  lemma WrittenRewrites(t: Token, sep: char)
    requires WellFormedToken(t) && |t.frac| < 3 && (sep == '.' || sep == ',')
    ensures DropSeparators(ReplaceCommas(Written(t, sep))) == TokenText(t)
    ensures ReplaceCommas(DropSeparators(Written(t, sep))) == TokenText(t)
  {
    DigitsHaveNoSigns(t.whole);
    DigitsHaveNoSigns(t.frac);
    if t.frac == [] {
      assert Written(t, sep) == t.whole == TokenText(t);
      NoCommaUnchanged(t.whole);
      NoDotUnchanged(t.whole);
    } else {
      var w := Written(t, sep);
      assert w == t.whole + [sep] + t.frac;
      assert TokenText(t) == t.whole + ['.'] + t.frac;
      ShortDecimalKept(t.whole, t.frac);
      if sep == ',' {
        CommaToPoint(t.whole, t.frac);
        NoPointAround(t.whole, t.frac);
        NoDotUnchanged(w);
      } else {
        assert ',' !in w;
        NoCommaUnchanged(w);
      }
    }
  }

  /** A text that starts with a character other than a point or a comma
      starts with that same character after either rewrite. */
  lemma RewriteHead(y: string)
    requires y != [] && y[0] != '.' && y[0] != ','
    ensures RewriteAsWritten(y) != [] && RewriteAsWritten(y)[0] == y[0]
    ensures RewriteDecimalComma(y) != [] && RewriteDecimalComma(y)[0] == y[0]
  {
    ReplaceCommasAt(y);
    var y' := ReplaceCommas(y);
    DropFromKept(y', 0);
    DropFromKept(y, 0);
    ReplaceCommasAt(DropSeparators(y));
  }

  /** Neither rewrite reaches across a character that is not a digit, a
      point or a comma. */
  lemma RewriteSplit(x: string, y: string)
    requires y == [] || (!IsDigit(y[0]) && y[0] != '.' && y[0] != ',')
    ensures RewriteAsWritten(x + y) == RewriteAsWritten(x) + RewriteAsWritten(y)
    ensures RewriteDecimalComma(x + y) == RewriteDecimalComma(x) + RewriteDecimalComma(y)
  {
    ReplaceCommasConcat(x, y);
    if y != [] {
      ReplaceCommasAt(y);
      assert ReplaceCommas(y)[0] == y[0];
    }
    DropSeparatorsConcat(ReplaceCommas(x), ReplaceCommas(y));
    DropSeparatorsConcat(x, y);
    ReplaceCommasConcat(DropSeparators(x), DropSeparators(y));
  }

  /** The sign, the blank after it and the number: both rewrites leave the
      sign and the blank alone and turn the number into its token. */
  lemma RewriteOpening(c: char, pad: string, t: Token, sep: char)
    requires c == '<' || c == '>'
    requires ',' !in pad && '.' !in pad
    requires WellFormedToken(t) && |t.frac| < 3 && (sep == '.' || sep == ',')
    ensures RewriteAsWritten([c] + pad + Written(t, sep)) == [c] + pad + TokenText(t)
    ensures RewriteDecimalComma([c] + pad + Written(t, sep)) == [c] + pad + TokenText(t)
  {
    var g, w := [c] + pad, Written(t, sep);
    assert ',' !in g && '.' !in g;
    WrittenRewrites(t, sep);
    ReplaceCommasConcat(g, w);
    NoCommaUnchanged(g);
    ReplaceCommasAt(w);
    assert w[0] == t.whole[0];
    DropSeparatorsAfterPlain(g, ReplaceCommas(w));
    DropSeparatorsAfterPlain(g, w);
    ReplaceCommasConcat(g, DropSeparators(w));
  }

  /** The priority rules on a rewritten text that opens with a sign, a
      digit-free blank and a number: the number is the one bound. */
  lemma DecideOpening(c: char, pad: string, t: Token, r: string)
    requires c == '<' || c == '>'
    requires !HasDigit(pad) && WellFormedToken(t)
    requires r == [] || (!IsDigit(r[0]) && r[0] != '.')
    requires c == '>' ==> '<' !in pad && '<' !in r
    ensures Decide([c] + pad + TokenText(t) + r)
            == if c == '<' then Bounds(None, Some(Value(t))) else Bounds(Some(Value(t)), None)
  {
    var g := [c] + pad;
    assert !HasDigit(g) by {
      forall i | 0 <= i < |g| ensures !IsDigit(g[i]) {
        if i > 0 { assert g[i] == pad[i - 1]; }
      }
    }
    assert g + TokenText(t) + r == g + (TokenText(t) + r);
    TokensSkip(g, TokenText(t) + r);
    TokensAfter(t, r);
    assert (g + TokenText(t) + r)[0] == c;
    if c == '>' {
      SignFreeToken(t);
      assert '<' !in g;
      NotInConcat(g, TokenText(t), r, '<');
    }
  }

  /** `<` or `>`, a blank without digits, commas or points, then a number
      written with a point or a decimal comma: the number is an upper bound
      after `<` and a lower bound after `>`, under both parsers, whatever
      follows that does not continue the number (and, after `>`, holds no
      `<`). This covers "< 200", "<0,5" and "> 1.25 mg/dL". */
  lemma OpenBound(c: char, pad: string, t: Token, sep: char, rest: string)
    requires c == '<' || c == '>'
    requires !HasDigit(pad) && ',' !in pad && '.' !in pad
    requires WellFormedToken(t) && |t.frac| < 3 && (sep == '.' || sep == ',')
    requires rest == [] || (!IsDigit(rest[0]) && rest[0] != '.' && rest[0] != ',')
    requires c == '>' ==> '<' !in pad && '<' !in rest
    ensures var b := if c == '<' then Bounds(None, Some(Value(t))) else Bounds(Some(Value(t)), None);
      && ParseIntervalAsWritten([c] + pad + Written(t, sep) + rest) == b
      && ParseInterval([c] + pad + Written(t, sep) + rest) == b
  {
    var x := [c] + pad + Written(t, sep);
    RewriteSplit(x, rest);
    RewriteOpening(c, pad, t, sep);
    RewritePreserves(rest);
    if rest != [] {
      RewriteHead(rest);
    }
    DecideOpening(c, pad, t, RewriteAsWritten(rest));
    DecideOpening(c, pad, t, RewriteDecimalComma(rest));
  }

  lemma TokensOfDigits(d: string)
    requires |d| > 0 && AllDigits(d)
    ensures Tokens(d) == [Token(d, [])]
  {
    TokensAfterInteger(d, []);
    assert d + [] == d;
  }

  /** As written, a decimal comma followed by three or more digits is taken
      for a thousands separator: "a,bcd" reads as the whole number "abcd". */
  lemma DecimalCommaAsWritten(a: string, b: string)
    requires |a| > 0 && AllDigits(a) && |b| >= 3 && AllDigits(b)
    ensures AllDigits(a + b)
    ensures ParseIntervalAsWritten(a + [','] + b) == Bounds(Some(DigitsValue(a + b) as real), Some(DigitsValue(a + b) as real))
  {
    DigitsValueConcat(a, b);
    DigitsHaveNoSigns(a);
    DigitsHaveNoSigns(b);
    CommaToPoint(a, b);
    DropPointBetween(a, b);
    assert RewriteAsWritten(a + [','] + b) == a + b;
    DecideDigits(a + b);
    ValueOfInteger(a + b);
  }

  lemma NoPointAround(a: string, b: string)
    requires '.' !in a && '.' !in b
    ensures '.' !in a + [','] + b
  {
  }

  lemma NoSignsAround(a: string, b: string)
    requires '<' !in a && '<' !in b && '>' !in a && '>' !in b
    ensures '<' !in a + (['.'] + b) && '>' !in a + (['.'] + b)
  {
  }

  /** With the rewrites in the intended order, "a,b" is the decimal a.b. */
  lemma DecimalCommaRead(a: string, b: string)
    requires |a| > 0 && AllDigits(a) && |b| > 0 && AllDigits(b)
    ensures WellFormedToken(Token(a, b))
    ensures ParseInterval(a + [','] + b) == Bounds(Some(Value(Token(a, b))), Some(Value(Token(a, b))))
  {
    DigitsHaveNoSigns(a);
    DigitsHaveNoSigns(b);
    var s := a + [','] + b;
    NoPointAround(a, b);
    NoDotUnchanged(s);
    CommaToPoint(a, b);
    var c := a + (['.'] + b);
    assert ReplaceCommas(s) == c;
    TokensAfterDecimal(a, b, []);
    assert c + [] == c;
    NoSignsAround(a, b);
    DecideSingle(c, Token(a, b));
  }

  /** The discrepancy: for "a,b" with three or more digits after the comma
      the intended bound is the code's bound divided by 10^|b|, so the two
      differ whenever the number is not zero. */
  lemma DecimalCommaScaled(a: string, b: string)
    requires |a| > 0 && AllDigits(a) && |b| >= 3 && AllDigits(b)
    ensures ParseIntervalAsWritten(a + [','] + b).lo.Some?
    ensures ParseInterval(a + [','] + b).lo.Some?
    ensures ParseInterval(a + [','] + b).lo.value
            == Shift(ParseIntervalAsWritten(a + [','] + b).lo.value, |b|)
  {
    AllDigitsConcat(a, b);
    ScaledBounds(a, b);
  }

  lemma ScaledBounds(a: string, b: string)
    requires |a| > 0 && AllDigits(a) && |b| >= 3 && AllDigits(b)
    ensures AllDigits(a + b)
    ensures ParseIntervalAsWritten(a + [','] + b).lo == Some(DigitsValue(a + b) as real)
    ensures ParseInterval(a + [','] + b).lo == Some(Shift(DigitsValue(a + b) as real, |b|))
  {
    DecimalCommaAsWritten(a, b);
    DecimalCommaRead(a, b);
    JoinedValue(a, b);
  }

  /** The decimal a.b is the whole number ab divided by 10^|b|. */
  lemma JoinedValue(a: string, b: string)
    requires |a| > 0 && AllDigits(a) && AllDigits(b)
    ensures AllDigits(a + b)
    ensures Value(Token(a, b)) == Shift(DigitsValue(a + b) as real, |b|)
  {
    DigitsValueConcat(a, b);
    ScaleDown(DigitsValue(a), DigitsValue(b), |b|, DigitsValue(a + b));
  }

  lemma ScaleDown(x: nat, y: nat, k: nat, n: nat)
    requires n == x * Pow10(k) + y
    ensures x as real + Shift(y as real, k) == Shift(n as real, k)
  {
    var q := Pow10(k) as real;
    assert n as real == x as real * q + y as real;
    assert (x as real * q) / q == x as real;
    assert (x as real * q + y as real) / q == (x as real * q) / q + y as real / q;
  }

  /** A text without signs whose tokens are `t1` and `t2` is the interval
      from the first to the second. */
  lemma DecideTwo(s: string, t1: Token, t2: Token)
    requires '<' !in s && '>' !in s && Tokens(s) == [t1, t2]
    ensures WellFormedToken(t1) && WellFormedToken(t2)
    ensures Decide(s) == Bounds(Some(Value(t1)), Some(Value(t2)))
  {
    TokensWellFormed(s);
    assert Tokens(s)[0] == t1 && Tokens(s)[1] == t2;
  }

  lemma NotInConcat(x: string, y: string, z: string, c: char)
    requires c !in x && c !in y && c !in z
    ensures c !in x + y + z
  {
  }

  /** Two tokens with a gap free of digits and signs form the interval
      from the first to the second. */
  lemma DecidePair(t1: Token, gap: string, t2: Token)
    requires WellFormedToken(t1) && WellFormedToken(t2)
    requires |gap| > 0 && gap[0] != '.' && !HasDigit(gap) && '<' !in gap && '>' !in gap
    ensures Decide(TokenText(t1) + gap + TokenText(t2)) == Bounds(Some(Value(t1)), Some(Value(t2)))
  {
    TokensPair(t1, gap, t2);
    SignFreeToken(t1);
    SignFreeToken(t2);
    NotInConcat(TokenText(t1), gap, TokenText(t2), '<');
    NotInConcat(TokenText(t1), gap, TokenText(t2), '>');
    DecideTwo(TokenText(t1) + gap + TokenText(t2), t1, t2);
  }

  lemma SignFreeToken(t: Token)
    requires WellFormedToken(t)
    ensures '<' !in TokenText(t) && '>' !in TokenText(t)
  {
    DigitsHaveNoSigns(t.whole);
    DigitsHaveNoSigns(t.frac);
  }

  /** Where `s` and `t` agree character by character and separator by
      separator, dropping from `s` is dropping from `t` and then from the
      rest of `s`. */
  lemma {:induction false} DropFromAgree(s: string, t: string, i: nat)
    requires i <= |t| <= |s|
    requires forall k :: i <= k < |t| ==> s[k] == t[k] && IsSeparatorAt(s, k) == IsSeparatorAt(t, k)
    ensures DropFrom(s, i) == DropFrom(t, i) + DropFrom(s, |t|)
    decreases |t| - i
  {
    if i < |t| {
      var k := if IsSeparatorAt(t, i) then [] else [t[i]];
      assert DropFrom(s, i) == k + DropFrom(s, i + 1);
      assert DropFrom(t, i) == k + DropFrom(t, i + 1);
      DropFromAgree(s, t, i + 1);
      Assoc(k, DropFrom(t, i + 1), DropFrom(s, |t|));
    } else {
      assert DropFrom(t, i) == [];
    }
  }

  /** Where the end of `s` agrees with `t`, dropping from there in `s` is
      dropping from `t`. */
  lemma {:induction false} DropFromOffset(s: string, d: nat, t: string, j: nat)
    requires |s| == d + |t| && j <= |t|
    requires forall k :: j <= k < |t| ==> s[d + k] == t[k] && IsSeparatorAt(s, d + k) == IsSeparatorAt(t, k)
    ensures DropFrom(s, d + j) == DropFrom(t, j)
    decreases |t| - j
  {
    if j < |t| {
      var k := if IsSeparatorAt(t, j) then [] else [t[j]];
      assert DropFrom(s, d + j) == k + DropFrom(s, d + j + 1);
      assert DropFrom(t, j) == k + DropFrom(t, j + 1);
      DropFromOffset(s, d, t, j + 1);
    } else {
      assert DropFrom(s, d + j) == [] && DropFrom(t, j) == [];
    }
  }

  lemma DropFromPrefix(x: string, y: string)
    requires y == [] || !IsDigit(y[0])
    ensures DropFrom(x + y, 0) == DropFrom(x, 0) + DropFrom(x + y, |x|)
  {
    forall k | 0 <= k < |x| ensures (x + y)[k] == x[k] && IsSeparatorAt(x + y, k) == IsSeparatorAt(x, k) {
      SeparatorInPrefix(x, y, k);
    }
    DropFromAgree(x + y, x, 0);
  }

  /** A point of `x` followed by fewer than three digits is not a separator,
      however `x` is continued by a text `y` that starts with no digit. */
  lemma SeparatorInPrefix(x: string, y: string, i: nat)
    requires i < |x|
    requires y == [] || !IsDigit(y[0])
    ensures IsSeparatorAt(x + y, i) == IsSeparatorAt(x, i)
  {
    if i + 3 < |x + y| && i + 3 >= |x| {
      var k := if i + 1 >= |x| then i + 1 else if i + 2 >= |x| then i + 2 else i + 3;
      assert (x + y)[k] == y[k - |x|];
    }
    if i + 3 < |x| {
      assert (x + y)[i + 1] == x[i + 1] && (x + y)[i + 2] == x[i + 2] && (x + y)[i + 3] == x[i + 3];
    }
    if i >= 1 { assert (x + y)[i - 1] == x[i - 1]; }
  }

  lemma DropFromShift(x: string, y: string)
    requires y == [] || y[0] != '.'
    ensures DropFrom(x + y, |x|) == DropFrom(y, 0)
  {
    forall k | 0 <= k < |y|
      ensures (x + y)[|x| + k] == y[k] && IsSeparatorAt(x + y, |x| + k) == IsSeparatorAt(y, k)
    {
      SeparatorShift(x, y, k);
    }
    DropFromOffset(x + y, |x|, y, 0);
  }

  /** A point of `y` is a separator in `x + y` exactly when it is one in `y`,
      given that a point of `y` never stands at its very start. */
  lemma SeparatorShift(x: string, y: string, j: nat)
    requires j < |y|
    requires y[0] != '.'
    ensures IsSeparatorAt(x + y, |x| + j) == IsSeparatorAt(y, j)
  {
    var s, i := x + y, |x| + j;
    assert s[i] == y[j];
    if j >= 1 { assert s[i - 1] == y[j - 1]; }
    if j + 3 < |y| {
      assert s[i + 1] == y[j + 1] && s[i + 2] == y[j + 2] && s[i + 3] == y[j + 3];
    }
  }

  /** Dropping separators splits at a character that is neither a digit nor a
      point: no look-around reaches across it. */
  lemma DropSeparatorsConcat(x: string, y: string)
    requires y == [] || (!IsDigit(y[0]) && y[0] != '.')
    ensures DropSeparators(x + y) == DropSeparators(x) + DropSeparators(y)
  {
    DropFromPrefix(x, y);
    DropFromShift(x, y);
  }

  /** A stretch of text without points, in front of anything not starting
      with a point, is kept as it is. */
  lemma DropSeparatorsAfterPlain(g: string, y: string)
    requires '.' !in g
    requires y == [] || y[0] != '.'
    ensures DropSeparators(g + y) == g + DropSeparators(y)
  {
    forall p | 0 <= p < |g| ensures !IsSeparatorAt(g + y, p) {
      assert (g + y)[p] == g[p];
    }
    DropFromNoSeparator(g + y, 0, |g|);
    assert (g + y)[0..|g|] == g;
    DropFromShift(g, y);
  }

  /** "a.bbb" (three or more digits after the point) loses its point. */
  lemma RewriteThousand(a: string, b: string)
    requires |a| > 0 && AllDigits(a) && |b| >= 3 && AllDigits(b)
    ensures ReplaceCommas(a + ['.'] + b) == a + ['.'] + b
    ensures DropSeparators(a + ['.'] + b) == a + b
  {
    DigitsHaveNoSigns(a);
    DigitsHaveNoSigns(b);
    ReplaceCommasConcat(a + ['.'], b);
    ReplaceCommasConcat(a, ['.']);
    NoCommaUnchanged(a);
    NoCommaUnchanged(b);
    DropPointBetween(a, b);
  }

  lemma Regroup7<T>(a: seq<T>, p: seq<T>, b: seq<T>, gap: seq<T>, c: seq<T>, q: seq<T>, d: seq<T>)
    ensures a + p + b + gap + c + q + d == (a + p + b) + (gap + (c + q + d))
  {
  }

  /** Both rewrites of "x <gap> y", where the gap holds no comma and no
      point and `y` does not start with a point. */
  lemma RewriteAround(x: string, gap: string, y: string)
    requires |gap| > 0 && !IsDigit(gap[0]) && ',' !in gap && '.' !in gap
    requires y == [] || (y[0] != '.' && y[0] != ',')
    ensures RewriteAsWritten(x + (gap + y))
            == DropSeparators(ReplaceCommas(x)) + (gap + DropSeparators(ReplaceCommas(y)))
  {
    NoCommaUnchanged(gap);
    ReplaceCommasConcat(x, gap + y);
    ReplaceCommasConcat(gap, y);
    ReplaceCommasAt(y);
    var y' := ReplaceCommas(y);
    assert y' == [] || y'[0] != '.';
    DropSeparatorsConcat(ReplaceCommas(x), gap + y');
    DropSeparatorsAfterPlain(gap, y');
  }

  /** The thousands form of the code: "a.bbb <gap> c.ddd" is the interval
      from the whole number ab to the whole number cd. */
  lemma ThousandsInterval(a: string, b: string, gap: string, c: string, d: string)
    requires |a| > 0 && AllDigits(a) && |b| >= 3 && AllDigits(b)
    requires |c| > 0 && AllDigits(c) && |d| >= 3 && AllDigits(d)
    requires |gap| > 0 && !IsDigit(gap[0]) && !HasDigit(gap)
    requires ',' !in gap && '.' !in gap && '<' !in gap && '>' !in gap
    ensures AllDigits(a + b) && AllDigits(c + d)
    ensures ParseIntervalAsWritten(a + ['.'] + b + gap + c + ['.'] + d)
            == Bounds(Some(DigitsValue(a + b) as real), Some(DigitsValue(c + d) as real))
  {
    AllDigitsConcat(a, b);
    AllDigitsConcat(c, d);
    Regroup7(a, ['.'], b, gap, c, ['.'], d);
    var x, y := a + ['.'] + b, c + ['.'] + d;
    RewriteThousand(a, b);
    RewriteThousand(c, d);
    assert y[0] == c[0];
    RewriteAround(x, gap, y);
    var t1, t2 := Token(a + b, []), Token(c + d, []);
    assert TokenText(t1) == a + b && TokenText(t2) == c + d;
    assert (a + b) + (gap + (c + d)) == TokenText(t1) + gap + TokenText(t2);
    DecidePair(t1, gap, t2);
    ValueOfInteger(a + b);
    ValueOfInteger(c + d);
  }

  /** The decimal form: "a,b <gap> c,d" with fewer than three digits after
      each comma is the interval from a.b to c.d. */
  lemma DecimalInterval(a: string, b: string, gap: string, c: string, d: string)
    requires |a| > 0 && AllDigits(a) && 0 < |b| < 3 && AllDigits(b)
    requires |c| > 0 && AllDigits(c) && 0 < |d| < 3 && AllDigits(d)
    requires |gap| > 0 && !IsDigit(gap[0]) && !HasDigit(gap)
    requires ',' !in gap && '.' !in gap && '<' !in gap && '>' !in gap
    ensures ParseIntervalAsWritten(a + [','] + b + gap + c + [','] + d)
            == Bounds(Some(Value(Token(a, b))), Some(Value(Token(c, d))))
  {
    DigitsHaveNoSigns(a);
    DigitsHaveNoSigns(b);
    DigitsHaveNoSigns(c);
    DigitsHaveNoSigns(d);
    Regroup7(a, [','], b, gap, c, [','], d);
    var x, y := a + [','] + b, c + [','] + d;
    assert y[0] == c[0];
    RewriteAround(x, gap, y);
    CommaToPoint(a, b);
    CommaToPoint(c, d);
    ShortDecimalKept(a, b);
    ShortDecimalKept(c, d);
    var t1, t2 := Token(a, b), Token(c, d);
    assert TokenText(t1) == a + ['.'] + b;
    assert TokenText(t2) == c + ['.'] + d;
    assert TokenText(t1) + (gap + TokenText(t2)) == TokenText(t1) + gap + TokenText(t2);
    DecidePair(t1, gap, t2);
  }

  lemma ShortDecimalKept(a: string, b: string)
    requires |a| > 0 && AllDigits(a) && |b| < 3 && AllDigits(b)
    ensures DropSeparators(a + ['.'] + b) == a + ['.'] + b
  {
    var x := a + ['.'] + b;
    DigitsHaveNoSigns(a);
    DigitsHaveNoSigns(b);
    forall p | 0 <= p < |x| ensures !IsSeparatorAt(x, p) {
      if p < |a| { assert x[p] == a[p]; }
      else if p > |a| { assert x[p] == b[p - |a| - 1]; }
    }
    DropSeparatorsUnchanged(x);
  }

  // ---------------------------------------------------------------------
  // Examples. Each text is a parameter fixed by the precondition rather
  // than a literal in the ensures: the solver then unfolds the string
  // literal once, where it is needed, instead of in every clause, which
  // keeps these proofs well within the resource limit.

  lemma ExampleOpenLower(s: string)
    requires s == "<100"
    ensures ParseIntervalAsWritten(s) == Bounds(None, Some(100.0))
  {
    var t := Token("100", []);
    assert s == ['<'] + [] + Written(t, '.') + [];
    OpenBound('<', [], t, '.', []);
    ValueOfInteger("100");
    assert DigitsValue("100") == 100 by {
      assert "100"[..2] == "10" && "10"[..1] == "1" && "1"[..0] == [];
    }
  }

  lemma ExampleOpenUpper(s: string)
    requires s == ">50"
    ensures ParseIntervalAsWritten(s) == Bounds(Some(50.0), None)
  {
    var t := Token("50", []);
    assert s == ['>'] + [] + Written(t, '.') + [];
    OpenBound('>', [], t, '.', []);
    ValueOfInteger("50");
    assert DigitsValue("50") == 50;
  }

  /** A blank after the sign and a decimal comma: "> 0,5" is (0.5, None). */
  lemma ExampleOpenComma(s: string)
    requires s == "> 0,5"
    ensures ParseIntervalAsWritten(s) == Bounds(Some(0.5), None)
    ensures ParseInterval(s) == Bounds(Some(0.5), None)
  {
    var t := Token("0", "5");
    assert s == ['>'] + " " + Written(t, ',') + [];
    assert !HasDigit(" ");
    OpenBound('>', " ", t, ',', []);
    assert Value(t) == 0.5 by {
      assert DigitsValue("0") == 0 && DigitsValue("5") == 5 && Pow10(1) == 10;
    }
  }

  lemma ExamplePinpoint(s: string)
    requires s == "13"
    ensures ParseIntervalAsWritten(s) == Bounds(Some(13.0), Some(13.0))
  {
    NoCommaUnchanged(s);
    NoDotUnchanged(s);
    DecideDigits(s);
    ValueOfInteger(s);
    assert DigitsValue(s) == 13;
  }

  lemma ExampleEmpty()
    ensures ParseIntervalAsWritten("") == Bounds(None, None)
  {
    NoDotUnchanged("");
  }

  lemma ExampleDecimalInterval(s: string)
    requires s == "12,0 a 15,8"
    ensures ParseIntervalAsWritten(s) == Bounds(Some(12.0), Some(15.8))
  {
    assert s == "12" + [','] + "0" + " a " + "15" + [','] + "8";
    assert !HasDigit(" a ") by { assert forall i :: 0 <= i < 3 ==> !IsDigit(" a "[i]); }
    DecimalInterval("12", "0", " a ", "15", "8");
    assert Value(Token("12", "0")) == 12.0 by { Value12(); }
    assert Value(Token("15", "8")) == 15.8 by { Value15(); }
  }

  lemma Value12()
    ensures Value(Token("12", "0")) == 12.0
  {
    DigitsValueSnoc("1", '2');
    assert "1" + ['2'] == "12";
  }

  lemma Value15()
    ensures Value(Token("15", "8")) == 15.8
  {
    DigitsValueSnoc("1", '5');
    assert "1" + ['5'] == "15";
  }

  lemma ExampleThousands(s: string)
    requires s == "140.000 a 450.000"
    ensures ParseIntervalAsWritten(s) == Bounds(Some(140000.0), Some(450000.0))
  {
    assert s == "140" + ['.'] + "000" + " a " + "450" + ['.'] + "000";
    assert !HasDigit(" a ") by { assert forall i :: 0 <= i < 3 ==> !IsDigit(" a "[i]); }
    ThousandsInterval("140", "000", " a ", "450", "000");
    assert DigitsValue("140" + "000") == 140000 by { Value140000(); }
    assert DigitsValue("450" + "000") == 450000 by { Value450000(); }
  }

  lemma Value140000()
    ensures DigitsValue("140" + "000") == 140000
  {
    Value140();
    Value000();
    Pow10Of3();
    DigitsValueConcat("140", "000");
  }

  lemma Value450000()
    ensures DigitsValue("450" + "000") == 450000
  {
    Value450();
    Value000();
    Pow10Of3();
    DigitsValueConcat("450", "000");
  }

  lemma Value140()
    ensures DigitsValue("140") == 140
  {
    DigitsValueSnoc("1", '4');
    assert "1" + ['4'] == "14";
    DigitsValueSnoc("14", '0');
    assert "14" + ['0'] == "140";
  }

  lemma Value450()
    ensures DigitsValue("450") == 450
  {
    DigitsValueSnoc("4", '5');
    assert "4" + ['5'] == "45";
    DigitsValueSnoc("45", '0');
    assert "45" + ['0'] == "450";
  }

  lemma Value000()
    ensures DigitsValue("000") == 0
  {
    DigitsValueSnoc("0", '0');
    assert "0" + ['0'] == "00";
    DigitsValueSnoc("00", '0');
    assert "00" + ['0'] == "000";
  }

  lemma Pow10Of3()
    ensures Pow10(|"000"|) == 1000
  {
    assert |"000"| == 3;
    assert Pow10(3) == 10 * Pow10(2);
  }

  /** Both points of "1.000.000" go: each look-around reads the text as it
      was before any point was removed. */
  lemma ExampleMillion(s: string)
    requires s == "1.000.000"
    ensures DropSeparators(s) == "1000000"
  {
    assert IsSeparatorAt(s, 1) && IsSeparatorAt(s, 5);
    DropFromNoSeparator(s, 0, 1);
    DropFromNoSeparator(s, 2, 5);
    DropFromNoSeparator(s, 6, |s|);
  }

  /** The discrepancy on a creatinine-style reference value "0,700". */
  lemma ExampleDecimalComma(s: string)
    requires s == "0,700"
    ensures ParseIntervalAsWritten(s) == Bounds(Some(700.0), Some(700.0))
    ensures ParseInterval(s) == Bounds(Some(0.7), Some(0.7))
  {
    assert s == "0" + [','] + "700";
    assert ParseIntervalAsWritten(s) == Bounds(Some(700.0), Some(700.0)) by {
      DecimalCommaAsWritten("0", "700");
      Value0700();
    }
    assert ParseInterval(s) == Bounds(Some(0.7), Some(0.7)) by {
      DecimalCommaRead("0", "700");
      ValuePoint700();
    }
  }

  lemma ValuePoint700()
    ensures Value(Token("0", "700")) == 0.7
  {
    Value700();
    assert DigitsValue("0") == 0;
    assert Pow10(|"700"|) == 1000 by { assert |"700"| == 3; assert Pow10(3) == 10 * Pow10(2); }
  }

  lemma Value700()
    ensures DigitsValue("700") == 700
  {
    DigitsValueSnoc("7", '0');
    assert "7" + ['0'] == "70";
    DigitsValueSnoc("70", '0');
    assert "70" + ['0'] == "700";
  }

  lemma Value0700()
    ensures DigitsValue("0" + "700") == 700
  {
    Value700();
    DigitsValueConcat("0", "700");
  }
}
