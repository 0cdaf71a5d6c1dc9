/** The string primitives of the JavaScript runtime the program relies on:
    `includes`, `join`, number-to-decimal conversion and `replaceAll`. */
module Text {

  /** `pat` occurs in `s` starting at index `i`. */
  predicate OccursAt(s: string, pat: string, i: int) {
    0 <= i && i + |pat| <= |s| && s[i..i + |pat|] == pat
  }

  /** `String.prototype.includes`. */
  predicate Contains(s: string, t: string) {
    exists i :: 0 <= i <= |s| && OccursAt(s, t, i)
  }

  predicate IsPrefix(p: string, s: string) {
    OccursAt(s, p, 0)
  }

  /** A string that lacks one of `t`'s characters cannot contain `t`. */
  lemma AbsentCharExcludes(s: string, t: string, j: nat)
    requires j < |t| && t[j] !in s
    ensures !Contains(s, t)
  {
  }

  /** An occurrence in a suffix is an occurrence in the whole string. */
  lemma ContainsInSuffix(s: string, k: nat, t: string)
    requires k <= |s| && Contains(s[k..], t)
    ensures Contains(s, t)
  {
    var i :| 0 <= i <= |s[k..]| && OccursAt(s[k..], t, i);
    assert s[k + i..k + i + |t|] == s[k..][i..i + |t|];
    assert OccursAt(s, t, k + i);
  }

  /** A concatenation splits back into its parts at the first part's length. */
  lemma SplitConcat(a: string, b: string)
    ensures (a + b)[..|a|] == a && (a + b)[|a|..] == b
    ensures OccursAt(a + b, a, 0)
  {
    assert (a + b)[0..|a|] == a;
  }

  // ----- decimal digits -----

  predicate IsDigit(c: char) {
    '0' <= c <= '9'
  }

  predicate AllDigits(s: string) {
    forall i :: 0 <= i < |s| ==> IsDigit(s[i])
  }

  /** Length of the longest run of decimal digits at the start of `s`. */
  function DigitRun(s: string): (n: nat)
    ensures n <= |s| && AllDigits(s[..n])
    ensures n < |s| ==> !IsDigit(s[n])
    decreases |s|
  {
    if |s| > 0 && IsDigit(s[0]) then 1 + DigitRun(s[1..]) else 0
  }

  function DigitChar(d: nat): (c: char)
    requires d < 10
    ensures IsDigit(c)
  {
    "0123456789"[d]
  }

  function DigitValue(c: char): (d: nat)
    requires IsDigit(c)
    ensures d < 10
  {
    (c as int) - ('0' as int)
  }

  /** The decimal rendering JavaScript gives a non-negative integer in a template string. */
  function NatToString(n: nat): (r: string)
    ensures 0 < |r| && AllDigits(r)
    decreases n
  {
    if n < 10 then [DigitChar(n)] else NatToString(n / 10) + [DigitChar(n % 10)]
  }

  /** The value of a string of decimal digits. */
  function ParseNat(s: string): nat
    requires AllDigits(s)
    decreases |s|
  {
    if |s| == 0 then 0 else 10 * ParseNat(s[..|s| - 1]) + DigitValue(s[|s| - 1])
  }

  /** Reading the decimal rendering back gives the number. */
  lemma {:induction false} ParseNatToString(n: nat)
    ensures ParseNat(NatToString(n)) == n
    decreases n
  {
    var s := NatToString(n);
    if n >= 10 {
      ParseNatToString(n / 10);
      assert s[..|s| - 1] == NatToString(n / 10);
    }
  }

  /** Different numbers render differently. */
  lemma NatToStringInjective(a: nat, b: nat)
    ensures NatToString(a) == NatToString(b) <==> a == b
  {
    ParseNatToString(a);
    ParseNatToString(b);
  }

  /** The digit run of a rendered number followed by a non-digit is the whole rendering. */
  lemma DigitRunOfRendering(n: nat, rest: string)
    requires |rest| > 0 && !IsDigit(rest[0])
    ensures DigitRun(NatToString(n) + rest) == |NatToString(n)|
  {
    var d := NatToString(n);
    DigitRunOfDigits(d, rest);
  }

  lemma {:induction false} DigitRunOfDigits(d: string, rest: string)
    requires AllDigits(d) && |rest| > 0 && !IsDigit(rest[0])
    ensures DigitRun(d + rest) == |d|
    decreases |d|
  {
    if |d| > 0 {
      assert (d + rest)[1..] == d[1..] + rest;
      DigitRunOfDigits(d[1..], rest);
    } else {
      assert d + rest == rest;
    }
  }

  // ----- Array.prototype.join -----

  /** `parts.join(sep)`: the empty list joins to the empty string. */
  function Join(parts: seq<string>, sep: string): (r: string)
    ensures |parts| == 1 ==> r == parts[0]
    decreases |parts|
  {
    if |parts| == 0 then ""
    else if |parts| == 1 then parts[0]
    else parts[0] + sep + Join(parts[1..], sep)
  }

  /** Appending a part appends the separator and the part. */
  lemma {:induction false} JoinSnoc(parts: seq<string>, last: string, sep: string)
    requires 0 < |parts|
    ensures Join(parts + [last], sep) == Join(parts, sep) + sep + last
    decreases |parts|
  {
    if |parts| == 1 {
      assert (parts + [last])[1..] == [last];
    } else {
      assert (parts + [last])[1..] == parts[1..] + [last];
      JoinSnoc(parts[1..], last, sep);
    }
  }

  // ----- String.prototype.replaceAll -----

  /** Literal replacement of every occurrence of `pat` in `s[i..]`, found left to
      right without overlap: what `replaceAll` does when the replacement text is
      to be inserted verbatim. */
  function ReplaceAllFrom(s: string, pat: string, rep: string, i: nat): string
    requires 0 < |pat| && i <= |s|
    decreases |s| - i
  {
    if |s| - i < |pat| then s[i..]
    else if OccursAt(s, pat, i) then rep + ReplaceAllFrom(s, pat, rep, i + |pat|)
    else [s[i]] + ReplaceAllFrom(s, pat, rep, i + 1)
  }

  function ReplaceAll(s: string, pat: string, rep: string): string
    requires 0 < |pat|
  {
    ReplaceAllFrom(s, pat, rep, 0)
  }

  /** Text without the pattern comes back unchanged. */
  lemma ReplaceAllAbsent(s: string, pat: string, rep: string)
    requires 0 < |pat| && !Contains(s, pat)
    ensures ReplaceAll(s, pat, rep) == s
  {
    ReplaceWithoutOccurrence(s, pat, rep, 0);
  }

  /** Text in which the pattern does not occur comes through unchanged. */
  lemma {:induction false} ReplaceWithoutOccurrence(s: string, pat: string, rep: string, i: nat)
    requires 0 < |pat| && i <= |s|
    requires forall j :: i <= j <= |s| ==> !OccursAt(s, pat, j)
    ensures ReplaceAllFrom(s, pat, rep, i) == s[i..]
    decreases |s| - i
  {
    if |s| - i >= |pat| {
      ReplaceWithoutOccurrence(s, pat, rep, i + 1);
      assert [s[i]] + s[i + 1..] == s[i..];
    }
  }

  /** The scan copies text up to the first occurrence, inserts `rep` in its place
      and resumes right after it. */
  lemma {:induction false} ReplaceAtFirstOccurrence(s: string, pat: string, rep: string, i: nat, k: nat)
    requires 0 < |pat| && i <= k && OccursAt(s, pat, k)
    requires forall j :: i <= j < k ==> !OccursAt(s, pat, j)
    ensures ReplaceAllFrom(s, pat, rep, i) == s[i..k] + rep + ReplaceAllFrom(s, pat, rep, k + |pat|)
    decreases k - i
  {
    if i < k {
      ReplaceAtFirstOccurrence(s, pat, rep, i + 1, k);
      CopyStep(s, pat, rep, i, k, ReplaceAllFrom(s, pat, rep, k + |pat|));
    } else {
      assert s[i..k] == "";
    }
  }

  /** Where the pattern does not start, the scan copies one character and moves on. */
  lemma CopyStep(s: string, pat: string, rep: string, i: nat, k: nat, t: string)
    requires 0 < |pat| && i < k && k + |pat| <= |s| && !OccursAt(s, pat, i)
    requires ReplaceAllFrom(s, pat, rep, i + 1) == s[i + 1..k] + rep + t
    ensures ReplaceAllFrom(s, pat, rep, i) == s[i..k] + rep + t
  {
    calc {
      ReplaceAllFrom(s, pat, rep, i);
      [s[i]] + ReplaceAllFrom(s, pat, rep, i + 1);
      [s[i]] + (s[i + 1..k] + rep + t);
      { assert [s[i]] + s[i + 1..k] == s[i..k]; }
      s[i..k] + rep + t;
    }
  }

  /** Replacing the whole of a string that is exactly the pattern yields the replacement. */
  lemma ReplaceWhole(pat: string, rep: string)
    requires 0 < |pat|
    ensures ReplaceAll(pat, pat, rep) == rep
  {
    ReplaceAtFirstOccurrence(pat, pat, rep, 0, 0);
    assert pat[|pat|..] == "";
  }

  /** The same scan, recursing on the rest of the text rather than an index. */
  function ReplaceRest(s: string, pat: string, rep: string): string
    requires 0 < |pat|
    decreases |s|
  {
    if |s| < |pat| then s
    else if IsPrefix(pat, s) then rep + ReplaceRest(s[|pat|..], pat, rep)
    else [s[0]] + ReplaceRest(s[1..], pat, rep)
  }

  /** Scanning `s` from `i` is scanning the rest `s[i..]`. */
  lemma {:induction false} ReplaceFromRest(s: string, pat: string, rep: string, i: nat)
    requires 0 < |pat| && i <= |s|
    ensures ReplaceAllFrom(s, pat, rep, i) == ReplaceRest(s[i..], pat, rep)
    decreases |s| - i
  {
    var t := s[i..];
    if |s| - i >= |pat| {
      assert t[..|pat|] == s[i..i + |pat|];
      if OccursAt(s, pat, i) {
        MatchStep(s, pat, rep, i);
        RestMatchStep(t, pat, rep);
        ReplaceFromRest(s, pat, rep, i + |pat|);
        assert t[|pat|..] == s[i + |pat|..];
      } else {
        SkipStep(s, pat, rep, i);
        RestSkipStep(t, pat, rep);
        ReplaceFromRest(s, pat, rep, i + 1);
        assert t[1..] == s[i + 1..] && t[0] == s[i];
      }
    }
  }

  /** Where the pattern starts, the scan inserts the replacement and resumes after it. */
  lemma MatchStep(s: string, pat: string, rep: string, i: nat)
    requires 0 < |pat| && i <= |s| && OccursAt(s, pat, i)
    ensures ReplaceAllFrom(s, pat, rep, i) == rep + ReplaceAllFrom(s, pat, rep, i + |pat|)
  {
  }

  /** Where the pattern does not start, the scan copies one character and moves on. */
  lemma SkipStep(s: string, pat: string, rep: string, i: nat)
    requires 0 < |pat| && i + |pat| <= |s| && !OccursAt(s, pat, i)
    ensures ReplaceAllFrom(s, pat, rep, i) == [s[i]] + ReplaceAllFrom(s, pat, rep, i + 1)
  {
  }

  /** `ReplaceRest` on text that opens with the pattern. */
  lemma RestMatchStep(t: string, pat: string, rep: string)
    requires 0 < |pat| <= |t| && IsPrefix(pat, t)
    ensures ReplaceRest(t, pat, rep) == rep + ReplaceRest(t[|pat|..], pat, rep)
  {
  }

  /** `ReplaceRest` on text long enough for the pattern but not opening with it. */
  lemma RestSkipStep(t: string, pat: string, rep: string)
    requires 0 < |pat| <= |t| && !IsPrefix(pat, t)
    ensures ReplaceRest(t, pat, rep) == [t[0]] + ReplaceRest(t[1..], pat, rep)
  {
  }

  /** A prefix in which the pattern does not start is copied as it stands. */
  lemma {:induction false} ReplaceSkipsFrom(x: string, y: string, pat: string, rep: string, i: nat)
    requires 0 < |pat| && i <= |x|
    requires forall j :: i <= j < |x| ==> !OccursAt(x + y, pat, j)
    ensures ReplaceAllFrom(x + y, pat, rep, i) == x[i..] + ReplaceAllFrom(x + y, pat, rep, |x|)
    decreases |x| - i
  {
    var s := x + y;
    if i < |x| {
      if |s| - i < |pat| {
        assert |s| - |x| < |pat|;
        assert s[i..] == x[i..] + s[|x|..];
      } else {
        ReplaceSkipsFrom(x, y, pat, rep, i + 1);
        SkipStep(s, pat, rep, i);
        assert s[i] == x[i];
        ConsSlice(x, i, ReplaceAllFrom(s, pat, rep, |x|));
      }
    }
  }

  /** Putting one element back in front of the slice that follows it. */
  lemma ConsSlice<T>(x: seq<T>, i: nat, t: seq<T>)
    requires i < |x|
    ensures [x[i]] + (x[i + 1..] + t) == x[i..] + t
  {
    assert [x[i]] + x[i + 1..] == x[i..];
  }

  /** `replaceAll` over `x + y`, when the pattern starts nowhere in `x`, copies `x`
      and replaces in `y`. */
  lemma ReplaceSkipsPrefix(x: string, y: string, pat: string, rep: string)
    requires 0 < |pat|
    requires forall j :: 0 <= j < |x| ==> !OccursAt(x + y, pat, j)
    ensures ReplaceAll(x + y, pat, rep) == x + ReplaceAll(y, pat, rep)
  {
    ReplaceSkipsFrom(x, y, pat, rep, 0);
    ReplaceFromRest(x + y, pat, rep, |x|);
    ReplaceFromRest(y, pat, rep, 0);
    assert (x + y)[|x|..] == y && y[0..] == y;
  }

  /** `replaceAll` over `pat + y` inserts `rep` and replaces in `y`. */
  lemma ReplaceLeading(y: string, pat: string, rep: string)
    requires 0 < |pat|
    ensures ReplaceAll(pat + y, pat, rep) == rep + ReplaceAll(y, pat, rep)
  {
    var s := pat + y;
    assert s[..|pat|] == pat;
    ReplaceFromRest(s, pat, rep, |pat|);
    ReplaceFromRest(y, pat, rep, 0);
    assert s[|pat|..] == y && y[0..] == y;
  }

  /** The text JavaScript inserts for one match when `replaceAll` is given a
      string replacement (GetSubstitution of ECMA-262 with no capture groups):
      `$$` gives `$`, `$&` the matched text, `` $` `` the text before the match,
      `$'` the text after it; every other character is copied. */
  function Substitution(rep: string, matched: string, before: string, after: string): (r: string)
    ensures '$' !in rep ==> r == rep
    decreases |rep|
  {
    if |rep| == 0 then ""
    else if rep[0] == '$' && 2 <= |rep| && rep[1] in "$&`'" then
      (if rep[1] == '$' then "$"
       else if rep[1] == '&' then matched
       else if rep[1] == '`' then before
       else after)
      + Substitution(rep[2..], matched, before, after)
    else [rep[0]] + Substitution(rep[1..], matched, before, after)
  }

  /** Substitution proceeds piecewise across text without `$`. */
  lemma {:induction false} SubstitutionPlainPrefix(a: string, b: string, matched: string, before: string, after: string)
    requires '$' !in a
    ensures Substitution(a + b, matched, before, after) == a + Substitution(b, matched, before, after)
    decreases |a|
  {
    if |a| > 0 {
      HeadSplit(a, b, '$');
      SubstitutionCopy(a + b, matched, before, after);
      SubstitutionPlainPrefix(a[1..], b, matched, before, after);
      ConsSlice(a, 0, Substitution(b, matched, before, after));
      assert a[0..] == a;
    } else {
      assert a + b == b;
    }
  }

  /** The head and tail of `a + b` for non-empty `a`, and a character absent from
      `a` is absent from its head and tail. */
  lemma HeadSplit(a: string, b: string, c: char)
    requires 0 < |a| && c !in a
    ensures (a + b)[0] == a[0] != c && (a + b)[1..] == a[1..] + b && c !in a[1..]
  {
    assert a == [a[0]] + a[1..];
  }

  /** A first character other than `$` is copied. */
  lemma SubstitutionCopy(rep: string, matched: string, before: string, after: string)
    requires 0 < |rep| && rep[0] != '$'
    ensures Substitution(rep, matched, before, after) == [rep[0]] + Substitution(rep[1..], matched, before, after)
  {
  }

  /** `s.replaceAll(pat, rep)` as JavaScript evaluates it: every match is replaced
      by the expansion of `rep`, not by `rep` itself. */
  function JsReplaceAllFrom(s: string, pat: string, rep: string, i: nat): (r: string)
    requires 0 < |pat| && i <= |s|
    ensures '$' !in rep ==> r == ReplaceAllFrom(s, pat, rep, i)
    decreases |s| - i
  {
    if |s| - i < |pat| then s[i..]
    else if OccursAt(s, pat, i) then
      Substitution(rep, pat, s[..i], s[i + |pat|..]) + JsReplaceAllFrom(s, pat, rep, i + |pat|)
    else [s[i]] + JsReplaceAllFrom(s, pat, rep, i + 1)
  }

  function JsReplaceAll(s: string, pat: string, rep: string): (r: string)
    requires 0 < |pat|
    ensures '$' !in rep ==> r == ReplaceAll(s, pat, rep)
  {
    JsReplaceAllFrom(s, pat, rep, 0)
  }

  /** JavaScript's replacement of a string that is exactly the pattern yields the
      expansion of the replacement. */
  lemma JsReplaceWhole(pat: string, rep: string)
    requires 0 < |pat|
    ensures JsReplaceAll(pat, pat, rep) == Substitution(rep, pat, "", "")
  {
    assert OccursAt(pat, pat, 0);
    assert pat[..0] == "" && pat[|pat|..] == "";
    assert JsReplaceAllFrom(pat, pat, rep, |pat|) == "";
    assert JsReplaceAllFrom(pat, pat, rep, 0)
        == Substitution(rep, pat, pat[..0], pat[|pat|..]) + JsReplaceAllFrom(pat, pat, rep, |pat|);
  }
}
