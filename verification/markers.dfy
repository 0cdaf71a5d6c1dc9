/** The image-placeholder markers of a draft: `[[INSERT_IMAGE_<digits>]]`, scanned
    as `content.match(/\[\[INSERT_IMAGE_\d+\]\]/g)` does, and de-duplicated as
    `[...new Set(matches)]` does. */
module Markers {
  import opened Wrappers
  import Text
  import Seqs

  const MarkerOpen: string := "[[INSERT_IMAGE_"
  const MarkerClose: string := "]]"

  /** The marker with number `n`. */
  function Marker(n: nat): string {
    MarkerOpen + Text.NatToString(n) + MarkerClose
  }

  /** `m` is, as a whole, a match of the marker pattern. */
  predicate IsMarker(m: string) {
    |MarkerOpen| + |MarkerClose| < |m|
    && Text.IsPrefix(MarkerOpen, m)
    && m[|m| - |MarkerClose|..] == MarkerClose
    && Text.AllDigits(m[|MarkerOpen|..|m| - |MarkerClose|])
  }

  /** The length of the marker at the very start of `s`, if there is one: the
      opening text, the longest run of digits (at least one), then `]]`. */
  function MatchAt(s: string): (r: Option<nat>)
    ensures r.Some? ==> 0 < r.value <= |s|
  {
    if Text.IsPrefix(MarkerOpen, s) then
      var d := Text.DigitRun(s[|MarkerOpen|..]);
      var end := |MarkerOpen| + d;
      if 0 < d && Text.IsPrefix(MarkerClose, s[end..]) then Some(end + |MarkerClose|)
      else None
    else None
  }

  /** A match at the start of the text is a whole marker. */
  lemma MatchAtSound(s: string)
    ensures MatchAt(s).Some? ==> IsMarker(s[..MatchAt(s).value])
  {
    if MatchAt(s).Some? {
      var d := Text.DigitRun(s[|MarkerOpen|..]);
      var end := |MarkerOpen| + d;
      var m := s[..end + |MarkerClose|];
      assert m[..|MarkerOpen|] == s[..|MarkerOpen|];
      assert m[|MarkerOpen|..end] == s[|MarkerOpen|..][..d];
      assert m[|m| - |MarkerClose|..] == s[end..][..|MarkerClose|];
    }
  }

  /** Every marker of `s`, left to right, without overlap, duplicates included. */
  function Scan(s: string): seq<string>
    decreases |s|
  {
    if |s| == 0 then []
    else
      match MatchAt(s)
      case Some(n) => [s[..n]] + Scan(s[n..])
      case None => Scan(s[1..])
  }

  /** Every match is a marker that occurs in the text. */
  lemma {:induction false} ScanSound(s: string)
    ensures forall i :: 0 <= i < |Scan(s)| ==> IsMarker(Scan(s)[i]) && Text.Contains(s, Scan(s)[i])
    decreases |s|
  {
    if |s| > 0 {
      var r := Scan(s);
      if MatchAt(s).Some? {
        var n := MatchAt(s).value;
        var rest := Scan(s[n..]);
        ScanSome(s, n);
        ScanSound(s[n..]);
        MatchAtSound(s);
        PrefixOccurs(s, n);
        forall i | 0 <= i < |r| ensures IsMarker(r[i]) && Text.Contains(s, r[i]) {
          if i > 0 {
            assert r[i] == rest[i - 1];
            Text.ContainsInSuffix(s, n, rest[i - 1]);
          }
        }
      } else {
        ScanNone(s);
        ScanSound(s[1..]);
        forall i | 0 <= i < |r| ensures IsMarker(r[i]) && Text.Contains(s, r[i]) {
          Text.ContainsInSuffix(s, 1, r[i]);
        }
      }
    }
  }

  /** A marker at the start of the text is matched whole: the digit run stops at `]]`. */
  lemma MatchAtMarker(s: string, n: nat)
    requires 0 < n <= |s| && IsMarker(s[..n])
    ensures MatchAt(s) == Some(n)
  {
    var open := |MarkerOpen|;
    var m := s[..n];
    assert s[..open] == m[..open];
    var digits := s[open..n - |MarkerClose|];
    assert digits == m[open..|m| - |MarkerClose|];
    assert s[n - |MarkerClose|..n] == m[|m| - |MarkerClose|..];
    assert s[n - |MarkerClose|] == ']';
    assert s[open..] == digits + s[n - |MarkerClose|..];
    Text.DigitRunOfDigits(digits, s[n - |MarkerClose|..]);
    assert s[open + |digits|..][..|MarkerClose|] == MarkerClose;
  }

  /** A marker found at or inside a marker at the start of `s` is that very
      marker, at the very start. */
  lemma MarkerWithinMarker(s: string, n: nat, m: string, j: nat)
    requires 0 < n <= |s| && IsMarker(s[..n])
    requires IsMarker(m) && j < n
    ensures Text.OccursAt(s, m, j) ==> j == 0 && m == s[..n]
  {
    if Text.OccursAt(s, m, j) {
      assert m[..|MarkerOpen|] == MarkerOpen;
      assert m[0] == MarkerOpen[0] == '[' && m[1] == MarkerOpen[1] == '[';
      assert s[j] == m[0] && s[j + 1] == m[1];
      if 0 < j {
        NoOpeningInside(s, n, j);
      } else {
        assert s[..|m|] == m;
        MatchAtMarker(s, |m|);
        MatchAtMarker(s, n);
      }
    }
  }

  /** No `[[` starts strictly inside a match, so matches cannot overlap. */
  lemma NoOpeningInside(s: string, n: nat, i: nat)
    requires 0 < n <= |s| && IsMarker(s[..n])
    requires 0 < i < n && i + 1 < |s|
    ensures !(s[i] == '[' && s[i + 1] == '[')
  {
    var m := s[..n];
    var open := |MarkerOpen|;
    assert m[..open] == MarkerOpen;
    if i == 1 {
      assert s[2] == MarkerOpen[2] == 'I';
    } else if i < open {
      assert s[i] == MarkerOpen[i];
      assert MarkerOpen[2..] == "INSERT_IMAGE_";
      assert MarkerOpen[i] == MarkerOpen[2..][i - 2];
    } else if i < n - |MarkerClose| {
      assert s[i] == m[open..|m| - |MarkerClose|][i - open];
    } else {
      assert s[i] == m[|m| - |MarkerClose|..][i - (n - |MarkerClose|)];
    }
  }

  /** Where each match of `Scan(s)` starts in `s`. */
  function ScanPositions(s: string): (ps: seq<nat>)
    ensures |ps| == |Scan(s)|
    decreases |s|
  {
    if |s| == 0 then []
    else
      match MatchAt(s)
      case Some(n) => [0] + Offset(ScanPositions(s[n..]), n)
      case None => Offset(ScanPositions(s[1..]), 1)
  }

  /** Every position moved `d` places to the right. */
  function Offset(ps: seq<nat>, d: nat): (r: seq<nat>)
    ensures |r| == |ps|
    ensures forall k :: 0 <= k < |ps| ==> r[k] == ps[k] + d
  {
    seq(|ps|, k requires 0 <= k < |ps| => ps[k] + d)
  }

  /** An occurrence in the suffix from `n` is an occurrence `n` places further in. */
  lemma OccursInSuffix(s: string, n: nat, t: string, p: nat)
    requires n <= |s| && Text.OccursAt(s[n..], t, p)
    ensures Text.OccursAt(s, t, n + p)
  {
    assert s[n + p..n + p + |t|] == s[n..][p..p + |t|];
  }

  /** An occurrence at or after `n` is an occurrence in the suffix from `n`. */
  lemma OccursAfterCut(s: string, n: nat, t: string, i: nat)
    requires n <= i && Text.OccursAt(s, t, i)
    ensures Text.OccursAt(s[n..], t, i - n)
  {
    assert s[n..][i - n..i - n + |t|] == s[i..i + |t|];
  }

  /** One step of the scan at a match of length `n`. */
  lemma ScanSome(s: string, n: nat)
    requires 0 < |s| && MatchAt(s) == Some(n)
    ensures Scan(s) == [s[..n]] + Scan(s[n..])
  {
  }

  lemma PositionsSome(s: string, n: nat)
    requires 0 < |s| && MatchAt(s) == Some(n)
    ensures ScanPositions(s) == [0] + Offset(ScanPositions(s[n..]), n)
  {
  }

  /** One step of the scan where no match starts. */
  lemma ScanNone(s: string)
    requires 0 < |s| && MatchAt(s).None?
    ensures Scan(s) == Scan(s[1..])
    ensures ScanPositions(s) == Offset(ScanPositions(s[1..]), 1)
  {
  }

  /** After a match of length `n`, the whole text has one match more, and that
      match comes first, at position 0. */
  lemma FirstSome(s: string, n: nat)
    requires 0 < |s| && MatchAt(s) == Some(n)
    ensures |Scan(s)| == |Scan(s[n..])| + 1
    ensures Scan(s)[0] == s[..n] && ScanPositions(s)[0] == 0
  {
    ScanSome(s, n);
    PositionsSome(s, n);
  }

  /** The k-th match after a match of length `n` is the (k+1)-th of the whole text. */
  lemma LiftSome(s: string, n: nat, k: nat)
    requires 0 < |s| && MatchAt(s) == Some(n) && k < |Scan(s[n..])|
    ensures Scan(s)[k + 1] == Scan(s[n..])[k]
    ensures ScanPositions(s)[k + 1] == ScanPositions(s[n..])[k] + n
  {
    LiftScanSome(s, n, k);
    LiftPositionSome(s, n, k);
  }

  lemma LiftScanSome(s: string, n: nat, k: nat)
    requires 0 < |s| && MatchAt(s) == Some(n) && k < |Scan(s[n..])|
    ensures Scan(s)[k + 1] == Scan(s[n..])[k]
  {
    ScanSome(s, n);
  }

  lemma LiftPositionSome(s: string, n: nat, k: nat)
    requires 0 < |s| && MatchAt(s) == Some(n) && k < |ScanPositions(s[n..])|
    ensures ScanPositions(s)[k + 1] == ScanPositions(s[n..])[k] + n
  {
    PositionsSome(s, n);
  }

  /** The k-th match after a skipped character is the k-th of the whole text. */
  lemma LiftNone(s: string, k: nat)
    requires 0 < |s| && MatchAt(s).None? && k < |Scan(s[1..])|
    ensures Scan(s)[k] == Scan(s[1..])[k]
    ensures ScanPositions(s)[k] == ScanPositions(s[1..])[k] + 1
  {
    ScanNone(s);
  }

  /** `ms` occur in `s` at the positions `ps`, each ending before the next starts. */
  predicate InTextOrder(s: string, ms: seq<string>, ps: seq<nat>) {
    && |ms| == |ps|
    && (forall k :: 0 <= k < |ms| ==> Text.OccursAt(s, ms[k], ps[k]))
    && (forall j, k :: 0 <= j < k < |ms| ==> ps[j] + |ms[j]| <= ps[k])
  }

  /** The matches are listed in text order. */
  lemma {:induction false} ScanInTextOrder(s: string)
    ensures InTextOrder(s, Scan(s), ScanPositions(s))
    decreases |s|
  {
    if |s| > 0 {
      if MatchAt(s).Some? {
        var n := MatchAt(s).value;
        ScanSome(s, n);
        PositionsSome(s, n);
        ScanInTextOrder(s[n..]);
        OrderAfterMatch(s, n, Scan(s[n..]), ScanPositions(s[n..]));
      } else {
        ScanNone(s);
        ScanInTextOrder(s[1..]);
        OrderAfterSkip(s, Scan(s[1..]), ScanPositions(s[1..]));
      }
    }
  }

  /** Ordered matches after the first `n` characters stay ordered behind a match
      of those `n` characters. */
  lemma OrderAfterMatch(s: string, n: nat, ms: seq<string>, ps: seq<nat>)
    requires n <= |s| && InTextOrder(s[n..], ms, ps)
    ensures InTextOrder(s, [s[..n]] + ms, [0] + Offset(ps, n))
  {
    var r, qs := [s[..n]] + ms, [0] + Offset(ps, n);
    OccursAfterMatch(s, n, ms, ps);
    forall j, k | 0 <= j < k < |r| ensures qs[j] + |r[j]| <= qs[k] {
      assert qs[k] == ps[k - 1] + n;
      if j > 0 {
        assert r[j] == ms[j - 1] && qs[j] == ps[j - 1] + n;
      }
    }
  }

  lemma OccursAfterMatch(s: string, n: nat, ms: seq<string>, ps: seq<nat>)
    requires n <= |s| && |ms| == |ps|
    requires forall k :: 0 <= k < |ms| ==> Text.OccursAt(s[n..], ms[k], ps[k])
    ensures var r, qs := [s[..n]] + ms, [0] + Offset(ps, n);
            forall k :: 0 <= k < |r| ==> Text.OccursAt(s, r[k], qs[k])
  {
    var r, qs := [s[..n]] + ms, [0] + Offset(ps, n);
    forall k | 0 <= k < |r| ensures Text.OccursAt(s, r[k], qs[k]) {
      if k == 0 {
        PrefixOccurs(s, n);
      } else {
        assert r[k] == ms[k - 1] && qs[k] == ps[k - 1] + n;
        OccursInSuffix(s, n, ms[k - 1], ps[k - 1]);
      }
    }
  }

  /** Ordered matches after the first character stay ordered in the whole text. */
  lemma OrderAfterSkip(s: string, ms: seq<string>, ps: seq<nat>)
    requires 0 < |s| && InTextOrder(s[1..], ms, ps)
    ensures InTextOrder(s, ms, Offset(ps, 1))
  {
    var qs := Offset(ps, 1);
    forall k | 0 <= k < |ms| ensures Text.OccursAt(s, ms[k], qs[k]) {
      OccursInSuffix(s, 1, ms[k], ps[k]);
    }
  }

  lemma PrefixOccurs(s: string, n: nat)
    requires n <= |s|
    ensures Text.OccursAt(s, s[..n], 0)
  {
    assert s[0..n] == s[..n];
  }

  /** A match at the start ends at or before any later marker occurrence. */
  lemma MatchEndsBefore(s: string, n: nat, m: string, i: nat)
    requires MatchAt(s) == Some(n) && IsMarker(m) && Text.OccursAt(s, m, i) && 0 < i
    ensures n <= i
  {
    MatchAtSound(s);
    if i < n {
      assert m[..|MarkerOpen|] == MarkerOpen;
      assert m[0] == MarkerOpen[0] == '[' && m[1] == MarkerOpen[1] == '[';
      assert s[i..i + |m|] == m;
      assert s[i] == m[0] && s[i + 1] == m[1];
      NoOpeningInside(s, n, i);
      assert false;
    }
  }

  /** Every occurrence of a marker is a match, found at that very position. */
  lemma {:induction false} ScanComplete(s: string, m: string, i: nat)
    requires IsMarker(m) && Text.OccursAt(s, m, i)
    ensures exists k :: 0 <= k < |Scan(s)| && Scan(s)[k] == m && ScanPositions(s)[k] == i
    decreases |s|
  {
    if i == 0 {
      assert s[..|m|] == m;
      MatchAtMarker(s, |m|);
      FirstSome(s, |m|);
      assert Scan(s)[0] == m && ScanPositions(s)[0] == 0;
    } else if MatchAt(s).Some? {
      var n := MatchAt(s).value;
      MatchEndsBefore(s, n, m, i);
      OccursAfterCut(s, n, m, i);
      ScanComplete(s[n..], m, i - n);
      var k :| 0 <= k < |Scan(s[n..])| && Scan(s[n..])[k] == m && ScanPositions(s[n..])[k] == i - n;
      LiftSome(s, n, k);
    } else {
      OccursAfterCut(s, 1, m, i);
      ScanComplete(s[1..], m, i - 1);
      var k :| 0 <= k < |Scan(s[1..])| && Scan(s[1..])[k] == m && ScanPositions(s[1..])[k] == i - 1;
      LiftNone(s, k);
    }
  }

  predicate NoDuplicates(xs: seq<string>) {
    forall i, j :: 0 <= i < j < |xs| ==> xs[i] != xs[j]
  }

  /** `[...new Set(xs)]`: each distinct element once, at its first occurrence. */
  function Distinct(xs: seq<string>): (r: seq<string>)
    ensures forall x :: x in r <==> x in xs
    ensures NoDuplicates(r)
    ensures |r| <= |xs|
    decreases |xs|
  {
    if |xs| == 0 then []
    else
      var d := Distinct(xs[..|xs| - 1]);
      var last := xs[|xs| - 1];
      assert xs == xs[..|xs| - 1] + [last];
      if last in d then d else d + [last]
  }

  /** The distinct markers of a text, in order of first occurrence. */
  function DistinctMarkers(text: string): (r: seq<string>)
    ensures NoDuplicates(r)
    ensures forall i :: 0 <= i < |r| ==> IsMarker(r[i]) && Text.Contains(text, r[i])
  {
    var all := Scan(text);
    ScanSound(text);
    var r := Distinct(all);
    assert forall i :: 0 <= i < |r| ==> r[i] in all;
    r
  }

  /** Every marker that occurs in the text is among its distinct markers. */
  lemma DistinctMarkersComplete(text: string, m: string)
    requires IsMarker(m) && Text.Contains(text, m)
    ensures m in DistinctMarkers(text)
  {
    var i :| 0 <= i <= |text| && Text.OccursAt(text, m, i);
    ScanComplete(text, m, i);
  }

  /** A text has a distinct marker exactly when some marker occurs in it. */
  lemma HasMarkerIff(text: string)
    ensures 0 < |DistinctMarkers(text)| <==> exists m :: IsMarker(m) && Text.Contains(text, m)
  {
    var r := DistinctMarkers(text);
    if 0 < |r| {
      assert IsMarker(r[0]) && Text.Contains(text, r[0]);
    }
    if exists m :: IsMarker(m) && Text.Contains(text, m) {
      var m :| IsMarker(m) && Text.Contains(text, m);
      DistinctMarkersComplete(text, m);
    }
  }

  /** The first occurrence of an element of a prefix is found within the prefix. */
  lemma IndexOfPrefix(xs: seq<string>, k: nat, y: string)
    requires k <= |xs| && y in xs[..k]
    ensures Seqs.IndexOf(xs, y) == Seqs.IndexOf(xs[..k], y)
  {
    var a := Seqs.IndexOf(xs, y);
    var b := Seqs.IndexOf(xs[..k], y);
    assert xs[..k][b] == xs[b];
    assert a <= b;
    assert xs[..k][a] == xs[a];
  }

  /** The distinct elements keep the order of their first occurrences. */
  lemma {:induction false} DistinctKeepsFirstOccurrenceOrder(xs: seq<string>)
    ensures var r := Distinct(xs);
            forall i, j :: 0 <= i < j < |r| ==> Seqs.IndexOf(xs, r[i]) < Seqs.IndexOf(xs, r[j])
    decreases |xs|
  {
    if |xs| > 0 {
      var init := xs[..|xs| - 1];
      DistinctKeepsFirstOccurrenceOrder(init);
      var r := Distinct(xs);
      forall i, j | 0 <= i < j < |r|
        ensures Seqs.IndexOf(xs, r[i]) < Seqs.IndexOf(xs, r[j])
      {
        OrderAfterAppend(xs, Distinct(init), i, j);
      }
    }
  }

  /** One step of the order proof: `xs` extends `init` by one element. */
  lemma OrderAfterAppend(xs: seq<string>, d: seq<string>, i: nat, j: nat)
    requires 0 < |xs| && d == Distinct(xs[..|xs| - 1])
    requires forall a, b :: 0 <= a < b < |d| ==> Seqs.IndexOf(xs[..|xs| - 1], d[a]) < Seqs.IndexOf(xs[..|xs| - 1], d[b])
    requires i < j < |Distinct(xs)|
    ensures Seqs.IndexOf(xs, Distinct(xs)[i]) < Seqs.IndexOf(xs, Distinct(xs)[j])
  {
    var init := xs[..|xs| - 1];
    var last := xs[|xs| - 1];
    var r := Distinct(xs);
    assert r == d || r == d + [last];
    assert r[i] == d[i] && d[i] in init;
    IndexOfPrefix(xs, |xs| - 1, d[i]);
    if j < |d| {
      assert r[j] == d[j] && d[j] in init;
      IndexOfPrefix(xs, |xs| - 1, d[j]);
      assert Seqs.IndexOf(init, d[i]) < Seqs.IndexOf(init, d[j]);
    } else {
      assert r == d + [last] && r[j] == last && last !in init;
      assert Seqs.IndexOf(xs, last) == |xs| - 1;
    }
  }

  // ----- scanning concrete drafts -----

  /** The marker text for `n` is found at the start of a draft and consumed whole. */
  lemma MatchMarker(n: nat, rest: string)
    ensures MatchAt(Marker(n) + rest) == Some(|Marker(n)|)
  {
    var s := Marker(n) + rest;
    var digits := Text.NatToString(n);
    assert s[|MarkerOpen|..] == digits + (MarkerClose + rest);
    Text.DigitRunOfRendering(n, MarkerClose + rest);
    assert s[|MarkerOpen| + |digits|..] == MarkerClose + rest;
  }

  lemma ScanMarker(n: nat, rest: string)
    ensures Scan(Marker(n) + rest) == [Marker(n)] + Scan(rest)
  {
    var s := Marker(n) + rest;
    MatchMarker(n, rest);
    assert s[..|Marker(n)|] == Marker(n);
    assert s[|Marker(n)|..] == rest;
  }

  /** Text without `[` holds no marker and hides none that follows it. */
  lemma {:induction false} ScanSkipsPlainText(plain: string, rest: string)
    requires '[' !in plain
    ensures Scan(plain + rest) == Scan(rest)
    decreases |plain|
  {
    if |plain| > 0 {
      var s := plain + rest;
      assert s[0] == plain[0] != '[';
      assert MatchAt(s).None?;
      assert s[1..] == plain[1..] + rest;
      ScanSkipsPlainText(plain[1..], rest);
    } else {
      assert plain + rest == rest;
    }
  }

  /** The digits between the opening text and `]]`. */
  function MarkerDigits(m: string): string
    requires IsMarker(m)
  {
    m[|MarkerOpen|..|m| - |MarkerClose|]
  }

  /** The number of a marker can be read back from it. */
  lemma MarkerDigitsOf(n: nat)
    ensures IsMarker(Marker(n)) && MarkerDigits(Marker(n)) == Text.NatToString(n)
  {
    var m := Marker(n);
    assert m[|MarkerOpen|..|m| - |MarkerClose|] == Text.NatToString(n);
    assert m[|m| - |MarkerClose|..] == MarkerClose;
  }

  /** Different numbers give different markers. */
  lemma MarkersDiffer(a: nat, b: nat)
    requires a != b
    ensures Marker(a) != Marker(b)
  {
    MarkerDigitsOf(a);
    MarkerDigitsOf(b);
    Text.NatToStringInjective(a, b);
  }

  /** Three markers in a row are scanned as three matches. */
  lemma ScanThreeMarkers(a: nat, b: nat, c: nat)
    ensures Scan(Marker(a) + Marker(b) + Marker(c)) == [Marker(a), Marker(b), Marker(c)]
  {
    var ma, mb, mc := Marker(a), Marker(b), Marker(c);
    ScanMarker(c, "");
    assert mc + "" == mc;
    assert Scan(mc) == [mc];
    ScanMarker(b, mc);
    ScanMarker(a, mb + mc);
    assert ma + mb + mc == ma + (mb + mc);
  }

  /** A repeated element is kept once, at its first place. */
  lemma DistinctOfRepeat(a: string, b: string)
    requires a != b
    ensures Distinct([a, b, a]) == [a, b]
  {
    assert [a, b, a][..2] == [a, b];
    assert [a, b][..1] == [a];
    assert [a][..0] == [];
    assert Distinct([a]) == [a];
    assert Distinct([a, b]) == [a, b];
  }

  /** A draft with markers 1, 2 and 1 again has two distinct markers, 1 before 2. */
  lemma DuplicateMarkerCountedOnce()
    ensures DistinctMarkers(Marker(1) + Marker(2) + Marker(1)) == [Marker(1), Marker(2)]
  {
    ScanThreeMarkers(1, 2, 1);
    MarkersDiffer(1, 2);
    DistinctOfRepeat(Marker(1), Marker(2));
  }
}
