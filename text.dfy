/** The few Python string operations the catalogue relies on: `str.lower`,
    `str.strip`, `str.split()` with no separator, `" ".join`, the substring
    test behind `LIKE '%q%'`, and `str` on an integer. */
module Text {

  /** Python's `str.isspace`, the separator set of `split()` and `strip()`. */
  predicate IsSpace(c: char) {
    || c == ' ' || c == '\t' || c == '\n' || c == '\r' || c == '\U{B}' || c == '\U{C}'
    || ('\U{1C}' <= c <= '\U{1F}') || c == '\U{85}' || c == '\U{A0}' || c == '\U{1680}'
    || ('\U{2000}' <= c <= '\U{200A}') || c == '\U{2028}' || c == '\U{2029}'
    || c == '\U{202F}' || c == '\U{205F}' || c == '\U{3000}'
  }

  ghost predicate AllSpace(s: string) {
    forall i :: 0 <= i < |s| ==> IsSpace(s[i])
  }

  /** A maximal run of non-space characters, as `split()` yields it. */
  ghost predicate IsWord(w: string) {
    w != [] && forall i :: 0 <= i < |w| ==> !IsSpace(w[i])
  }

  // ---------------------------------------------------------------------------
  // Lower-casing

  /** Case mapping of one character; only ASCII letters are mapped. */
  function LowerChar(c: char): char {
    if 'A' <= c <= 'Z' then (c as int + 32) as char else c
  }

  function Lower(s: string): (r: string)
    ensures |r| == |s|
    ensures forall i :: 0 <= i < |s| ==> r[i] == LowerChar(s[i])
  {
    seq(|s|, i requires 0 <= i < |s| => LowerChar(s[i]))
  }

  /** A piece of a lower-cased string is already lower-case. */
  lemma {:induction false} PieceOfLowerIsLower(s: string, t: string)
    requires Contains(Lower(s), t)
    ensures Lower(t) == t
  {
    var i :| 0 <= i <= |Lower(s)| - |t| && OccursAt(Lower(s), t, i);
    forall k | 0 <= k < |t| ensures LowerChar(t[k]) == t[k] {
      assert t[k] == LowerChar(s[i + k]);
    }
  }

  /** Lower-casing never turns a separator into a letter or back. */
  lemma LowerKeepsSpaces(s: string)
    ensures AllSpace(Lower(s)) <==> AllSpace(s)
  {
    assert forall i :: 0 <= i < |s| ==> (IsSpace(Lower(s)[i]) <==> IsSpace(s[i]));
  }

  // ---------------------------------------------------------------------------
  // Substrings

  /** `sub` occurs in `s`; this is `s LIKE '%' || sub || '%'` for a `sub`
      without the wildcard characters `%` and `_` and, under Postgres's
      default escape, without `\`. */
  predicate Contains(s: string, sub: string) {
    exists i :: 0 <= i <= |s| - |sub| && OccursAt(s, sub, i)
  }

  predicate OccursAt(s: string, sub: string, i: int) {
    0 <= i <= |s| - |sub| && sub == s[i..i + |sub|]
  }

  lemma {:induction false} ContainsTransitive(a: string, b: string, c: string)
    requires Contains(a, b) && Contains(b, c)
    ensures Contains(a, c)
  {
    var i :| 0 <= i <= |a| - |b| && OccursAt(a, b, i);
    var j :| 0 <= j <= |b| - |c| && OccursAt(b, c, j);
    forall k | 0 <= k < |c| ensures c[k] == a[i + j + k] {
      assert c[k] == b[j + k];
    }
    assert c == a[i + j..i + j + |c|];
    assert OccursAt(a, c, i + j);
  }

  lemma {:induction false} ContainsLower(s: string, sub: string)
    requires Contains(s, sub)
    ensures Contains(Lower(s), Lower(sub))
  {
    var i :| 0 <= i <= |s| - |sub| && OccursAt(s, sub, i);
    forall k | 0 <= k < |sub| ensures Lower(sub)[k] == Lower(s)[i + k] {
      assert sub[k] == s[i + k];
    }
    assert Lower(sub) == Lower(s)[i..i + |sub|];
    assert OccursAt(Lower(s), Lower(sub), i);
  }

  lemma ContainsAppend(a: string, b: string)
    ensures Contains(a + b, a) && Contains(a + b, b)
  {
    assert OccursAt(a + b, a, 0);
    assert OccursAt(a + b, b, |a|);
  }

  // ---------------------------------------------------------------------------
  // strip()

  function TrimStart(s: string): (r: string)
    ensures |r| <= |s| && r == s[|s| - |r|..]
    ensures AllSpace(s[..|s| - |r|])
    ensures r != [] ==> !IsSpace(r[0])
  {
    if s != [] && IsSpace(s[0]) then TrimStart(s[1..]) else s
  }

  function TrimEnd(s: string): (r: string)
    ensures |r| <= |s| && r == s[..|r|]
    ensures AllSpace(s[|r|..])
    ensures r != [] ==> !IsSpace(r[|r| - 1])
  {
    if s != [] && IsSpace(s[|s| - 1]) then TrimEnd(s[..|s| - 1]) else s
  }

  /** `r` is `s[i..j]`, and all that is cut off on either side is
      separators. */
  ghost predicate StrippedAt(s: string, r: string, i: int, j: int) {
    0 <= i <= j <= |s| && r == s[i..j] && AllSpace(s[..i]) && AllSpace(s[j..])
  }

  /** Trimming both ends removes a run of separators at each end and
      nothing else. */
  lemma TrimmedEnds(s: string)
    ensures exists i, j :: StrippedAt(s, TrimEnd(TrimStart(s)), i, j)
  {
    var t := TrimStart(s);
    var r := TrimEnd(t);
    var i := |s| - |t|;
    var j := i + |r|;
    assert r == s[i..j] by {
      assert t == s[i..];
      assert r == t[..|r|];
    }
    assert AllSpace(s[j..]) by {
      assert t == s[i..];
      assert s[j..] == t[|r|..];
    }
    assert StrippedAt(s, r, i, j);
  }

  /** Python's `str.strip()` with no argument. */
  function Strip(s: string): (r: string)
    ensures r == [] <==> AllSpace(s)
    ensures r != [] ==> !IsSpace(r[0]) && !IsSpace(r[|r| - 1])
    ensures Contains(s, r)
    ensures exists i, j :: StrippedAt(s, r, i, j)
  {
    TrimmedEnds(s);
    TrimmedContained(s);
    TrimmedEmpty(s);
    TrimEnd(TrimStart(s))
  }

  lemma TrimmedContained(s: string)
    ensures Contains(s, TrimEnd(TrimStart(s)))
  {
    var t := TrimStart(s);
    var r := TrimEnd(t);
    assert OccursAt(t, r, 0);
    assert OccursAt(s, t, |s| - |t|);
    ContainsTransitive(s, t, r);
  }

  lemma TrimmedEmpty(s: string)
    ensures TrimEnd(TrimStart(s)) == [] <==> AllSpace(s)
  {
    var t := TrimStart(s);
    var r := TrimEnd(t);
    assert t != [] ==> t[0] == s[|s| - |t|] && !IsSpace(t[0]);
    assert s[..|s|] == s;
    assert r != [] ==> r[|r| - 1] == t[|r| - 1] && !IsSpace(r[|r| - 1]);
    assert r == [] ==> t[|r|..] == t;
  }

  // ---------------------------------------------------------------------------
  // split() and " ".join

  /** Length of the run of non-space characters at the front of `s`. */
  function WordLength(s: string): (n: nat)
    ensures n <= |s|
    ensures forall i :: 0 <= i < n ==> !IsSpace(s[i])
    ensures n < |s| ==> IsSpace(s[n])
  {
    if s == [] || IsSpace(s[0]) then 0 else 1 + WordLength(s[1..])
  }

  /** Python's `str.split()` with no separator: the runs of non-space
      characters of `s`, left to right. */
  function Words(s: string): (ws: seq<string>)
    ensures forall i :: 0 <= i < |ws| ==> IsWord(ws[i])
    ensures ws == [] <==> AllSpace(s)
    decreases |s|
  {
    if s == [] then []
    else if IsSpace(s[0]) then
      var rest := Words(s[1..]);
      assert AllSpace(s[1..]) ==> AllSpace(s) by {
        if AllSpace(s[1..]) {
          forall i | 1 <= i < |s| ensures IsSpace(s[i]) { assert s[i] == s[1..][i - 1]; }
        }
      }
      rest
    else
      var n := WordLength(s);
      [s[..n]] + Words(s[n..])
  }

  /** The separator runs around the words of `s`: the one before the first
      word, the ones between words, and the one after the last word. */
  ghost function Gaps(s: string): (gs: seq<string>)
    ensures |gs| == |Words(s)| + 1
    ensures forall k :: 0 <= k < |gs| ==> AllSpace(gs[k])
    ensures s != [] && IsSpace(s[0]) ==> gs[0] != []
    decreases |s|
  {
    if s == [] then [[]]
    else if IsSpace(s[0]) then
      var g := Gaps(s[1..]);
      [[s[0]] + g[0]] + g[1..]
    else
      var n := WordLength(s);
      [[]] + Gaps(s[n..])
  }

  /** The gaps and the words laid alternately, starting and ending with a
      gap. */
  function Interleave(gaps: seq<string>, ws: seq<string>): string
    requires |gaps| == |ws| + 1
  {
    if ws == [] then gaps[0] else gaps[0] + ws[0] + Interleave(gaps[1..], ws[1..])
  }

  /** `split()` cuts `s` at its separator runs: `s` is its gaps and its
      words laid alternately. With `GapsBetweenWords`, every gap being
      separators only and every word a run without any, this says the words
      are the maximal runs of non-separators of `s`, left to right. */
  lemma {:induction false} WordsSplitAtGaps(s: string)
    ensures s == Interleave(Gaps(s), Words(s))
    decreases |s|
  {
    if s == [] {
    } else if IsSpace(s[0]) {
      WordsSplitAtGaps(s[1..]);
      SplitAfterSeparator(s);
    } else {
      WordsSplitAtGaps(s[WordLength(s)..]);
      SplitAfterWord(s);
    }
  }

  lemma SplitAfterSeparator(s: string)
    requires s != [] && IsSpace(s[0])
    requires s[1..] == Interleave(Gaps(s[1..]), Words(s[1..]))
    ensures s == Interleave(Gaps(s), Words(s))
  {
    StepOverSeparator(s);
    JoinAfterSeparator(s, Gaps(s[1..]), Words(s[1..]));
  }

  lemma SplitAfterWord(s: string)
    requires s != [] && !IsSpace(s[0])
    requires var n := WordLength(s); s[n..] == Interleave(Gaps(s[n..]), Words(s[n..]))
    ensures s == Interleave(Gaps(s), Words(s))
  {
    var n := WordLength(s);
    StepOverWord(s);
    JoinAfterWord(s, n, Gaps(s[n..]), Words(s[n..]));
  }

  /** One unfolding of `Words` and `Gaps` over a leading separator. */
  lemma StepOverSeparator(s: string)
    requires s != [] && IsSpace(s[0])
    ensures var g := Gaps(s[1..]);
            Gaps(s) == [[s[0]] + g[0]] + g[1..] && Words(s) == Words(s[1..])
  {
  }

  /** One unfolding of `Words` and `Gaps` over a leading word. */
  lemma StepOverWord(s: string)
    requires s != [] && !IsSpace(s[0])
    ensures var n := WordLength(s);
            Gaps(s) == [[]] + Gaps(s[n..]) && Words(s) == [s[..n]] + Words(s[n..])
  {
  }

  lemma JoinAfterWord(s: string, n: nat, gaps: seq<string>, ws: seq<string>)
    requires n <= |s| && |gaps| == |ws| + 1
    requires s[n..] == Interleave(gaps, ws)
    ensures s == Interleave([[]] + gaps, [s[..n]] + ws)
  {
    assert ([[]] + gaps)[1..] == gaps && ([s[..n]] + ws)[1..] == ws;
    assert s == [] + s[..n] + s[n..];
  }

  lemma JoinAfterSeparator(s: string, gaps: seq<string>, ws: seq<string>)
    requires s != [] && |gaps| == |ws| + 1
    requires s[1..] == Interleave(gaps, ws)
    ensures s == Interleave([[s[0]] + gaps[0]] + gaps[1..], ws)
  {
    var longer := [[s[0]] + gaps[0]] + gaps[1..];
    if ws != [] {
      assert longer[1..] == gaps[1..];
      PrependToFirstGap(s[0], gaps[0], ws[0], Interleave(gaps[1..], ws[1..]));
    }
    assert s == [s[0]] + s[1..];
  }

  lemma PrependToFirstGap(c: char, g: string, w: string, tail: string)
    ensures ([c] + g) + w + tail == [c] + (g + w + tail)
  {
  }

  /** Two neighbouring words are parted by at least one separator. */
  lemma {:induction false} GapsBetweenWords(s: string)
    ensures forall k :: 0 < k < |Words(s)| ==> Gaps(s)[k] != []
    decreases |s|
  {
    if s == [] {
    } else if IsSpace(s[0]) {
      GapsBetweenWords(s[1..]);
      var g := Gaps(s[1..]);
      forall k | 0 < k < |Words(s)| ensures Gaps(s)[k] != [] {
        assert Gaps(s)[k] == g[k];
      }
    } else {
      var n := WordLength(s);
      GapsBetweenWords(s[n..]);
      forall k | 0 < k < |Words(s)| ensures Gaps(s)[k] != [] {
        assert Gaps(s)[k] == Gaps(s[n..])[k - 1];
        if k == 1 {
          assert s[n..] != [] && IsSpace(s[n..][0]);
        }
      }
    }
  }

  /** `" ".join(ws)`. */
  function Join(ws: seq<string>): string {
    if ws == [] then []
    else if |ws| == 1 then ws[0]
    else ws[0] + " " + Join(ws[1..])
  }

  lemma {:induction false} WordLengthOfWord(w: string, t: string)
    requires IsWord(w)
    requires t == [] || IsSpace(t[0])
    ensures WordLength(w + t) == |w|
    decreases |w|
  {
    if |w| > 1 {
      assert (w + t)[1..] == w[1..] + t;
      WordLengthOfWord(w[1..], t);
    } else {
      assert (w + t)[1..] == t;
    }
  }

  /** Splitting words that were joined with single spaces gives them back. */
  lemma {:induction false} WordsOfJoin(ws: seq<string>)
    requires forall i :: 0 <= i < |ws| ==> IsWord(ws[i])
    ensures Words(Join(ws)) == ws
  {
    if ws == [] {
    } else if |ws| == 1 {
      var w := ws[0];
      WordLengthOfWord(w, []);
      assert w + [] == w;
      assert w[|w|..] == [];
    } else {
      var w, rest := ws[0], Join(ws[1..]);
      var s := w + " " + rest;
      assert s == w + (" " + rest);
      WordLengthOfWord(w, " " + rest);
      assert s[..|w|] == w;
      assert s[|w|..] == " " + rest;
      assert (" " + rest)[1..] == rest;
      WordsOfJoin(ws[1..]);
    }
  }

  /** Each joined word occurs in the joined string. */
  lemma {:induction false} JoinContains(ws: seq<string>, k: nat)
    requires k < |ws|
    ensures Contains(Join(ws), ws[k])
  {
    if |ws| == 1 {
      assert OccursAt(Join(ws), ws[0], 0);
    } else if k == 0 {
      assert Join(ws) == ws[0] + (" " + Join(ws[1..]));
      ContainsAppend(ws[0], " " + Join(ws[1..]));
    } else {
      JoinContains(ws[1..], k - 1);
      assert Join(ws) == (ws[0] + " ") + Join(ws[1..]);
      ContainsAppend(ws[0] + " ", Join(ws[1..]));
      ContainsTransitive(Join(ws), Join(ws[1..]), ws[k]);
    }
  }

  // ---------------------------------------------------------------------------
  // str(n) for an integer

  function DigitChar(d: nat): char
    requires d < 10
  {
    "0123456789"[d]
  }

  function DigitValue(c: char): nat {
    if '0' <= c <= '9' then c as int - '0' as int else 0
  }

  function NatToString(n: nat): (s: string)
    ensures s != [] && '0' <= s[0] <= '9'
    ensures n < 10 <==> |s| == 1
  {
    if n < 10 then [DigitChar(n)] else NatToString(n / 10) + [DigitChar(n % 10)]
  }

  /** Python's `str(i)`: decimal digits, with a leading minus when negative. */
  function IntToString(i: int): string {
    if i < 0 then "-" + NatToString(-i) else NatToString(i)
  }

  /** Reading decimal digits back, the partner of `NatToString`. */
  function ParseNat(s: string): nat {
    if s == [] then 0 else 10 * ParseNat(s[..|s| - 1]) + DigitValue(s[|s| - 1])
  }

  function ParseInt(s: string): int {
    if s != [] && s[0] == '-' then -(ParseNat(s[1..]) as int) else ParseNat(s)
  }

  lemma {:induction false} ParseNatToString(n: nat)
    ensures ParseNat(NatToString(n)) == n
  {
    if n >= 10 {
      var s := NatToString(n);
      assert s[..|s| - 1] == NatToString(n / 10);
      ParseNatToString(n / 10);
    }
  }

  lemma ParseIntToString(i: int)
    ensures ParseInt(IntToString(i)) == i
  {
    var s := IntToString(i);
    if i < 0 {
      assert s[0] == '-' && s[1..] == NatToString(-i);
      ParseNatToString(-i);
    } else {
      assert s == NatToString(i) && s[0] != '-';
      ParseNatToString(i);
    }
  }

  /** Distinct integers print differently. */
  lemma IntToStringInjective(a: int, b: int)
    ensures IntToString(a) == IntToString(b) ==> a == b
  {
    ParseIntToString(a);
    ParseIntToString(b);
  }
}
