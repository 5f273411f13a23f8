/** The Python `str` primitives the modelled code relies on: whitespace
    classification, `strip()`, `split()` with no separator and
    `' '.join(...)`, `split(sep, 2)`, `startswith` and `replace`. Strings are
    sequences of Unicode scalar values, which is what Python's `len` counts. */
module Text {

  /** Python's `str.isspace` for one character: the characters that
      `strip()` and `split()` treat as whitespace. */
  predicate IsSpace(c: char) {
    || c == ' '
    || ('\t' <= c <= '\r')
    || ('\U{1c}' <= c <= '\U{1f}')
    || c == '\U{85}' || c == '\U{a0}' || c == '\U{1680}'
    || ('\U{2000}' <= c <= '\U{200a}')
    || c == '\U{2028}' || c == '\U{2029}' || c == '\U{202f}'
    || c == '\U{205f}' || c == '\U{3000}'
  }

  predicate NoSpace(s: string) {
    forall i :: 0 <= i < |s| ==> !IsSpace(s[i])
  }

  predicate AllSpace(s: string) {
    forall i :: 0 <= i < |s| ==> IsSpace(s[i])
  }

  /** Neither end of `s` is whitespace. */
  predicate Trimmed(s: string) {
    s == [] || (!IsSpace(s[0]) && !IsSpace(s[|s| - 1]))
  }

  /** The characters at `k` and `k + 1`. */
  function Adjacent(s: string, k: nat): (char, char)
    requires k + 1 < |s|
  {
    (s[k], s[k + 1])
  }

  /** The only whitespace in `s` is ' ', and never two in a row. */
  predicate SingleSpaced(s: string) {
    && (forall k :: 0 <= k < |s| && IsSpace(s[k]) ==> s[k] == ' ')
    && (forall k :: 0 <= k < |s| - 1 ==> Adjacent(s, k) != (' ', ' '))
  }

  predicate StartsWith(s: string, prefix: string) {
    |prefix| <= |s| && s[..|prefix|] == prefix
  }

  // ---------------------------------------------------------------------
  // strip()

  /** `s.lstrip()`: drops the leading whitespace and nothing else. */
  function LStrip(s: string): (r: string)
    ensures |r| <= |s| && r == s[|s| - |r|..]
    ensures AllSpace(s[..|s| - |r|])
    ensures r == [] || !IsSpace(r[0])
    decreases |s|
  {
    if |s| > 0 && IsSpace(s[0]) then
      var r := LStrip(s[1..]);
      assert s[1..][|s| - 1 - |r|..] == s[|s| - |r|..];
      assert s[..|s| - |r|] == [s[0]] + s[1..][..|s| - 1 - |r|];
      r
    else s
  }

  /** `s.rstrip()`: drops the trailing whitespace and nothing else. */
  function RStrip(s: string): (r: string)
    ensures |r| <= |s| && r == s[..|r|]
    ensures AllSpace(s[|r|..])
    ensures r == [] || !IsSpace(r[|r| - 1])
    decreases |s|
  {
    if |s| > 0 && IsSpace(s[|s| - 1]) then
      var r := RStrip(s[..|s| - 1]);
      assert s[..|s| - 1][..|r|] == s[..|r|];
      assert s[|r|..] == s[..|s| - 1][|r|..] + [s[|s| - 1]];
      r
    else s
  }

  /** `s.strip()`. The result is empty exactly when `s` is all whitespace,
      has no whitespace at either end, and a string with none at either end
      is its own strip. */
  function Strip(s: string): (r: string)
    ensures Trimmed(r)
    ensures r == [] <==> AllSpace(s)
    ensures Trimmed(s) ==> r == s
  {
    StripEmptyIffSpace(s);
    StripTrims(s);
    RStrip(LStrip(s))
  }

  /** `r` is the slice of `s` starting at `i`, with only whitespace on
      either side of it. */
  ghost predicate StripsAt(s: string, r: string, i: int) {
    0 <= i <= |s| - |r| && r == s[i..i + |r|] && AllSpace(s[..i]) && AllSpace(s[i + |r|..])
  }

  /** `s.strip()` removes whitespace at both ends and nothing else: what
      is left is a slice of `s`. */
  lemma StripCuts(s: string)
    ensures exists i :: StripsAt(s, Strip(s), i)
  {
    var l := LStrip(s);
    var r := RStrip(l);
    assert Strip(s) == r;
    var i := |s| - |l|;
    assert s[i..] == l;
    assert s[i..i + |r|] == l[..|r|];
    assert s[i + |r|..] == l[|r|..];
    assert StripsAt(s, r, i);
  }

  lemma StripTrims(s: string)
    ensures Trimmed(RStrip(LStrip(s)))
    ensures Trimmed(s) ==> RStrip(LStrip(s)) == s
  {
    var l := LStrip(s);
    var r := RStrip(l);
    if r != [] {
      assert r[0] == l[0];
    }
    if Trimmed(s) && s != [] {
      assert l == s;
    }
  }

  lemma StripEmptyIffSpace(s: string)
    ensures RStrip(LStrip(s)) == [] <==> AllSpace(s)
  {
    var l := LStrip(s);
    if l == [] {
      LStripEmpty(s);
    } else {
      LStripNonEmpty(s);
      RStripKeepsHead(l);
    }
  }

  lemma LStripEmpty(s: string)
    requires LStrip(s) == []
    ensures AllSpace(s)
  {
    assert s[..|s|] == s;
  }

  lemma LStripNonEmpty(s: string)
    requires LStrip(s) != []
    ensures !AllSpace(s)
  {
    var l := LStrip(s);
    assert l[0] == s[|s| - |l|];
  }

  lemma RStripKeepsHead(l: string)
    requires l != [] && !IsSpace(l[0])
    ensures RStrip(l) != []
  {
  }

  /** Stripping twice is stripping once. */
  lemma StripIdempotent(s: string)
    ensures Strip(Strip(s)) == Strip(s)
  {
  }

  // ---------------------------------------------------------------------
  // split() and ' '.join(...)

  /** Length of the maximal whitespace-free prefix of `s`. */
  function WordLen(s: string): (k: nat)
    ensures k <= |s| && NoSpace(s[..k])
    ensures k == |s| || IsSpace(s[k])
    decreases |s|
  {
    if s == [] || IsSpace(s[0]) then 0
    else
      var k := 1 + WordLen(s[1..]);
      assert s[..k] == [s[0]] + s[1..][..k - 1];
      k
  }

  /** `s.split()`: the maximal runs of non-whitespace characters, in order.
      Every word is non-empty and contains no whitespace. */
  function Words(s: string): (ws: seq<string>)
    ensures forall i :: 0 <= i < |ws| ==> ws[i] != [] && NoSpace(ws[i])
    decreases |s|
  {
    if s == [] then []
    else if IsSpace(s[0]) then Words(s[1..])
    else
      var k := WordLen(s);
      [s[..k]] + Words(s[k..])
  }

  /** `sep.join(ws)`. */
  function Join(ws: seq<string>, sep: string): string {
    if |ws| == 0 then []
    else if |ws| == 1 then ws[0]
    else ws[0] + sep + Join(ws[1..], sep)
  }

  /** The whitespace-free prefix of a string ending at whitespace (or at
      its end) is exactly one word long. */
  lemma {:induction false} WordLenOfWord(w: string, t: string)
    requires NoSpace(w)
    requires t == [] || IsSpace(t[0])
    ensures WordLen(w + t) == |w|
    decreases |w|
  {
    if w == [] {
      assert w + t == t;
    } else {
      assert (w + t)[1..] == w[1..] + t;
      WordLenOfWord(w[1..], t);
    }
  }

  /** Leading whitespace does not change the words. */
  lemma {:induction false} WordsSkipSpace(sp: string, t: string)
    requires AllSpace(sp)
    ensures Words(sp + t) == Words(t)
    decreases |sp|
  {
    if sp != [] {
      assert (sp + t)[1..] == sp[1..] + t;
      WordsSkipSpace(sp[1..], t);
    } else {
      assert sp + t == t;
    }
  }

  /** A word followed by whitespace (or the end) splits off as one word. */
  lemma WordsOfWordThen(w: string, t: string)
    requires w != [] && NoSpace(w)
    requires t == [] || IsSpace(t[0])
    ensures Words(w + t) == [w] + Words(t)
  {
    WordLenOfWord(w, t);
    var s := w + t;
    assert s[..|w|] == w;
    assert s[|w|..] == t;
  }

  /** `split()` inverts `' '.join(...)` on lists of non-empty,
      whitespace-free words. */
  lemma {:induction false} WordsOfJoin(ws: seq<string>)
    requires forall i :: 0 <= i < |ws| ==> ws[i] != [] && NoSpace(ws[i])
    ensures Words(Join(ws, " ")) == ws
    decreases |ws|
  {
    if |ws| == 0 {
    } else if |ws| == 1 {
      WordsOfWordThen(ws[0], []);
      assert ws[0] + [] == ws[0];
    } else {
      var rest := Join(ws[1..], " ");
      assert Join(ws, " ") == ws[0] + (" " + rest);
      WordsOfWordThen(ws[0], " " + rest);
      WordsSkipSpace(" ", rest);
      WordsOfJoin(ws[1..]);
    }
  }

  /** Joining non-empty, whitespace-free words with single spaces gives a
      string with no whitespace at either end and no whitespace other than
      single ' ' separators. */
  lemma {:induction false} JoinShape(ws: seq<string>)
    requires forall i :: 0 <= i < |ws| ==> ws[i] != [] && NoSpace(ws[i])
    ensures Trimmed(Join(ws, " ")) && SingleSpaced(Join(ws, " "))
    decreases |ws|
  {
    if |ws| >= 2 {
      var rest := Join(ws[1..], " ");
      JoinShape(ws[1..]);
      var j := Join(ws, " ");
      assert j == ws[0] + " " + rest;
      assert rest != [] by {
        assert |ws[1..]| >= 1;
        if |ws[1..]| == 1 {
        } else {
          assert |rest| >= |ws[1]|;
        }
      }
      forall k | 0 <= k < |j|
        ensures IsSpace(j[k]) ==> j[k] == ' '
      {
        if k < |ws[0]| {
          assert j[k] == ws[0][k];
        } else if k > |ws[0]| {
          assert j[k] == rest[k - |ws[0]| - 1];
        }
      }
      forall k | 0 <= k < |j| - 1
        ensures Adjacent(j, k) != (' ', ' ')
      {
        if k < |ws[0]| {
          assert j[k] == ws[0][k];
        } else if k == |ws[0]| {
          assert j[k + 1] == rest[0];
        } else {
          assert j[k] == rest[k - |ws[0]| - 1];
          assert j[k + 1] == rest[k - |ws[0]|];
          assert Adjacent(j, k) == Adjacent(rest, k - |ws[0]| - 1);
        }
      }
      assert j[|j| - 1] == rest[|rest| - 1];
    }
  }

  /** Words that join `a` and `b` across a whitespace boundary: the words of
      `a + b` are those of `a` followed by those of `b`. */
  lemma {:induction false} WordsAppend(a: string, b: string)
    requires a == [] || IsSpace(a[|a| - 1])
    ensures Words(a + b) == Words(a) + Words(b)
    decreases |a|
  {
    if a == [] {
      assert a + b == b;
    } else if IsSpace(a[0]) {
      var sp, t := a[..1], a[1..];
      assert sp + t == a && AllSpace(sp);
      assert a + b == sp + (t + b);
      WordsSkipSpace(sp, t);
      WordsSkipSpace(sp, t + b);
      WordsAppend(t, b);
    } else {
      var k := WordLen(a);
      var w, t := a[..k], a[k..];
      assert w + t == a && t != [] && t[|t| - 1] == a[|a| - 1];
      WordsAppend(t, b);
      WordThenAppend(w, t, b);
    }
  }

  /** The step of `WordsAppend` past a leading word. */
  lemma WordThenAppend(w: string, t: string, b: string)
    requires w != [] && NoSpace(w) && t != [] && IsSpace(t[0])
    requires Words(t + b) == Words(t) + Words(b)
    ensures Words((w + t) + b) == Words(w + t) + Words(b)
  {
    assert (w + t) + b == w + (t + b);
    WordsOfWordThen(w, t);
    WordsOfWordThen(w, t + b);
    ConsAssoc(w, Words(t), Words(b));
  }

  lemma ConsAssoc<T>(x: T, p: seq<T>, q: seq<T>)
    ensures [x] + (p + q) == ([x] + p) + q
  {
  }

  // ---------------------------------------------------------------------
  // split(sep, 2)

  /** Index of the first `c` in `s`, or `|s|` when there is none. */
  function Find(s: string, c: char): (i: nat)
    ensures i <= |s|
    ensures forall j :: 0 <= j < i ==> s[j] != c
    ensures i < |s| ==> s[i] == c
    decreases |s|
  {
    if s == [] then 0 else if s[0] == c then 0 else 1 + Find(s[1..], c)
  }

  /** `s.split(c, 2)`: cut at the first two occurrences of `c`; the last
      part keeps any further occurrences. Joining the parts with `c` gives
      `s` back, every part but the last is free of `c`, and fewer than three
      parts come back only when `s` holds fewer than two `c`s. */
  function SplitMax2(s: string, c: char): (parts: seq<string>)
    ensures 1 <= |parts| <= 3
    ensures Join(parts, [c]) == s
    ensures forall i :: 0 <= i < |parts| - 1 ==> c !in parts[i]
    ensures |parts| < 3 ==> c !in parts[|parts| - 1]
  {
    var i := Find(s, c);
    if i == |s| then
      CutAt(s, c, i);
      [s]
    else
      var rest := s[i + 1..];
      var j := Find(rest, c);
      CutAt(s, c, i);
      CutAt(rest, c, j);
      if j == |rest| then
        JoinTwo(s[..i], rest, [c]);
        [s[..i], rest]
      else
        JoinThree(s[..i], rest[..j], rest[j + 1..], [c]);
        [s[..i], rest[..j], rest[j + 1..]]
  }

  /** What `Find` tells: no `c` before `i`, and at `i` (when inside `s`)
      the string splits around one `c`. */
  lemma CutAt(s: string, c: char, i: nat)
    requires i == Find(s, c)
    ensures c !in s[..i]
    ensures i == |s| ==> s[..i] == s
    ensures i < |s| ==> s == s[..i] + [c] + s[i + 1..]
  {
    assert forall k :: 0 <= k < i ==> s[..i][k] == s[k];
    if i < |s| {
      assert s[..i + 1] == s[..i] + [c];
      assert s == s[..i + 1] + s[i + 1..];
    }
  }

  lemma JoinTwo(a: string, b: string, sep: string)
    ensures Join([a, b], sep) == a + sep + b
  {
    assert [a, b][1..] == [b];
  }

  lemma JoinThree(a: string, b: string, d: string, sep: string)
    ensures Join([a, b, d], sep) == a + sep + (b + sep + d)
  {
    assert [a, b, d][1..] == [b, d];
    JoinTwo(b, d, sep);
  }


  // ---------------------------------------------------------------------
  // replace(old, new)

  /** `s.replace(pat, rep)`: left-to-right, non-overlapping replacement of
      every occurrence of `pat`. */
  function Replace(s: string, pat: string, rep: string): string
    requires pat != []
    decreases |s|
  {
    if |s| < |pat| then s
    else if s[..|pat|] == pat then rep + Replace(s[|pat|..], pat, rep)
    else [s[0]] + Replace(s[1..], pat, rep)
  }

  /** A prefix that cannot start an occurrence of `pat` passes through
      `Replace` untouched. */
  lemma {:induction false} ReplaceSkips(p: string, s: string, pat: string, rep: string)
    requires pat != []
    requires pat[0] !in p
    ensures Replace(p + s, pat, rep) == p + Replace(s, pat, rep)
    decreases |p|
  {
    if p != [] {
      var t := p + s;
      assert t[0] == p[0];
      if |t| >= |pat| {
        assert t[..|pat|][0] != pat[0];
      }
      assert t[1..] == p[1..] + s;
      ReplaceSkips(p[1..], s, pat, rep);
    } else {
      assert p + s == s;
    }
  }

  /** An occurrence of `pat` at the front is replaced. */
  lemma ReplaceHit(s: string, pat: string, rep: string)
    requires pat != []
    ensures Replace(pat + s, pat, rep) == rep + Replace(s, pat, rep)
  {
    var t := pat + s;
    assert t[..|pat|] == pat;
    assert t[|pat|..] == s;
  }

  /** Replacing a single character distributes over concatenation. */
  lemma {:induction false} ReplaceCharAppend(a: string, b: string, c: char, rep: string)
    ensures Replace(a + b, [c], rep) == Replace(a, [c], rep) + Replace(b, [c], rep)
    decreases |a|
  {
    if a == [] {
      assert a + b == b;
    } else {
      assert (a + b)[..1] == a[..1];
      assert (a + b)[1..] == a[1..] + b;
      ReplaceCharAppend(a[1..], b, c, rep);
    }
  }
}
