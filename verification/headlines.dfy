/** The text handling of the KBS headline scraper, 0925/crawling_KBS.py:
    the whitespace normaliser `_clean_text`, the de-duplicating `add_item`
    accumulator over the (title, link) pairs the selectors find, and the
    last-token choice made for each title selector. Fetching and HTML
    selection are not modelled: the pairs come in as a sequence, each link
    already resolved against the site's base URL. */
module Headlines {
  import opened Options
  import opened Text

  // ---------------------------------------------------------------------
  // _clean_text

  /** `' '.join((text or '').split()).strip()`: the words of the text
      joined by single spaces. No whitespace at either end, none other than
      single ' ' separators, the same words as the input, and empty exactly
      when the input is `None` or all whitespace. */
  function CleanText(text: Option<string>): (r: string)
    ensures Trimmed(r)
    ensures SingleSpaced(r)
    ensures Words(r) == Words(text.GetOr(""))
    ensures r == [] <==> AllSpace(text.GetOr(""))
  {
    var s := text.GetOr("");
    CleanFacts(s);
    Strip(Join(Words(s), " "))
  }

  lemma CleanFacts(s: string)
    ensures var j := Join(Words(s), " ");
            && Strip(j) == j && Trimmed(j) && SingleSpaced(j)
            && Words(j) == Words(s)
            && (j == [] <==> AllSpace(s))
  {
    var ws := Words(s);
    var j := Join(ws, " ");
    JoinShape(ws);
    WordsOfJoin(ws);
    NoWordsIffAllSpace(s);
    NoWordsIffAllSpace(j);
  }

  /** A text has no words exactly when it is all whitespace. */
  lemma {:induction false} NoWordsIffAllSpace(s: string)
    ensures Words(s) == [] <==> AllSpace(s)
    decreases |s|
  {
    if s != [] {
      NoWordsIffAllSpace(s[1..]);
      if IsSpace(s[0]) {
        assert AllSpace(s) <==> AllSpace(s[1..]) by {
          assert forall i :: 1 <= i < |s| ==> s[i] == s[1..][i - 1];
        }
      }
    }
  }

  /** Cleaning a cleaned text changes nothing. */
  lemma CleanTextIdempotent(text: Option<string>)
    ensures CleanText(Some(CleanText(text))) == CleanText(text)
  {
    var s := text.GetOr("");
    var r := CleanText(text);
    assert r == Strip(Join(Words(s), " "));
    assert Words(r) == Words(s);
    assert CleanText(Some(r)) == Strip(Join(Words(r), " "));
  }

  // ---------------------------------------------------------------------
  // add_item

  datatype Headline = Headline(title: string, url: string)

  /** `results` and `seen_titles`. */
  datatype Acc = Acc(results: seq<Headline>, seen: set<string>)

  const EmptyAcc := Acc([], {})

  /** The titles in `results` are pairwise distinct and are exactly the
      set `seen_titles`. */
  ghost predicate Inv(acc: Acc) {
    && (forall i, j :: 0 <= i < j < |acc.results| ==> acc.results[i].title != acc.results[j].title)
    && (forall t :: t in acc.seen <==> exists i :: 0 <= i < |acc.results| && acc.results[i].title == t)
  }

  /** A cleaned candidate `add_item` keeps unless its title is seen. */
  predicate Takes(h: Headline) {
    h.title != [] && h.url != []
  }

  /** The body of `add_item` once the title is cleaned: an empty title or
      URL, or a title already seen, leaves everything as it was; otherwise
      the pair is appended and its title marked seen. */
  function Offer(acc: Acc, h: Headline): (acc': Acc)
    ensures !Takes(h) || h.title in acc.seen ==> acc' == acc
    ensures Takes(h) && h.title !in acc.seen ==>
              acc'.results == acc.results + [h] && acc'.seen == acc.seen + {h.title}
    ensures Inv(acc) ==> Inv(acc')
  {
    if h.title == [] || h.url == [] then acc
    else if h.title in acc.seen then acc
    else
      OfferKeepsInv(acc, h);
      Acc(acc.results + [h], acc.seen + {h.title})
  }

  lemma OfferKeepsInv(acc: Acc, h: Headline)
    requires h.title !in acc.seen
    ensures Inv(acc) ==> Inv(Acc(acc.results + [h], acc.seen + {h.title}))
  {
    var rs := acc.results + [h];
    if Inv(acc) {
      assert forall i :: 0 <= i < |acc.results| ==> rs[i] == acc.results[i];
      assert rs[|acc.results|] == h;
      forall t
        ensures t in acc.seen + {h.title} <==> exists i :: 0 <= i < |rs| && rs[i].title == t
      {
        if exists i :: 0 <= i < |rs| && rs[i].title == t {
          var i :| 0 <= i < |rs| && rs[i].title == t;
          if i < |acc.results| {
            assert acc.results[i].title == t;
          }
        }
      }
    }
  }

  /** `hs[k]` is the first candidate kept for its title. */
  predicate FirstWith(hs: seq<Headline>, k: int)
    requires 0 <= k < |hs|
  {
    Takes(hs[k]) && forall j :: 0 <= j < k ==> !(Takes(hs[j]) && hs[j].title == hs[k].title)
  }

  /** Offering candidates in order. Earlier results stay as they were;
      every kept title ends up seen; and each new result is the first kept
      candidate with its title, one not seen before. */
  function OfferAll(acc: Acc, hs: seq<Headline>): (acc': Acc)
    ensures |acc.results| <= |acc'.results| && acc'.results[..|acc.results|] == acc.results
    ensures acc.seen <= acc'.seen
    ensures forall k :: 0 <= k < |hs| && Takes(hs[k]) ==> hs[k].title in acc'.seen
    ensures forall i :: |acc.results| <= i < |acc'.results| ==>
              && acc'.results[i].title !in acc.seen
              && exists k :: 0 <= k < |hs| && FirstWith(hs, k) && acc'.results[i] == hs[k]
    ensures Inv(acc) ==> Inv(acc')
    decreases |hs|
  {
    if hs == [] then acc
    else
      var next := Offer(acc, hs[0]);
      var r := OfferAll(next, hs[1..]);
      OfferAllStep(acc, hs, next, r);
      r
  }

  lemma OfferAllStep(acc: Acc, hs: seq<Headline>, next: Acc, r: Acc)
    requires hs != [] && next == Offer(acc, hs[0])
    requires |next.results| <= |r.results| && r.results[..|next.results|] == next.results
    requires next.seen <= r.seen
    requires forall k :: 0 <= k < |hs[1..]| && Takes(hs[1..][k]) ==> hs[1..][k].title in r.seen
    requires forall i :: |next.results| <= i < |r.results| ==>
               && r.results[i].title !in next.seen
               && exists k :: 0 <= k < |hs[1..]| && FirstWith(hs[1..], k) && r.results[i] == hs[1..][k]
    ensures |acc.results| <= |r.results| && r.results[..|acc.results|] == acc.results
    ensures acc.seen <= r.seen
    ensures forall k :: 0 <= k < |hs| && Takes(hs[k]) ==> hs[k].title in r.seen
    ensures forall i :: |acc.results| <= i < |r.results| ==>
              && r.results[i].title !in acc.seen
              && exists k :: 0 <= k < |hs| && FirstWith(hs, k) && r.results[i] == hs[k]
  {
    forall k | 0 <= k < |hs| && Takes(hs[k])
      ensures hs[k].title in r.seen
    {
      if k > 0 {
        assert hs[1..][k - 1] == hs[k];
      }
    }
    forall i | |acc.results| <= i < |r.results|
      ensures r.results[i].title !in acc.seen
      ensures exists k :: 0 <= k < |hs| && FirstWith(hs, k) && r.results[i] == hs[k]
    {
      if i < |next.results| {
        assert next != acc;
        assert i == |acc.results| && r.results[i] == next.results[i];
        assert FirstWith(hs, 0) && r.results[i] == hs[0];
      } else {
        assert |next.results| <= i < |r.results|;
        assert exists k :: 0 <= k < |hs[1..]| && FirstWith(hs[1..], k) && r.results[i] == hs[1..][k];
        var k :| 0 <= k < |hs[1..]| && FirstWith(hs[1..], k) && r.results[i] == hs[1..][k];
        assert hs[1..][k] == hs[k + 1];
        forall j | 0 <= j < k + 1
          ensures !(Takes(hs[j]) && hs[j].title == hs[k + 1].title)
        {
          if j > 0 {
            assert hs[1..][j - 1] == hs[j];
          } else if Takes(hs[0]) {
            assert hs[0].title in next.seen;
          }
        }
        assert FirstWith(hs, k + 1);
      }
    }
  }

  /** One (title text, link) pair the selectors produced; `url` stands for
      `urljoin(BASE_URL, href or '')`. */
  datatype Found = Found(titleText: string, url: string)

  function Candidate(f: Found): Headline {
    Headline(CleanText(Some(f.titleText)), f.url)
  }

  /** `add_item(title_text, href)`: the cleaned title and the URL offered
      to the accumulator; a title that cleans to nothing is never kept. */
  function AddItem(acc: Acc, f: Found): (acc': Acc)
    ensures AllSpace(f.titleText) || f.url == [] ==> acc' == acc
    ensures !AllSpace(f.titleText) && f.url != [] && CleanText(Some(f.titleText)) !in acc.seen ==>
              && acc'.results == acc.results + [Headline(CleanText(Some(f.titleText)), f.url)]
              && acc'.seen == acc.seen + {CleanText(Some(f.titleText))}
    ensures CleanText(Some(f.titleText)) in acc.seen ==> acc' == acc
    ensures Inv(acc) ==> Inv(acc')
  {
    Offer(acc, Candidate(f))
  }

  function Candidates(found: seq<Found>): (hs: seq<Headline>)
    ensures |hs| == |found|
  {
    if found == [] then [] else [Candidate(found[0])] + Candidates(found[1..])
  }

  /** The `add_item` calls of `get_kbs_headlines` over the pairs in the
      order the selectors produce them. */
  function AddAll(acc: Acc, found: seq<Found>): Acc
    decreases |found|
  {
    if found == [] then acc else AddAll(AddItem(acc, found[0]), found[1..])
  }

  /** Calling `add_item` pair by pair is offering the cleaned candidates
      in the same order. */
  lemma {:induction false} AddAllOffers(acc: Acc, found: seq<Found>)
    ensures AddAll(acc, found) == OfferAll(acc, Candidates(found))
    decreases |found|
  {
    if found != [] {
      AddAllOffers(AddItem(acc, found[0]), found[1..]);
      assert Candidates(found)[1..] == Candidates(found[1..]);
    }
  }

  /** What a run from nothing leaves: the titles kept are distinct and are
      exactly the seen set, each kept headline is the first candidate with
      its title, and every candidate with a title and a URL has its title
      among them. */
  ghost predicate CollectedFrom(acc: Acc, hs: seq<Headline>) {
    && Inv(acc)
    && (forall i :: 0 <= i < |acc.results| ==> exists k :: 0 <= k < |hs| && FirstWith(hs, k) && acc.results[i] == hs[k])
    && (forall k :: 0 <= k < |hs| && Takes(hs[k]) ==>
          exists i :: 0 <= i < |acc.results| && acc.results[i].title == hs[k].title)
  }

  /** Offering candidates from nothing keeps every title whose candidate
      has a title and a URL, once, at its first such candidate. */
  lemma OfferAllFromEmpty(hs: seq<Headline>)
    ensures CollectedFrom(OfferAll(EmptyAcc, hs), hs)
  {
    var acc := OfferAll(EmptyAcc, hs);
    forall k | 0 <= k < |hs| && Takes(hs[k])
      ensures exists i :: 0 <= i < |acc.results| && acc.results[i].title == hs[k].title
    {
      assert hs[k].title in acc.seen;
    }
  }

  /** Run over all pairs from nothing, the result is collected, in the
      sense above, from the candidates the pairs give. */
  lemma CollectAllHeadlines(found: seq<Found>)
    ensures CollectedFrom(AddAll(EmptyAcc, found), Candidates(found))
  {
    AddAllOffers(EmptyAcc, found);
    OfferAllFromEmpty(Candidates(found));
  }

  // ---------------------------------------------------------------------
  // last_token

  /** Length of the longest whitespace-free suffix of `s`. */
  function TailWordLen(s: string): (k: nat)
    ensures k <= |s| && NoSpace(s[|s| - k..])
    ensures k == |s| || IsSpace(s[|s| - k - 1])
    decreases |s|
  {
    if s == [] || IsSpace(s[|s| - 1]) then 0
    else
      var k := 1 + TailWordLen(s[..|s| - 1]);
      assert s[|s| - k..] == s[..|s| - 1][|s| - k..] + [s[|s| - 1]];
      k
  }

  /** `title_sel.split()[-1]`, found from the right: skip trailing
      whitespace and take the run of non-whitespace before it. `None`
      where Python raises `IndexError` (a selector with no token); in every
      case it is the last word of the selector. */
  function LastToken(selector: string): (r: Option<string>)
    ensures r.None? <==> Words(selector) == []
    ensures r.Some? ==> r.value == Words(selector)[|Words(selector)| - 1]
  {
    var t := RStrip(selector);
    LastTokenIsLastWord(selector);
    if t == [] then None else Some(t[|t| - TailWordLen(t)..])
  }

  lemma LastTokenIsLastWord(s: string)
    ensures var t := RStrip(s);
            && (t == [] <==> Words(s) == [])
            && (t != [] ==> Words(s) == Words(t[..|t| - TailWordLen(t)]) + [t[|t| - TailWordLen(t)..]])
  {
    var t := RStrip(s);
    var sp := s[|t|..];
    assert s == t + sp;
    if t == [] {
      assert s == sp;
      NoWordsIffAllSpace(s);
    } else {
      var k := TailWordLen(t);
      var p := t[..|t| - k];
      var w := t[|t| - k..];
      assert t == p + w;
      assert p == [] || IsSpace(p[|p| - 1]);
      LastWordSplit(p, w, sp);
      assert s == p + w + sp;
    }
  }

  /** A last word `w`, with whitespace or nothing before it and only
      whitespace after it, is the last of the words. */
  lemma LastWordSplit(p: string, w: string, sp: string)
    requires p == [] || IsSpace(p[|p| - 1])
    requires w != [] && NoSpace(w) && AllSpace(sp)
    ensures Words(p + w + sp) == Words(p) + [w]
  {
    var tail := w + sp;
    assert p + w + sp == p + tail;
    assert Words(sp) == [] by {
      WordsSkipSpace(sp, []);
      assert sp + [] == sp;
    }
    assert Words(tail) == [w] by {
      WordsOfWordThen(w, sp);
    }
    WordsAppend(p, tail);
  }
}
