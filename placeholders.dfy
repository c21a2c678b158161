/** The image stage of the generate route: generated text carries markers
    `{{IMG_SEARCH:<keyword>}}`; every marker that the global, non-greedy
    pattern `/{{IMG_SEARCH:(.*?)}}/g` finds is looked up and replaced by an
    `<img>` tag or by the empty string.

    The route applies the replacements one after the other, each with
    `content.replace(placeholder, replacement)`, which rewrites the first
    occurrence of the marker text in the text as it is at that moment
    (ResolveSequentially). When the replacements are image tags that contain
    no `{` this is the same as replacing every marker where the scan found it
    (SequentialAgreesWithPositional); when a marker is removed, the text on
    both sides of it can join into a copy of a later marker, and the later
    replacement then lands on that copy (SequentialMisplacesImage). The
    route's model keeps the sequential form; ResolvePlaceholders is the
    positional resolver the route evidently intends. */
module Placeholders {
  import opened Common
  import opened Strings

  const Open := "{{IMG_SEARCH:"
  const Close := "}}"

  /** The style attribute of the generated `<img>` tag. */
  const ImgStyle := "border-radius: 8px; " + "margin: 15px 0; " + "width: 100%; " + "max-height: 400px; "
                    + "object-fit: cover; " + "box-shadow: 0 4px " + "6px -1px rgba(0, " + "0, 0, 0.1);"

  /** One match of the pattern: `match[0]` and `match[1]`. */
  datatype Match = Match(placeholder: string, keyword: string)

  /** A match together with the offset where it was found (`match.index`). */
  datatype Hit = Hit(start: nat, m: Match)

  function End(h: Hit): nat
  {
    h.start + |h.m.placeholder|
  }

  /** "}}" occurs at offset j. */
  predicate ClosesAt(s: string, j: nat)
  {
    j + 2 <= |s| && s[j] == '}' && s[j + 1] == '}'
  }

  /** Every offset in [a, c) holds a character that `.` matches and is not the
      start of a "}}": the lazy `(.*?)` may run over [a, c). */
  predicate LazyRun(s: string, a: nat, c: nat)
  {
    a <= c <= |s| && forall k :: a <= k < c ==> !IsLineTerminator(s[k]) && !ClosesAt(s, k)
  }

  /** A keyword the pattern can capture: with the closing "}}" behind it, the
      lazy run covers all of it. */
  predicate ValidKeyword(kw: string)
  {
    LazyRun(kw + Close, 0, |kw|)
  }

  predicate WellFormed(m: Match)
  {
    m.placeholder == Open + m.keyword + Close && ValidKeyword(m.keyword)
  }

  predicate IsMarkerAt(s: string, p: nat, m: Match)
  {
    WellFormed(m) && StartsAt(s, m.placeholder, p)
  }

  /** The pattern's opening "{{IMG_SEARCH:" stands at offset p. */
  lemma OpensAt(s: string, p: nat)
    requires p <= |s|
    ensures MatchesFrom(s, p, Open, 0) <==> StartsAt(s, Open, p)
  {
    MatchesAt(s, p, Open);
  }

  /** `(.*?)}}` tried at offset j: the shortest run of characters other than
      line terminators that is followed by "}}". */
  function KeywordFrom(s: string, j: nat): (r: Option<string>)
    requires j <= |s|
    decreases |s| - j
    ensures r.Some? ==> j + |r.value| + |Close| <= |s|
  {
    if ClosesAt(s, j) then Some("")
    else if j < |s| && !IsLineTerminator(s[j]) then
      match KeywordFrom(s, j + 1)
      case Some(rest) => Some([s[j]] + rest)
      case None => None
    else None
  }

  /** The keyword found from j is the text at j, the lazy run covers it and
      "}}" follows it. */
  lemma {:induction false} KeywordFromSound(s: string, j: nat)
    requires j <= |s|
    ensures KeywordFrom(s, j).Some? ==>
              var kw := KeywordFrom(s, j).value;
              && LazyRun(s, j, j + |kw|) && ClosesAt(s, j + |kw|) && s[j..j + |kw|] == kw
    decreases |s| - j
  {
    if !ClosesAt(s, j) && j < |s| && !IsLineTerminator(s[j]) {
      KeywordFromSound(s, j + 1);
      if KeywordFrom(s, j + 1).Some? {
        var rest := KeywordFrom(s, j + 1).value;
        assert s[j..j + 1 + |rest|] == [s[j]] + s[j + 1..j + 1 + |rest|];
      }
    }
  }

  /** The whole pattern tried at offset p. */
  function MatchAt(s: string, p: nat): (r: Option<Match>)
    requires p <= |s|
    ensures r.Some? ==> |Open| <= |r.value.placeholder| && p + |r.value.placeholder| <= |s|
  {
    if MatchesFrom(s, p, Open, 0) then
      match KeywordFrom(s, p + |Open|)
      case Some(kw) => Some(Match(Open + kw + Close, kw))
      case None => None
    else None
  }

  /** A match found at p is a well-formed marker standing at p. */
  lemma MatchAtSound(s: string, p: nat)
    requires p <= |s|
    ensures MatchAt(s, p).Some? ==> IsMarkerAt(s, p, MatchAt(s, p).value)
  {
    if MatchAt(s, p).Some? {
      var kw := MatchAt(s, p).value.keyword;
      OpensAt(s, p);
      KeywordFromSound(s, p + |Open|);
      MarkerFromParts(s, p, kw);
    }
  }

  /** The opening, a keyword the lazy run covers and the closing, one after
      the other, make a well-formed marker. */
  lemma MarkerFromParts(s: string, p: nat, kw: string)
    requires StartsAt(s, Open, p)
    requires var q := p + |Open|;
      && LazyRun(s, q, q + |kw|) && ClosesAt(s, q + |kw|) && s[q..q + |kw|] == kw
    ensures IsMarkerAt(s, p, Match(Open + kw + Close, kw))
  {
    var q := p + |Open|;
    var e := q + |kw| + |Close|;
    assert s[p..e] == s[p..q] + s[q..q + |kw|] + s[q + |kw|..e];
    var t := kw + Close;
    forall k | 0 <= k < |t| ensures t[k] == s[q + k] {
    }
    assert LazyRun(t, 0, |kw|);
  }

  /** `[...s.matchAll(regex)]` from offset p on: after a match the scan goes on
      behind it, after a failure at the next offset. */
  function ScanFrom(s: string, p: nat): seq<Hit>
    requires p <= |s|
    decreases |s| - p
  {
    if p == |s| then []
    else
      match MatchAt(s, p)
      case Some(m) => [Hit(p, m)] + ScanFrom(s, p + |m.placeholder|)
      case None => ScanFrom(s, p + 1)
  }

  function MatchAll(s: string): seq<Hit>
  {
    ScanFrom(s, 0)
  }

  /** Every hit is a well-formed marker of s at or after offset p. */
  predicate HitsFrom(s: string, p: nat, hits: seq<Hit>)
  {
    forall i :: 0 <= i < |hits| ==> p <= hits[i].start && IsMarkerAt(s, hits[i].start, hits[i].m)
  }

  /** Each hit ends at or before the start of every later one. */
  predicate Disjoint(hits: seq<Hit>)
  {
    forall i, j :: 0 <= i < j < |hits| ==> End(hits[i]) <= hits[j].start
  }

  /** Every hit of the scan is a well-formed marker at an offset at or after
      the start, and the hits come in order without overlapping. */
  lemma {:induction false} ScanFromSound(s: string, p: nat)
    requires p <= |s|
    ensures HitsFrom(s, p, ScanFrom(s, p))
    ensures Disjoint(ScanFrom(s, p))
    decreases |s| - p, 1
  {
    if p < |s| {
      if MatchAt(s, p).Some? {
        ScanFromSoundMatch(s, p);
      } else {
        ScanFromSoundSkip(s, p);
      }
    }
  }

  /** ScanFromSound when a match starts at p. */
  lemma {:induction false} ScanFromSoundMatch(s: string, p: nat)
    requires p < |s| && MatchAt(s, p).Some?
    ensures HitsFrom(s, p, ScanFrom(s, p))
    ensures Disjoint(ScanFrom(s, p))
    decreases |s| - p, 0
  {
    var m := MatchAt(s, p).value;
    MatchAtSound(s, p);
    ScanFromSound(s, p + |m.placeholder|);
    HitsCons(s, Hit(p, m), ScanFrom(s, p + |m.placeholder|));
  }

  /** ScanFromSound when no match starts at p. */
  lemma {:induction false} ScanFromSoundSkip(s: string, p: nat)
    requires p < |s| && MatchAt(s, p).None?
    ensures HitsFrom(s, p, ScanFrom(s, p))
    ensures Disjoint(ScanFrom(s, p))
    decreases |s| - p, 0
  {
    ScanFromSound(s, p + 1);
    HitsLater(s, p, ScanFrom(s, p + 1));
  }

  /** No match of the pattern starts at an offset in [from, to). */
  predicate NoMatchIn(s: string, from: nat, to: nat)
  {
    forall q :: from <= q < to && q <= |s| ==> MatchAt(s, q).None?
  }

  /** The scan skips no match. When it finds nothing, no match starts anywhere
      from p on. Otherwise its first hit is the match at the first offset
      where one starts, and the other hits are the scan from the end of that
      match on. */
  lemma {:induction false} ScanFromComplete(s: string, p: nat)
    requires p <= |s|
    ensures ScanFrom(s, p) == [] ==> NoMatchIn(s, p, |s| + 1)
    ensures ScanFrom(s, p) != [] ==> FirstHit(s, p, ScanFrom(s, p))
    decreases |s| - p, 1
  {
    if p == |s| {
      assert !MatchesFrom(s, p, Open, 0);
    } else if MatchAt(s, p).None? {
      ScanFromCompleteSkip(s, p);
    } else {
      ScanFromCompleteMatch(s, p);
    }
  }

  /** The first of the hits is the match at the first offset from p where one
      starts, and the other hits are the scan from the end of that match on. */
  predicate FirstHit(s: string, p: nat, hits: seq<Hit>)
  {
    && hits != []
    && p <= hits[0].start < |s|
    && MatchAt(s, hits[0].start) == Some(hits[0].m)
    && NoMatchIn(s, p, hits[0].start)
    && hits[0].start + |hits[0].m.placeholder| <= |s|
    && hits[1..] == ScanFrom(s, hits[0].start + |hits[0].m.placeholder|)
  }

  /** ScanFromComplete when no match starts at p. */
  lemma {:induction false} ScanFromCompleteSkip(s: string, p: nat)
    requires p < |s| && MatchAt(s, p).None?
    ensures ScanFrom(s, p) == [] ==> NoMatchIn(s, p, |s| + 1)
    ensures ScanFrom(s, p) != [] ==> FirstHit(s, p, ScanFrom(s, p))
    decreases |s| - p, 0
  {
    assert ScanFrom(s, p) == ScanFrom(s, p + 1);
    ScanFromComplete(s, p + 1);
  }

  /** ScanFromComplete when a match starts at p. */
  lemma ScanFromCompleteMatch(s: string, p: nat)
    requires p < |s| && MatchAt(s, p).Some?
    ensures FirstHit(s, p, ScanFrom(s, p))
  {
    var m := MatchAt(s, p).value;
    var rest := ScanFrom(s, p + |m.placeholder|);
    assert ScanFrom(s, p) == [Hit(p, m)] + rest;
    assert ([Hit(p, m)] + rest)[1..] == rest;
  }

  lemma HitsCons(s: string, h: Hit, rest: seq<Hit>)
    requires IsMarkerAt(s, h.start, h.m) && HitsFrom(s, End(h), rest) && Disjoint(rest)
    ensures HitsFrom(s, h.start, [h] + rest) && Disjoint([h] + rest)
  {
    var hits := [h] + rest;
    forall i | 0 < i < |hits| ensures hits[i] == rest[i - 1] {
    }
  }

  lemma HitsLater(s: string, p: nat, hits: seq<Hit>)
    requires HitsFrom(s, p + 1, hits)
    ensures HitsFrom(s, p, hits)
  {
  }

  /** One step of the scan and of the positional resolution. */
  lemma ScanStep(s: string, p: nat, rep: string -> string)
    requires p < |s|
    ensures MatchAt(s, p).None? ==>
              && ScanFrom(s, p) == ScanFrom(s, p + 1)
              && Resolved(s, p, rep) == [s[p]] + Resolved(s, p + 1, rep)
    ensures MatchAt(s, p).Some? ==>
              var m := MatchAt(s, p).value;
              && ScanFrom(s, p) == [Hit(p, m)] + ScanFrom(s, p + |m.placeholder|)
              && Resolved(s, p, rep) == rep(m.keyword) + Resolved(s, p + |m.placeholder|, rep)
  {
  }

  // ---------------------------------------------------------------------------
  // Facts about the scanner
  // ---------------------------------------------------------------------------

  /** If the lazy run can cover [j, c) and "}}" follows, the keyword found from
      j is exactly s[j..c]. */
  lemma {:induction false} KeywordFromComplete(s: string, j: nat, c: nat)
    requires LazyRun(s, j, c) && ClosesAt(s, c)
    ensures KeywordFrom(s, j) == Some(s[j..c])
    decreases c - j
  {
    if j < c {
      KeywordFromComplete(s, j + 1, c);
      assert [s[j]] + s[j + 1..c] == s[j..c];
    }
  }

  /** The marker text of a well-formed match, wherever it occurs, is a lazy run
      closed by "}}". */
  lemma MarkerLazy(s: string, p: nat, m: Match)
    requires IsMarkerAt(s, p, m)
    ensures LazyRun(s, p, p + |Open| + |m.keyword|) && ClosesAt(s, p + |Open| + |m.keyword|)
  {
    var kw := m.keyword;
    var t := kw + Close;
    var q := p + |Open|;
    assert s[p..p + |m.placeholder|] == m.placeholder;
    forall k | p <= k < q ensures s[k] == Open[k - p] {
      assert s[k] == m.placeholder[k - p];
    }
    forall k | 0 <= k < |t| ensures s[q + k] == t[k] {
      assert s[q + k] == m.placeholder[|Open| + k];
    }
    forall k | p <= k < q + |kw| ensures !IsLineTerminator(s[k]) && !ClosesAt(s, k) {
      if k >= q {
        assert t[k - q] == s[k] && t[k - q + 1] == s[k + 1];
      }
    }
  }

  /** The scan recognises every well-formed marker text wherever it occurs. */
  lemma MatchAtComplete(s: string, p: nat, m: Match)
    requires IsMarkerAt(s, p, m)
    ensures MatchAt(s, p) == Some(m)
  {
    var q := p + |Open|;
    StartsAtParts(s, p, Open, m.keyword, Close);
    OpensAt(s, p);
    assert MatchesFrom(s, p, Open, 0);
    MarkerLazy(s, p, m);
    KeywordFromComplete(s, q, q + |m.keyword|);
    assert KeywordFrom(s, q) == Some(m.keyword);
  }

  /** What the scan finds at an offset depends only on the text from there on. */
  lemma {:induction false} KeywordFromShift(a: string, i: nat, b: string, j: nat)
    requires i <= |a| && j <= |b| && a[i..] == b[j..]
    ensures KeywordFrom(a, i) == KeywordFrom(b, j)
    decreases |a| - i
  {
    assert |a| - i == |b| - j;
    if i + 2 <= |a| {
      assert a[i] == a[i..][0] && a[i + 1] == a[i..][1];
      assert b[j] == b[j..][0] && b[j + 1] == b[j..][1];
    }
    if i < |a| {
      assert a[i] == a[i..][0] && b[j] == b[j..][0];
      assert a[i + 1..] == a[i..][1..];
      assert b[j + 1..] == b[j..][1..];
      KeywordFromShift(a, i + 1, b, j + 1);
    }
  }

  lemma MatchAtShift(a: string, i: nat, b: string, j: nat)
    requires i <= |a| && j <= |b| && a[i..] == b[j..]
    ensures MatchAt(a, i) == MatchAt(b, j)
  {
    assert |a| - i == |b| - j;
    OpensAt(a, i);
    OpensAt(b, j);
    if i + |Open| <= |a| {
      assert a[i..i + |Open|] == a[i..][..|Open|];
      assert b[j..j + |Open|] == b[j..][..|Open|];
      assert a[i + |Open|..] == a[i..][|Open|..];
      assert b[j + |Open|..] == b[j..][|Open|..];
      KeywordFromShift(a, i + |Open|, b, j + |Open|);
    }
  }

  /** A match begins with '{'. */
  lemma MatchStartsWithBrace(s: string, p: nat)
    requires p <= |s| && MatchAt(s, p).Some?
    ensures p < |s| && s[p] == '{'
  {
    assert Open[0] == '{';
  }

  /** Text without any occurrence of the opening "{{IMG_SEARCH:" has no match. */
  lemma {:induction false} NoOpenNoHits(s: string, p: nat)
    requires p <= |s|
    requires forall q: nat :: !StartsAt(s, Open, q)
    ensures ScanFrom(s, p) == []
    decreases |s| - p
  {
    if p < |s| {
      OpensAt(s, p);
      NoOpenNoHits(s, p + 1);
    }
  }


  // ---------------------------------------------------------------------------
  // Replacements
  // ---------------------------------------------------------------------------

  function ImgTag(url: string, keyword: string): string
  {
    "<img src=\"" + url + "\" alt=\"" + keyword + "\" style=\"" + ImgStyle + "\" />"
  }

  /** `imageUrl ? <img …> : ''`: an `<img>` tag whose `src` is the URL and whose
      `alt` is the keyword when the lookup found a non-empty URL, and the empty
      string otherwise. */
  function Replacement(keyword: string, found: Option<string>): (r: string)
    ensures r == "" <==> found.None? || found.value == ""
    ensures found.Some? && found.value != "" ==> r == ImgTag(found.value, keyword)
  {
    match found
    case Some(url) => if url != "" then ImgTag(url, keyword) else ""
    case None => ""
  }

  /** What the route puts in place of the marker of a keyword: the image
      search for that keyword, turned into a replacement. */
  function ImageReplacement(lookup: ImageLookup): string -> string
  {
    keyword => Replacement(keyword, lookup(keyword))
  }

  /** One element of `results`: a marker and what replaces it. */
  datatype Substitution = Substitution(placeholder: string, replacement: string)

  /** `Promise.all(matches.map(...))`: one substitution per match, in match
      order, each computed from the match's own keyword. */
  function Substitutions(hits: seq<Hit>, rep: string -> string): (subs: seq<Substitution>)
    ensures |subs| == |hits|
  {
    if hits == [] then []
    else [Substitution(hits[0].m.placeholder, rep(hits[0].m.keyword))] + Substitutions(hits[1..], rep)
  }

  /** Substitution i pairs the marker of match i with the replacement computed
      from that match's own keyword. */
  lemma {:induction false} SubstitutionsSpec(hits: seq<Hit>, rep: string -> string)
    ensures forall i :: 0 <= i < |hits| ==>
              Substitutions(hits, rep)[i] == Substitution(hits[i].m.placeholder, rep(hits[i].m.keyword))
    decreases |hits|
  {
    if hits != [] {
      SubstitutionsSpec(hits[1..], rep);
    }
  }

  /** `results.forEach(... content = content.replace(placeholder, replacement))`. */
  function ReplaceInOrder(s: string, subs: seq<Substitution>): string
    decreases |subs|
  {
    if subs == [] then s
    else ReplaceInOrder(Replace(s, subs[0].placeholder, subs[0].replacement), subs[1..])
  }

  /** The image stage as the route writes it. */
  method ResolveSequentially(content: string, lookup: ImageLookup) returns (r: string)
    ensures r == ReplaceInOrder(content, Substitutions(MatchAll(content), ImageReplacement(lookup)))
    ensures MatchAll(content) == [] ==> r == content
  {
    var matches := MatchAll(content);
    r := content;
    if |matches| > 0 {
      var results := Substitutions(matches, ImageReplacement(lookup));
      for i := 0 to |results|
        invariant ReplaceInOrder(r, results[i..]) == ReplaceInOrder(content, results)
      {
        assert results[i..][1..] == results[i + 1..];
        r := Replace(r, results[i].placeholder, results[i].replacement);
      }
    }
  }

  /** Every marker the scan finds, replaced where the scan found it; all other
      text kept, in order. */
  function Resolved(s: string, p: nat, rep: string -> string): string
    requires p <= |s|
    decreases |s| - p
  {
    if p == |s| then ""
    else
      match MatchAt(s, p)
      case Some(m) => rep(m.keyword) + Resolved(s, p + |m.placeholder|, rep)
      case None => [s[p]] + Resolved(s, p + 1, rep)
  }

  lemma AppendAssoc(a: string, b: string, c: string, d: string)
    ensures a + (b + c + d) == (a + b) + c + d
  {
  }

  /** Between the scan position and the next match the text is copied; the
      match is replaced; the scan goes on behind it. */
  lemma {:induction false} ResolvedUpToHit(s: string, p: nat, rep: string -> string)
    requires p <= |s| && ScanFrom(s, p) != []
    ensures var h := ScanFrom(s, p)[0];
      && p <= h.start && End(h) <= |s| && IsMarkerAt(s, h.start, h.m)
      && ScanFrom(s, End(h)) == ScanFrom(s, p)[1..]
      && Resolved(s, p, rep) == s[p..h.start] + rep(h.m.keyword) + Resolved(s, End(h), rep)
    decreases |s| - p
  {
    assert p < |s|;
    ScanStep(s, p, rep);
    if MatchAt(s, p).None? {
      ResolvedUpToHit(s, p + 1, rep);
      var h := ScanFrom(s, p)[0];
      var x, y := rep(h.m.keyword), Resolved(s, End(h), rep);
      assert Resolved(s, p, rep) == [s[p]] + (s[p + 1..h.start] + x + y);
      AppendAssoc([s[p]], s[p + 1..h.start], x, y);
      ConsSlice(s, p, h.start);
    } else {
      var m := MatchAt(s, p).value;
      MatchAtSound(s, p);
      EmptySliceJoin(s, p, rep(m.keyword), Resolved(s, p + |m.placeholder|, rep));
    }
  }

  lemma ConsSlice(s: string, p: nat, q: nat)
    requires p < q <= |s|
    ensures [s[p]] + s[p + 1..q] == s[p..q]
  {
  }

  lemma EmptySliceJoin(s: string, p: nat, x: string, y: string)
    requires p <= |s|
    ensures s[p..p] + x + y == x + y
  {
    assert s[p..p] == "";
  }

  lemma {:induction false} ResolvedNoHit(s: string, p: nat, rep: string -> string)
    requires p <= |s| && ScanFrom(s, p) == []
    ensures Resolved(s, p, rep) == s[p..]
    decreases |s| - p
  {
    if p < |s| {
      ScanStep(s, p, rep);
      ResolvedNoHit(s, p + 1, rep);
      assert [s[p]] + s[p + 1..] == s[p..];
    }
  }

  /** The image stage with every marker replaced at the offset where the scan
      found it. Text without a match comes back unchanged. */
  method ResolvePlaceholders(content: string, lookup: ImageLookup) returns (r: string)
    ensures r == Resolved(content, 0, ImageReplacement(lookup))
    ensures MatchAll(content) == [] ==> r == content
  {
    var rep := ImageReplacement(lookup);
    var matches := MatchAll(content);
    r := "";
    var pos: nat := 0;
    var i := 0;
    while i < |matches|
      invariant 0 <= i <= |matches| && pos <= |content|
      invariant ScanFrom(content, pos) == matches[i..]
      invariant r + Resolved(content, pos, rep) == Resolved(content, 0, rep)
    {
      ResolvedUpToHit(content, pos, rep);
      var h := matches[i];
      AppendAssoc(r, content[pos..h.start], rep(h.m.keyword), Resolved(content, End(h), rep));
      r := r + content[pos..h.start] + rep(h.m.keyword);
      pos := End(h);
      assert matches[i..][1..] == matches[i + 1..];
      i := i + 1;
    }
    ResolvedNoHit(content, pos, rep);
    r := r + content[pos..];
    if matches == [] {
      ResolvedNoHit(content, 0, rep);
    }
  }

  // ---------------------------------------------------------------------------
  // When the sequential replacement agrees with the positional one
  // ---------------------------------------------------------------------------

  /** No match of the pattern starts before offset n. */
  predicate NoMatchBefore(t: string, n: nat)
    requires n <= |t|
  {
    forall q :: 0 <= q < n ==> MatchAt(t, q).None?
  }

  predicate NoBrace(r: string)
  {
    forall i :: 0 <= i < |r| ==> r[i] != '{'
  }

  lemma NoBraceAppend(a: string, b: string)
    requires NoBrace(a) && NoBrace(b)
    ensures NoBrace(a + b)
  {
    forall i | 0 <= i < |a + b| ensures (a + b)[i] != '{' {
      if i >= |a| {
        assert (a + b)[i] == b[i - |a|];
      }
    }
  }

  /** A replacement that cannot take part in a marker: it begins with '<' and
      contains no '{'. */
  predicate InertReplacement(r: string)
  {
    r != [] && r[0] == '<' && NoBrace(r)
  }

  /** The lookup found an image, and neither its URL nor the keyword holds a '{'. */
  predicate InertLookup(lookup: ImageLookup, keyword: string)
  {
    && lookup(keyword).Some? && lookup(keyword).value != ""
    && NoBrace(lookup(keyword).value) && NoBrace(keyword)
  }

  lemma ImgStyleNoBrace()
    ensures NoBrace(ImgStyle)
  {
    var p1, p2, p3, p4 := "border-radius: 8px; ", "margin: 15px 0; ", "width: 100%; ", "max-height: 400px; ";
    var p5, p6, p7, p8 := "object-fit: cover; ", "box-shadow: 0 4px ", "6px -1px rgba(0, ", "0, 0, 0.1);";
    assert NoBrace(p1) && NoBrace(p2) && NoBrace(p3) && NoBrace(p4);
    assert NoBrace(p5) && NoBrace(p6) && NoBrace(p7) && NoBrace(p8);
    NoBraceAppend(p1, p2);
    NoBraceAppend(p1 + p2, p3);
    NoBraceAppend(p1 + p2 + p3, p4);
    NoBraceAppend(p1 + p2 + p3 + p4, p5);
    NoBraceAppend(p1 + p2 + p3 + p4 + p5, p6);
    NoBraceAppend(p1 + p2 + p3 + p4 + p5 + p6, p7);
    NoBraceAppend(p1 + p2 + p3 + p4 + p5 + p6 + p7, p8);
  }

  /** An image tag built from a URL and a keyword without '{' is inert. */
  lemma ImgTagInert(lookup: ImageLookup, keyword: string)
    requires InertLookup(lookup, keyword)
    ensures InertReplacement(ImageReplacement(lookup)(keyword))
  {
    var url := lookup(keyword).value;
    var a, b, c, d := "<img src=\"", "\" alt=\"", "\" style=\"", "\" />";
    assert NoBrace(a) && NoBrace(b) && NoBrace(c) && NoBrace(d);
    ImgStyleNoBrace();
    NoBraceAppend(a, url);
    NoBraceAppend(a + url, b);
    NoBraceAppend(a + url + b, keyword);
    NoBraceAppend(a + url + b + keyword, c);
    NoBraceAppend(a + url + b + keyword + c, ImgStyle);
    NoBraceAppend(a + url + b + keyword + c + ImgStyle, d);
    assert ImgTag(url, keyword) == a + url + b + keyword + c + ImgStyle + d;
  }

  /** If the lazy run from x fails in t before a marker that stands at n, it
      fails the same way in any t' that agrees with t below n and holds a '<'
      at n. */
  lemma {:induction false} KeywordFromTransfer(t: string, t': string, x: nat, n: nat, m: Match)
    requires x <= n < |t'| && IsMarkerAt(t, n, m)
    requires t[..n] == t'[..n] && t'[n] == '<'
    ensures KeywordFrom(t, x).None? ==> KeywordFrom(t', x).None?
    decreases n - x
  {
    MarkerLazy(t, n, m);
    KeywordFromComplete(t, n, n + |Open| + |m.keyword|);
    if x < n {
      assert t[x] == t[..n][x] == t'[..n][x] == t'[x];
      if x + 1 < n {
        assert t[x + 1] == t[..n][x + 1] == t'[..n][x + 1] == t'[x + 1];
      }
      KeywordFromTransfer(t, t', x + 1, n, m);
    }
  }

  /** Replacing a marker by an inert text creates no match before it. */
  lemma MatchAtTransfer(t: string, t': string, q: nat, n: nat, m: Match)
    requires q < n < |t'| && IsMarkerAt(t, n, m)
    requires t[..n] == t'[..n] && t'[n] == '<'
    ensures MatchAt(t, q).None? ==> MatchAt(t', q).None?
  {
    OpensAt(t, q);
    OpensAt(t', q);
    if StartsAt(t', Open, q) {
      forall k | q <= k < q + |Open| ensures t'[k] != '<' {
        assert t'[k] == t'[q..q + |Open|][k - q];
      }
      assert q + |Open| <= n;
      assert t[q..q + |Open|] == t'[q..q + |Open|] by {
        assert t[q..q + |Open|] == t[..n][q..q + |Open|];
        assert t'[q..q + |Open|] == t'[..n][q..q + |Open|];
      }
      KeywordFromTransfer(t, t', q + |Open|, n, m);
    }
  }

  /** When no match starts before a marker, the first occurrence of the
      marker text is that marker. */
  lemma ReplaceFirstMarker(prefix: string, m: Match, rest: string, r: string)
    requires WellFormed(m) && NoMatchBefore(prefix + m.placeholder + rest, |prefix|)
    ensures Replace(prefix + m.placeholder + rest, m.placeholder, r) == prefix + r + rest
  {
    var t := prefix + m.placeholder + rest;
    var n := |prefix|;
    assert StartsAt(t, m.placeholder, n) by {
      assert t[n..n + |m.placeholder|] == m.placeholder;
    }
    forall j | 0 <= j < n ensures !StartsAt(t, m.placeholder, j) {
      if StartsAt(t, m.placeholder, j) {
        MatchAtComplete(t, j, m);
      }
    }
    ReplaceFirst(t, m.placeholder, r, n);
    assert t[..n] == prefix;
    assert t[n + |m.placeholder|..] == rest;
  }

  /** Replacing that marker by an inert text leaves no match before the end
      of the replacement. */
  lemma NoMatchAfterReplace(prefix: string, m: Match, rest: string, r: string)
    requires WellFormed(m) && NoMatchBefore(prefix + m.placeholder + rest, |prefix|)
    requires InertReplacement(r)
    ensures NoMatchBefore(prefix + r + rest, |prefix| + |r|)
  {
    var t := prefix + m.placeholder + rest;
    var t' := prefix + r + rest;
    var n := |prefix|;
    assert IsMarkerAt(t, n, m) by {
      assert t[n..n + |m.placeholder|] == m.placeholder;
    }
    assert t'[..n] == prefix == t[..n];
    assert t'[n] == r[0];
    forall q | 0 <= q < n + |r| ensures MatchAt(t', q).None? {
      if q < n {
        MatchAtTransfer(t, t', q, n, m);
      } else {
        assert t'[q] == r[q - n];
        if MatchAt(t', q).Some? {
          MatchStartsWithBrace(t', q);
        }
      }
    }
  }

  lemma AppendAssoc3(a: string, b: string, c: string)
    ensures (a + b) + c == a + (b + c)
  {
  }

  lemma SubstitutionsCons(h: Hit, hits: seq<Hit>, rep: string -> string)
    ensures Substitutions([h] + hits, rep) == [Substitution(h.m.placeholder, rep(h.m.keyword))] + Substitutions(hits, rep)
  {
    assert ([h] + hits)[1..] == hits;
  }

  lemma ReplaceInOrderCons(t: string, sub: Substitution, subs: seq<Substitution>)
    ensures ReplaceInOrder(t, [sub] + subs) == ReplaceInOrder(Replace(t, sub.placeholder, sub.replacement), subs)
  {
    assert ([sub] + subs)[1..] == subs;
  }

  /** A character where no match starts moves from the input to the
      processed text. */
  lemma SequentialSkip(s: string, e: nat, prefix: string)
    requires e < |s| && MatchAt(s, e).None? && NoMatchBefore(prefix + s[e..], |prefix|)
    ensures prefix + s[e..] == (prefix + [s[e]]) + s[e + 1..]
    ensures NoMatchBefore((prefix + [s[e]]) + s[e + 1..], |prefix| + 1)
  {
    var t := prefix + s[e..];
    assert t == (prefix + [s[e]]) + s[e + 1..];
    assert t[|prefix|..] == s[e..];
    MatchAtShift(t, |prefix|, s, e);
  }

  /** A match at e: its marker text first occurs right after the processed
      text, and its inert replacement extends the processed text. */
  lemma SequentialReplace(s: string, e: nat, prefix: string, m: Match, r: string)
    requires e <= |s| && MatchAt(s, e) == Some(m) && NoMatchBefore(prefix + s[e..], |prefix|)
    requires InertReplacement(r)
    ensures e + |m.placeholder| <= |s|
    ensures Replace(prefix + s[e..], m.placeholder, r) == (prefix + r) + s[e + |m.placeholder|..]
    ensures NoMatchBefore((prefix + r) + s[e + |m.placeholder|..], |prefix + r|)
  {
    MatchAtSound(s, e);
    var rest := s[e + |m.placeholder|..];
    assert prefix + s[e..] == prefix + m.placeholder + rest by {
      assert s[e..] == s[e..e + |m.placeholder|] + rest;
    }
    ReplaceFirstMarker(prefix, m, rest, r);
    NoMatchAfterReplace(prefix, m, rest, r);
  }

  /** The step of SequentialFrom at a match, over the pieces: the first
      substitution turns t into `after`, the others finish the job. */
  lemma SequentialMatchStep(t: string, subs: seq<Substitution>, sub: Substitution, tail: seq<Substitution>,
                            after: string, prefix: string, r: string, rest: string, here: string)
    requires subs == [sub] + tail
    requires Replace(t, sub.placeholder, sub.replacement) == after
    requires ReplaceInOrder(after, tail) == (prefix + r) + rest
    requires here == r + rest
    ensures ReplaceInOrder(t, subs) == prefix + here
  {
    ReplaceInOrderCons(t, sub, tail);
    AppendAssoc3(prefix, r, rest);
  }

  /** The step of SequentialFrom where no match starts. */
  lemma SequentialSkipStep(s: string, e: nat, prefix: string, rep: string -> string)
    requires e < |s| && MatchAt(s, e).None?
    requires prefix + s[e..] == (prefix + [s[e]]) + s[e + 1..]
    requires ReplaceInOrder((prefix + [s[e]]) + s[e + 1..], Substitutions(ScanFrom(s, e + 1), rep))
          == (prefix + [s[e]]) + Resolved(s, e + 1, rep)
    ensures ReplaceInOrder(prefix + s[e..], Substitutions(ScanFrom(s, e), rep)) == prefix + Resolved(s, e, rep)
  {
    ScanStep(s, e, rep);
    AppendAssoc3(prefix, [s[e]], Resolved(s, e + 1, rep));
  }

  /** Every hit's replacement is inert. */
  predicate AllInert(hits: seq<Hit>, rep: string -> string)
  {
    forall h :: h in hits ==> InertReplacement(rep(h.m.keyword))
  }

  lemma AllInertCons(h: Hit, hits: seq<Hit>, rep: string -> string)
    requires AllInert([h] + hits, rep)
    ensures InertReplacement(rep(h.m.keyword)) && AllInert(hits, rep)
  {
    assert h in [h] + hits;
    forall g | g in hits ensures InertReplacement(rep(g.m.keyword)) {
      assert g in [h] + hits;
    }
  }

  /** The induction behind SequentialAgreesWithPositional: the text already
      processed (`prefix`) holds no match, the rest is the input from offset e. */
  lemma {:induction false} SequentialFrom(s: string, e: nat, prefix: string, rep: string -> string)
    requires e <= |s|
    requires NoMatchBefore(prefix + s[e..], |prefix|)
    requires AllInert(ScanFrom(s, e), rep)
    ensures ReplaceInOrder(prefix + s[e..], Substitutions(ScanFrom(s, e), rep)) == prefix + Resolved(s, e, rep)
    decreases |s| - e, 1
  {
    if e == |s| {
      assert prefix + s[e..] == prefix;
    } else if MatchAt(s, e).None? {
      SequentialFromSkip(s, e, prefix, rep);
    } else {
      SequentialFromMatch(s, e, prefix, rep, MatchAt(s, e).value);
    }
  }

  /** SequentialFrom where no match starts at e. */
  lemma {:induction false} SequentialFromSkip(s: string, e: nat, prefix: string, rep: string -> string)
    requires e < |s| && MatchAt(s, e).None?
    requires NoMatchBefore(prefix + s[e..], |prefix|)
    requires AllInert(ScanFrom(s, e), rep)
    ensures ReplaceInOrder(prefix + s[e..], Substitutions(ScanFrom(s, e), rep)) == prefix + Resolved(s, e, rep)
    decreases |s| - e, 0
  {
    ScanStep(s, e, rep);
    SequentialSkip(s, e, prefix);
    SequentialFrom(s, e + 1, prefix + [s[e]], rep);
    SequentialSkipStep(s, e, prefix, rep);
  }

  /** SequentialFrom where the match m starts at e. */
  lemma {:induction false} SequentialFromMatch(s: string, e: nat, prefix: string, rep: string -> string, m: Match)
    requires e < |s| && MatchAt(s, e) == Some(m)
    requires NoMatchBefore(prefix + s[e..], |prefix|)
    requires AllInert(ScanFrom(s, e), rep)
    ensures ReplaceInOrder(prefix + s[e..], Substitutions(ScanFrom(s, e), rep)) == prefix + Resolved(s, e, rep)
    decreases |s| - e, 0
  {
    var r := rep(m.keyword);
    MatchStepReady(s, e, prefix, rep, m);
    SequentialFrom(s, e + |m.placeholder|, prefix + r, rep);
    SubstitutionsCons(Hit(e, m), ScanFrom(s, e + |m.placeholder|), rep);
    SequentialMatchStep(prefix + s[e..], Substitutions(ScanFrom(s, e), rep), Substitution(m.placeholder, r),
                        Substitutions(ScanFrom(s, e + |m.placeholder|), rep), (prefix + r) + s[e + |m.placeholder|..],
                        prefix, r, Resolved(s, e + |m.placeholder|, rep), Resolved(s, e, rep));
  }

  /** What SequentialFromMatch needs about the match at e before it recurses
      behind it. */
  lemma MatchStepReady(s: string, e: nat, prefix: string, rep: string -> string, m: Match)
    requires e < |s| && MatchAt(s, e) == Some(m)
    requires NoMatchBefore(prefix + s[e..], |prefix|)
    requires AllInert(ScanFrom(s, e), rep)
    ensures e < e + |m.placeholder| <= |s|
    ensures NoMatchBefore((prefix + rep(m.keyword)) + s[e + |m.placeholder|..], |prefix + rep(m.keyword)|)
    ensures AllInert(ScanFrom(s, e + |m.placeholder|), rep)
    ensures ScanFrom(s, e) == [Hit(e, m)] + ScanFrom(s, e + |m.placeholder|)
    ensures Resolved(s, e, rep) == rep(m.keyword) + Resolved(s, e + |m.placeholder|, rep)
    ensures Replace(prefix + s[e..], m.placeholder, rep(m.keyword)) == (prefix + rep(m.keyword)) + s[e + |m.placeholder|..]
  {
    ScanStep(s, e, rep);
    AllInertCons(Hit(e, m), ScanFrom(s, e + |m.placeholder|), rep);
    SequentialReplace(s, e, prefix, m, rep(m.keyword));
  }

  /** When every lookup finds an image and no URL or keyword contains a '{',
      replacing the first remaining occurrence of each marker, in match order,
      gives exactly the text with every marker replaced where it was found. */
  lemma SequentialAgreesWithPositional(s: string, lookup: ImageLookup)
    requires forall h :: h in MatchAll(s) ==> InertLookup(lookup, h.m.keyword)
    ensures ReplaceInOrder(s, Substitutions(MatchAll(s), ImageReplacement(lookup)))
         == Resolved(s, 0, ImageReplacement(lookup))
  {
    var rep := ImageReplacement(lookup);
    forall h | h in ScanFrom(s, 0) ensures InertReplacement(rep(h.m.keyword)) {
      ImgTagInert(lookup, h.m.keyword);
    }
    assert "" + s[0..] == s;
    SequentialFrom(s, 0, "", rep);
  }

  /** Both resolutions leave text without an opening marker unchanged. */
  lemma NoMarkerUnchanged(s: string, rep: string -> string)
    requires !Includes(s, Open)
    ensures ReplaceInOrder(s, Substitutions(MatchAll(s), rep)) == s
    ensures Resolved(s, 0, rep) == s
  {
    IncludesIff(s, Open);
    NoOpenNoHits(s, 0);
    ResolvedNoHit(s, 0, rep);
  }

  // ---------------------------------------------------------------------------
  // A text on which the sequential replacement misplaces an image
  // ---------------------------------------------------------------------------

  lemma {:induction false} SkipWithoutBrace(s: string, p: nat, q: nat, rep: string -> string)
    requires p <= q <= |s|
    requires forall k :: p <= k < q ==> s[k] != '{'
    ensures ScanFrom(s, p) == ScanFrom(s, q)
    ensures Resolved(s, p, rep) == s[p..q] + Resolved(s, q, rep)
    decreases q - p
  {
    if p < q {
      NoMatchWithoutBrace(s, p);
      ScanStep(s, p, rep);
      SkipWithoutBrace(s, p + 1, q, rep);
      AppendAssoc3([s[p]], s[p + 1..q], Resolved(s, q, rep));
      ConsSlice(s, p, q);
    }
  }

  lemma NoMatchWithoutBrace(s: string, p: nat)
    requires p < |s| && s[p] != '{'
    ensures MatchAt(s, p).None?
  {
    if MatchAt(s, p).Some? {
      MatchStartsWithBrace(s, p);
    }
  }

  /** The text of SequentialMisplacesImage:
      "{{" + "{{IMG_SEARCH:x}}" + "IMG_SEARCH:}} " + "{{IMG_SEARCH:}}". */
  function MisplacingText(): string
  {
    Lead() + FirstMarker().placeholder + Gap() + SecondMarker().placeholder
  }

  /** The pieces of that text: the two braces that open it, its two markers
      and the gap between them, which starts with the tag name. Joining the
      braces and the gap gives a copy of the second marker and a space. */
  function Lead(): string { Open[..2] }
  function FirstMarker(): Match { Match(Open + "x" + Close, "x") }
  function Gap(): string { Open[2..] + Close + " " }
  function SecondMarker(): Match { Match(Open + "" + Close, "") }

  lemma Concat4(a: string, b: string, c: string, d: string)
    ensures var s := a + b + c + d;
      && s[..|a|] == a && s[|a|..|a| + |b|] == b
      && s[|a| + |b|..|a| + |b| + |c|] == c && s[|a| + |b| + |c|..] == d
      && s[|a| + |b|..] == c + d
  {
  }

  lemma MisplacingTextPieces()
    ensures var s := MisplacingText();
      && |Open| == 13 && |s| == 47
      && s[..2] == Lead() && s[2..18] == FirstMarker().placeholder
      && s[18..32] == Gap() && s[32..] == SecondMarker().placeholder && s[18..] == Gap() + SecondMarker().placeholder
  {
    Concat4(Lead(), FirstMarker().placeholder, Gap(), SecondMarker().placeholder);
  }

  /** The braces joined with the gap. */
  lemma LeadAndGap()
    ensures Lead() + Gap() == SecondMarker().placeholder + " "
  {
    assert Open[..2] + Open[2..] == Open;
  }

  /** No match starts at offsets 0 and 1: the characters at offsets 2 and 3
      are '{' where the opening needs 'I'. */
  lemma MisplacingTextNoMatchAtStart()
    ensures MatchAt(MisplacingText(), 0).None? && MatchAt(MisplacingText(), 1).None?
  {
    var s := MisplacingText();
    MisplacingTextPieces();
    assert s[2] == s[2..18][0] == '{';
    assert s[3] == s[2..18][1] == '{';
    assert Open[0] == '{' && Open[1] == '{' && Open[2] == 'I';
    assert !MatchesFrom(s, 2, Open, 2) && !MatchesFrom(s, 3, Open, 2);
    assert !MatchesFrom(s, 1, Open, 1) && !MatchesFrom(s, 2, Open, 1);
    assert !MatchesFrom(s, 0, Open, 0) && !MatchesFrom(s, 1, Open, 0);
  }

  lemma MisplacingTextMarkers()
    ensures MatchAt(MisplacingText(), 2) == Some(FirstMarker())
    ensures MatchAt(MisplacingText(), 32) == Some(SecondMarker())
  {
    MisplacingTextFirstMarker();
    MisplacingTextSecondMarker();
  }

  lemma MisplacingTextFirstMarker()
    ensures MatchAt(MisplacingText(), 2) == Some(FirstMarker())
  {
    MisplacingTextPieces();
    assert ValidKeyword("x") by { assert "x" + Close == "x}}"; }
    MatchAtComplete(MisplacingText(), 2, FirstMarker());
  }

  lemma MisplacingTextSecondMarker()
    ensures MatchAt(MisplacingText(), 32) == Some(SecondMarker())
  {
    MisplacingTextPieces();
    assert ValidKeyword("") by { assert "" + Close == "}}"; }
    MatchAtComplete(MisplacingText(), 32, SecondMarker());
  }

  lemma MisplacingTextGap()
    ensures forall k :: 18 <= k < 32 ==> MisplacingText()[k] != '{'
  {
    var s := MisplacingText();
    MisplacingTextPieces();
    assert NoBrace(Open[2..]) by {
      forall k | 0 <= k < |Open[2..]| ensures Open[2..][k] != '{' {
        assert Open[2..][k] == Open[k + 2];
      }
    }
    assert NoBrace(Close) && NoBrace(" ");
    NoBraceAppend(Open[2..], Close);
    NoBraceAppend(Open[2..] + Close, " ");
    forall k | 18 <= k < 32 ensures s[k] != '{' {
      assert s[k] == s[18..32][k - 18];
    }
  }

  /** The scan from offset 18 of a 47-character text with no '{' from 18 to
      32 and a 15-character marker at 32. */
  lemma ScanGapAndMarker(s: string, me: Match, rep: string -> string)
    requires |s| == 47 && forall k :: 18 <= k < 32 ==> s[k] != '{'
    requires MatchAt(s, 32) == Some(me) && |me.placeholder| == 15
    ensures ScanFrom(s, 18) == [Hit(32, me)] && Resolved(s, 18, rep) == s[18..32] + rep(me.keyword)
  {
    ScanStep(s, 32, rep);
    assert ScanFrom(s, 47) == [] && Resolved(s, 47, rep) == "";
    SkipWithoutBrace(s, 18, 32, rep);
  }

  /** The same text with a 16-character marker at offset 2, scanned from 2. */
  lemma ScanMarkerGapMarker(s: string, mx: Match, me: Match, rep: string -> string)
    requires |s| == 47 && forall k :: 18 <= k < 32 ==> s[k] != '{'
    requires MatchAt(s, 2) == Some(mx) && |mx.placeholder| == 16
    requires MatchAt(s, 32) == Some(me) && |me.placeholder| == 15
    ensures ScanFrom(s, 2) == [Hit(2, mx), Hit(32, me)]
    ensures Resolved(s, 2, rep) == rep(mx.keyword) + s[18..32] + rep(me.keyword)
  {
    ScanGapAndMarker(s, me, rep);
    ScanStep(s, 2, rep);
  }

  /** The same text with no match at offsets 0 and 1, scanned from the start. */
  lemma ScanTwoMarkers(s: string, mx: Match, me: Match, rep: string -> string)
    requires |s| == 47 && MatchAt(s, 0).None? && MatchAt(s, 1).None?
    requires MatchAt(s, 2) == Some(mx) && |mx.placeholder| == 16
    requires forall k :: 18 <= k < 32 ==> s[k] != '{'
    requires MatchAt(s, 32) == Some(me) && |me.placeholder| == 15
    ensures ScanFrom(s, 0) == [Hit(2, mx), Hit(32, me)]
    ensures Resolved(s, 0, rep) == s[..2] + rep(mx.keyword) + s[18..32] + rep(me.keyword)
  {
    ScanMarkerGapMarker(s, mx, me, rep);
    ScanTwoMisses(s, rep);
  }

  /** Two offsets without a match are copied. */
  lemma ScanTwoMisses(s: string, rep: string -> string)
    requires 2 <= |s| && MatchAt(s, 0).None? && MatchAt(s, 1).None?
    ensures ScanFrom(s, 0) == ScanFrom(s, 2) && Resolved(s, 0, rep) == s[..2] + Resolved(s, 2, rep)
  {
    ScanStep(s, 1, rep);
    ScanStep(s, 0, rep);
    TakeTwo(s);
    AppendAssoc3([s[0]], [s[1]], Resolved(s, 2, rep));
  }

  lemma TakeTwo(s: string)
    requires 2 <= |s|
    ensures s[..2] == [s[0]] + [s[1]]
  {
  }

  /** The scan of that text, and its positional resolution for any
      replacement. */
  lemma MisplacingTextScan(rep: string -> string)
    ensures MatchAll(MisplacingText()) == [Hit(2, FirstMarker()), Hit(32, SecondMarker())]
    ensures Resolved(MisplacingText(), 0, rep) == Lead() + rep("x") + Gap() + rep("")
  {
    MisplacingTextPieces();
    MisplacingTextNoMatchAtStart();
    MisplacingTextMarkers();
    MisplacingTextGap();
    ScanTwoMarkers(MisplacingText(), FirstMarker(), SecondMarker(), rep);
  }

  /** Removing the first marker of that text leaves a copy of the second
      marker in front of it. */
  lemma MisplacingTextFirstReplace()
    ensures var d := SecondMarker().placeholder;
      Replace(MisplacingText(), FirstMarker().placeholder, "") == d + " " + d
  {
    var s := MisplacingText();
    var b := FirstMarker().placeholder;
    MisplacingTextPieces();
    assert s[2] == s[2..18][0] == '{';
    assert s[3] == s[2..18][1] == '{';
    assert b[2] == 'I';
    assert !StartsAt(s, b, 0) by { assert s[0..16][2] == s[2]; }
    assert !StartsAt(s, b, 1) by { assert s[1..17][2] == s[3]; }
    ReplaceFirst(s, b, "", 2);
    LeadAndGap();
    JoinAroundEmpty(Lead(), Gap(), SecondMarker().placeholder);
    AppendAssoc3(Lead() + "", Gap(), SecondMarker().placeholder);
  }

  /** The second replacement lands on the copy. */
  lemma MisplacingTextSecondReplace(img: string)
    ensures var d := SecondMarker().placeholder;
      Replace(d + " " + d, d, img) == img + " " + d
  {
    var d := SecondMarker().placeholder;
    var s1 := d + " " + d;
    assert StartsAt(s1, d, 0) by { assert s1[0..|d|] == d; }
    ReplaceFirst(s1, d, img, 0);
    assert s1[..0] == "" && s1[|d|..] == " " + d;
  }

  /** The text "{{" + "{{IMG_SEARCH:x}}" + "IMG_SEARCH:}} " + "{{IMG_SEARCH:}}",
      with a lookup that finds nothing for "x" and an image for the empty
      keyword. Removing the first marker joins "{{" and "IMG_SEARCH:}}" into a
      copy of the second marker, so the route puts the image at the front and
      leaves the real second marker in its output; the positional resolver
      removes the first marker and puts the image where the second one was. */
  lemma SequentialMisplacesImage(lookup: ImageLookup, url: string)
    requires lookup("x") == None && lookup("") == Some(url) && url != ""
    ensures var s := MisplacingText();
            var marker := SecondMarker().placeholder;
            && ReplaceInOrder(s, Substitutions(MatchAll(s), ImageReplacement(lookup))) == ImgTag(url, "") + " " + marker
            && Resolved(s, 0, ImageReplacement(lookup)) == marker + " " + ImgTag(url, "")
  {
    var rep := ImageReplacement(lookup);
    var b, d := FirstMarker().placeholder, SecondMarker().placeholder;
    var s := MisplacingText();
    var img := ImgTag(url, "");
    assert rep("x") == "" && rep("") == img;
    MisplacingTextScan(rep);
    MisplacingTextFirstReplace();
    MisplacingTextSecondReplace(img);
    var subs := Substitutions(MatchAll(s), rep);
    assert subs == [Substitution(b, "")] + [Substitution(d, img)];
    ReplaceInOrderCons(s, Substitution(b, ""), [Substitution(d, img)]);
    ReplaceInOrderCons(d + " " + d, Substitution(d, img), []);
    LeadAndGap();
    JoinAroundEmpty(Lead(), Gap(), img);
  }

  lemma JoinAroundEmpty(a: string, b: string, c: string)
    ensures a + "" + b + c == (a + b) + c
  {
  }
}
