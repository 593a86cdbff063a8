/**
 * The breadcrumb trail: the pathname is cut at every `/`, the empty pieces
 * are dropped, and each remaining segment becomes a link to the path made of
 * the segments up to and including it. A separator follows every crumb but
 * the last, and a fixed Home link to `/` always comes first.
 *
 * Strings are `seq<char>`; the router, the link components and the markup are
 * left out, only the strings the trail is made of are modelled.
 */
module Breadcrumb {
  import opened Wrappers

  const Slash: char := '/'
  const DefaultSeparator: string := " / "
  const HomeLabel: string := "Home"
  const HomeHref: string := "/"

  /** One rendered crumb: link text, link target and the separator after it, if any. */
  datatype Crumb = Crumb(text: string, href: string, separator: Option<string>)

  // ---------------------------------------------------------------------------
  // Splitting and joining on `/`

  /** `s.split('/')`: the pieces between slashes; an empty string gives one empty piece. */
  function Split(s: string): (pieces: seq<string>)
    ensures |pieces| >= 1
    ensures forall i :: 0 <= i < |pieces| ==> Slash !in pieces[i]
  {
    if s == [] then [[]]
    else
      var rest := Split(s[1..]);
      if s[0] == Slash then [[]] + rest
      else [[s[0]] + rest[0]] + rest[1..]
  }

  /** `pieces.join('/')`. */
  function Join(pieces: seq<string>): string
  {
    if |pieces| == 0 then []
    else if |pieces| == 1 then pieces[0]
    else pieces[0] + [Slash] + Join(pieces[1..])
  }

  /** Joining one more piece at the end adds a slash and that piece. */
  lemma {:induction false} JoinSnoc(pieces: seq<string>, x: string)
    requires |pieces| >= 1
    ensures Join(pieces + [x]) == Join(pieces) + [Slash] + x
    decreases |pieces|
  {
    var all := pieces + [x];
    assert all[1..] == pieces[1..] + [x];
    if |pieces| > 1 {
      JoinSnoc(pieces[1..], x);
    }
  }

  /** Splitting loses nothing: joining the pieces gives the string back. */
  lemma {:induction false} JoinSplit(s: string)
    ensures Join(Split(s)) == s
    decreases |s|
  {
    if s != [] {
      var c, tail := s[0], s[1..];
      assert s == [c] + tail;
      JoinSplit(tail);
      SplitCons(c, tail);
      if c == Slash {
        JoinCons([], Split(tail));
      } else {
        JoinPrepend(c, Split(tail));
      }
    }
  }

  /** One step of `split('/')`: a slash starts a new piece, any other character extends the first. */
  lemma SplitCons(c: char, tail: string)
    ensures c == Slash ==> Split([c] + tail) == [[]] + Split(tail)
    ensures c != Slash ==> Split([c] + tail) == [[c] + Split(tail)[0]] + Split(tail)[1..]
  {
    assert ([c] + tail)[1..] == tail;
  }

  /** Joining a piece in front of a non-empty list puts one slash between them. */
  lemma JoinCons(x: string, rest: seq<string>)
    requires |rest| >= 1
    ensures Join([x] + rest) == x + [Slash] + Join(rest)
  {
    assert ([x] + rest)[1..] == rest;
  }

  /** Prepending a character to the first piece prepends it to the joined string. */
  lemma JoinPrepend(c: char, pieces: seq<string>)
    requires |pieces| >= 1
    ensures Join([[c] + pieces[0]] + pieces[1..]) == [c] + Join(pieces)
  {
    assert pieces == [pieces[0]] + pieces[1..];
    if |pieces| > 1 {
      var p0, tail := pieces[0], pieces[1..];
      JoinCons(p0, tail);
      JoinCons([c] + p0, tail);
      PrependAcrossSlash(c, p0, Join(tail), Join([p0] + tail), Join([[c] + p0] + tail));
    }
  }

  /** Character-level regrouping, kept apart from `Join` so that it stays cheap to prove. */
  lemma PrependAcrossSlash(c: char, first: string, rest: string, joined: string, extended: string)
    requires joined == first + [Slash] + rest
    requires extended == [c] + first + [Slash] + rest
    ensures extended == [c] + joined
  {
  }

  /** Cutting at a slash splits the two sides independently. */
  lemma {:induction false} SplitAppend(a: string, b: string)
    ensures Split(a + [Slash] + b) == Split(a) + Split(b)
    decreases |a|
  {
    if a == [] {
      assert a + [Slash] + b == [Slash] + b;
      SplitCons(Slash, b);
    } else {
      var c, rest := a[0], a[1..];
      assert a == [c] + rest;
      assert a + [Slash] + b == [c] + (rest + [Slash] + b);
      SplitAppend(rest, b);
      SplitCons(c, rest + [Slash] + b);
      SplitCons(c, rest);
      ExtendFirstPiece(c, Split(rest), Split(b));
    }
  }

  /** Piece-level regrouping, kept apart from `Split` so that it stays cheap to prove. */
  lemma ExtendFirstPiece(c: char, front: seq<string>, back: seq<string>)
    requires |front| >= 1
    ensures [""] + (front + back) == ([""] + front) + back
    ensures [[c] + (front + back)[0]] + (front + back)[1..] == ([[c] + front[0]] + front[1..]) + back
  {
    assert (front + back)[1..] == front[1..] + back;
  }

  // ---------------------------------------------------------------------------
  // Segments

  /** `filter((x) => x)`: drops the empty strings, keeps the others in order. */
  function NonEmpty(pieces: seq<string>): (kept: seq<string>)
    ensures |kept| <= |pieces|
  {
    if pieces == [] then []
    else (if pieces[0] != [] then [pieces[0]] else []) + NonEmpty(pieces[1..])
  }

  /** The kept pieces are exactly the non-empty ones. */
  lemma {:induction false} NonEmptyMembers(pieces: seq<string>)
    ensures forall p :: p in NonEmpty(pieces) <==> p in pieces && p != []
    decreases |pieces|
  {
    if pieces != [] {
      NonEmptyMembers(pieces[1..]);
      assert pieces == [pieces[0]] + pieces[1..];
    }
  }

  /** Filtering distributes over concatenation, so order is kept. */
  lemma {:induction false} NonEmptyAppend(a: seq<string>, b: seq<string>)
    ensures NonEmpty(a + b) == NonEmpty(a) + NonEmpty(b)
    decreases |a|
  {
    if a == [] {
      assert a + b == b;
    } else {
      assert (a + b)[1..] == a[1..] + b;
      NonEmptyAppend(a[1..], b);
    }
  }

  /** The path segments of a pathname. */
  function Segments(pathname: string): (segs: seq<string>)
    ensures forall i :: 0 <= i < |segs| ==> segs[i] != [] && Slash !in segs[i]
  {
    var pieces := Split(pathname);
    NonEmptyMembers(pieces);
    assert forall i :: 0 <= i < |NonEmpty(pieces)| ==> NonEmpty(pieces)[i] in pieces;
    NonEmpty(pieces)
  }

  /** The segments of a pathname are the non-empty pieces between its slashes. */
  lemma SegmentsAreNonEmptyPieces(pathname: string)
    ensures forall p :: p in Segments(pathname) <==> p in Split(pathname) && p != []
    ensures |Segments(pathname)| <= |Split(pathname)|
  {
    NonEmptyMembers(Split(pathname));
  }

  /** The segments of two paths joined by a slash are those of each, in order. */
  lemma SegmentsAppend(a: string, b: string)
    ensures Segments(a + [Slash] + b) == Segments(a) + Segments(b)
  {
    SplitAppend(a, b);
    NonEmptyAppend(Split(a), Split(b));
  }

  /** Normalised paths round-trip: `/` followed by segments joined by `/` splits back into them. */
  lemma {:induction false} SegmentsOfJoin(segs: seq<string>)
    requires forall i :: 0 <= i < |segs| ==> segs[i] != [] && Slash !in segs[i]
    ensures Segments([Slash] + Join(segs)) == segs
    decreases |segs|
  {
    if |segs| == 0 {
      SegmentsOfRoot();
    } else {
      var n := |segs| - 1;
      var init, last := segs[..n], segs[n];
      SegmentsOfSegment(last);
      if n == 0 {
        assert segs == [last];
        SegmentsAppend([], last);
        assert [] + [Slash] + last == [Slash] + last;
      } else {
        assert segs == init + [last];
        SegmentsOfJoin(init);
        JoinSnoc(init, last);
        SegmentsAppend([Slash] + Join(init), last);
        SlashRegroup(Join(init), last, Join(segs));
      }
    }
  }

  /** A non-empty string without a slash is a single segment. */
  lemma SegmentsOfSegment(x: string)
    requires x != [] && Slash !in x
    ensures Segments(x) == [x]
  {
    SplitWithoutSlash(x);
    assert NonEmpty([x]) == [x] + NonEmpty([x][1..]);
  }

  /** Character-level regrouping, kept apart from `Join` so that it stays cheap to prove. */
  lemma SlashRegroup(front: string, last: string, joined: string)
    requires joined == front + [Slash] + last
    ensures [Slash] + joined == [Slash] + front + [Slash] + last
  {
  }

  /** A string without a slash is one piece. */
  lemma {:induction false} SplitWithoutSlash(s: string)
    requires Slash !in s
    ensures Split(s) == [s]
    decreases |s|
  {
    if s != [] {
      SplitWithoutSlash(s[1..]);
      assert s == [s[0]] + s[1..];
    }
  }

  // ---------------------------------------------------------------------------
  // Crumbs

  /** `/` followed by segments 0..i joined with `/`. */
  function Href(segs: seq<string>, i: nat): (href: string)
    requires i < |segs|
    ensures |href| >= 1 && href[0] == Slash
  {
    [Slash] + Join(segs[..i + 1])
  }

  /** The crumbs after the Home link: one per segment, a separator after all but the last. */
  function Crumbs(pathname: string, separator: string): seq<Crumb>
  {
    var segs := Segments(pathname);
    seq(|segs|, i requires 0 <= i < |segs| =>
      Crumb(segs[i], Href(segs, i), if i < |segs| - 1 then Some(separator) else None))
  }

  /** The whole trail: the fixed Home link to `/`, then the crumbs. */
  function Trail(pathname: string, separator: string): (trail: seq<Crumb>)
    ensures |trail| == |Segments(pathname)| + 1
    ensures trail[0] == Crumb(HomeLabel, HomeHref, None)
    ensures forall i :: 1 <= i < |trail| ==> trail[i].text == Segments(pathname)[i - 1]
  {
    [Crumb(HomeLabel, HomeHref, None)] + Crumbs(pathname, separator)
  }

  /** Without an explicit separator, ` / ` follows every crumb but the last. */
  function DefaultTrail(pathname: string): (trail: seq<Crumb>)
    ensures |trail| >= 1 && trail[0].separator == None
    ensures forall i :: 1 <= i < |trail| - 1 ==> trail[i].separator == Some(" / ")
    ensures trail[|trail| - 1].separator == None
  {
    Trail(pathname, DefaultSeparator)
  }

  /**
   * One crumb per segment; crumb i shows segment i, links to `/` plus segments
   * 0..i, and is followed by the separator exactly when it is not the last.
   */
  lemma CrumbsShape(pathname: string, separator: string)
    ensures var segs := Segments(pathname); var cs := Crumbs(pathname, separator);
      |cs| == |segs| &&
      forall i :: 0 <= i < |cs| ==>
        cs[i].text == segs[i] && cs[i].href == [Slash] + Join(segs[..i + 1]) &&
        cs[i].href[0] == Slash &&
        (cs[i].separator == Some(separator) <==> i < |cs| - 1) &&
        (cs[i].separator == None <==> i == |cs| - 1)
  {
  }

  /** The Home link alone: `/` and the empty pathname have no crumbs. */
  lemma RootHasNoCrumbs(separator: string)
    ensures Crumbs([Slash], separator) == [] && Trail([Slash], separator) == [Crumb("Home", "/", None)]
    ensures Crumbs([], separator) == [] && Trail([], separator) == [Crumb("Home", "/", None)]
  {
    SegmentsOfRoot();
  }

  /** `/` and the empty pathname have no segments. */
  lemma SegmentsOfRoot()
    ensures Segments([Slash]) == []
    ensures Segments([]) == []
  {
    assert [Slash][1..] == [];
    assert Split([Slash]) == [[], []];
    assert NonEmpty([[], []]) == NonEmpty([[]]) == NonEmpty([]) == [];
  }

  /** Adding a segment extends the href by a slash and that segment. */
  lemma HrefNext(segs: seq<string>, i: nat)
    requires i + 1 < |segs|
    ensures Href(segs, i + 1) == Href(segs, i) + [Slash] + segs[i + 1]
  {
    assert segs[..i + 2] == segs[..i + 1] + [segs[i + 1]];
    JoinSnoc(segs[..i + 1], segs[i + 1]);
  }

  /** Each crumb's href is a strict prefix of every later crumb's href; so all hrefs differ. */
  lemma {:induction false} HrefPrefix(segs: seq<string>, i: nat, j: nat)
    requires i < j < |segs|
    ensures |Href(segs, i)| < |Href(segs, j)|
    ensures Href(segs, j)[..|Href(segs, i)|] == Href(segs, i)
    decreases j
  {
    HrefNext(segs, j - 1);
    if i < j - 1 {
      HrefPrefix(segs, i, j - 1);
    }
  }

  /** Hrefs of two different crumbs differ (they serve as list keys). */
  lemma CrumbHrefsDistinct(pathname: string, separator: string, i: nat, j: nat)
    requires i < j < |Crumbs(pathname, separator)|
    ensures Crumbs(pathname, separator)[i].href != Crumbs(pathname, separator)[j].href
  {
    HrefPrefix(Segments(pathname), i, j);
  }

  /** The last crumb links to the pathname with its empty segments removed. */
  lemma LastHref(pathname: string, separator: string)
    requires Crumbs(pathname, separator) != []
    ensures var cs := Crumbs(pathname, separator);
      cs[|cs| - 1].href == [Slash] + Join(Segments(pathname))
  {
    var segs := Segments(pathname);
    var cs := Crumbs(pathname, separator);
    var n := |segs| - 1;
    assert cs[n] == Crumb(segs[n], Href(segs, n), None);
    assert segs[..n + 1] == segs;
  }

  /** On a normalised pathname the last crumb links back to the pathname itself. */
  lemma LastHrefOfNormalPath(segs: seq<string>, separator: string)
    requires segs != []
    requires forall i :: 0 <= i < |segs| ==> segs[i] != [] && Slash !in segs[i]
    ensures var cs := Crumbs([Slash] + Join(segs), separator);
      |cs| == |segs| && cs[|cs| - 1].href == [Slash] + Join(segs)
  {
    var path := [Slash] + Join(segs);
    SegmentsOfJoin(segs);
    assert |Crumbs(path, separator)| == |Segments(path)|;
    LastHref(path, separator);
  }

  /** The number of separators rendered. */
  function SeparatorCount(cs: seq<Crumb>): (n: nat)
    ensures n <= |cs|
  {
    if cs == [] then 0 else (if cs[0].separator.Some? then 1 else 0) + SeparatorCount(cs[1..])
  }

  /** n crumbs carry max(n - 1, 0) separators. */
  lemma SeparatorsBetweenCrumbs(pathname: string, separator: string)
    ensures var n := |Crumbs(pathname, separator)|;
      SeparatorCount(Crumbs(pathname, separator)) == if n == 0 then 0 else n - 1
  {
    SeparatorCountAllButLast(Crumbs(pathname, separator));
  }

  lemma {:induction false} SeparatorCountAllButLast(cs: seq<Crumb>)
    requires forall i :: 0 <= i < |cs| ==> (cs[i].separator.Some? <==> i < |cs| - 1)
    ensures SeparatorCount(cs) == if |cs| == 0 then 0 else |cs| - 1
    decreases |cs|
  {
    if cs != [] {
      var rest := cs[1..];
      assert forall i :: 0 <= i < |rest| ==> rest[i] == cs[i + 1];
      SeparatorCountAllButLast(rest);
    }
  }
}
