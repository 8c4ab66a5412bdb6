/**
 * The HTML discovery page: one `<li>` per route, the method right-justified
 * to six columns as Go's `%6s` does it, and the link target written twice
 * (href and link text) as the group's prefix followed by the route's path.
 * Nothing is escaped.
 */
module Render {
  import opened Routes

  /** Everything the page writes before the first group. */
  const Header := "<html><head><title>STRATUS REST API</title><style>*{white-space: pre;font-family:monospace;list-style-type: none;}</style></head><body><ul>"

  /** Everything the page writes after the last group. */
  const Footer := "</ul></body></html>"

  /** The field width of the method column (`%6s`). */
  const MethodWidth := 6

  // ---------------------------------------------------------------------
  // The method column

  /**
   * `%<width>s` on a string: spaces are prepended until the field is `width`
   * characters wide; a longer string is written whole, never truncated.
   */
  function PadLeft(s: string, width: nat): (r: string)
    ensures |r| == if |s| < width then width else |s|
    ensures r[|r| - |s|..] == s
    ensures forall i :: 0 <= i < |r| - |s| ==> r[i] == ' '
  {
    if width <= |s| then s else Spaces(width - |s|) + s
  }

  /** `n` spaces. */
  function Spaces(n: nat): (r: string)
    ensures |r| == n
    ensures forall i :: 0 <= i < n ==> r[i] == ' '
  {
    if n == 0 then "" else Spaces(n - 1) + " "
  }

  /** Every character of a padded field is a space or a character of the value. */
  lemma PadLeftChars(s: string, width: nat, i: nat)
    requires i < |PadLeft(s, width)|
    ensures PadLeft(s, width)[i] == ' ' || PadLeft(s, width)[i] in s
  {
    var r := PadLeft(s, width);
    if i >= |r| - |s| {
      assert r[i] == r[|r| - |s|..][i - (|r| - |s|)];
    }
  }

  /**
   * A method name that the padding cannot blur with another: non-empty, not
   * starting with a space, and free of `<` (which opens the link).
   */
  predicate PlainVerb(v: string)
  {
    |v| > 0 && v[0] != ' ' && '<' !in v
  }

  /** Padding loses nothing: distinct plain method names stay distinct. */
  lemma PadLeftInjective(a: string, b: string, width: nat)
    requires PlainVerb(a) && PlainVerb(b)
    requires PadLeft(a, width) == PadLeft(b, width)
    ensures a == b
  {
    var r := PadLeft(a, width);
    // The first character that is not padding starts the value.
    assert |a| == |b|;
    assert a == r[|r| - |a|..] == b;
  }

  // ---------------------------------------------------------------------
  // Route lines

  /** The link of a route line: `%s%s` of the group name and the route path. */
  function Link(name: string, r: Route): (link: string)
    ensures |link| == |name| + |r.path|
    ensures link[|name|..] == r.path
  {
    name + r.path
  }

  /** Everything of a route line after its method column. */
  function Anchor(link: string): (anchor: string)
  {
    " <a href=\"" + link + "\">" + link + "</a></li>"
  }

  /** Where the link sits in an anchor. */
  lemma AnchorLayout(link: string)
    ensures |Anchor(link)| == 10 + 2 * |link| + 11
    ensures Anchor(link)[0] == ' ' && Anchor(link)[1] == '<'
    ensures Anchor(link)[10..10 + |link|] == link
  {
    var open := " <a href=\"";
    assert |open| == 10;
    assert Anchor(link) == open + (link + "\">" + link + "</a></li>");
  }

  /** The line `Group.toString` writes for route `r` of the group named `name`. */
  function RouteLine(name: string, r: Route): (line: string)
  {
    "<li>" + PadLeft(r.verb, MethodWidth) + Anchor(Link(name, r))
  }

  /** Where the parts of a route line sit. */
  lemma RouteLineLayout(name: string, r: Route)
    ensures var pad := PadLeft(r.verb, MethodWidth);
            var line := RouteLine(name, r);
            && |line| == 4 + |pad| + |Anchor(Link(name, r))|
            && line[4..4 + |pad|] == pad
            && line[4 + |pad|..] == Anchor(Link(name, r))
  {
  }

  /**
   * Within one group a route line names its route: two routes with plain
   * method names that render to the same line are the same route.
   */
  lemma RouteLineInjective(name: string, r1: Route, r2: Route)
    requires PlainVerb(r1.verb) && PlainVerb(r2.verb)
    requires RouteLine(name, r1) == RouteLine(name, r2)
    ensures r1 == r2
  {
    ColumnsAgree(name, r1, r2);
    PadLeftInjective(r1.verb, r2.verb, MethodWidth);
    LinksAgree(name, r1, r2);
  }

  /** Equal lines with plain method names have equal method columns. */
  lemma ColumnsAgree(name: string, r1: Route, r2: Route)
    requires PlainVerb(r1.verb) && PlainVerb(r2.verb)
    requires RouteLine(name, r1) == RouteLine(name, r2)
    ensures PadLeft(r1.verb, MethodWidth) == PadLeft(r2.verb, MethodWidth)
  {
    var line := RouteLine(name, r1);
    var p1, p2 := PadLeft(r1.verb, MethodWidth), PadLeft(r2.verb, MethodWidth);
    RouteLineLayout(name, r1);
    RouteLineLayout(name, r2);
    // The first `<` after "<li>" opens the link, so both method columns are equally wide.
    if |p1| < |p2| {
      OpeningAfterColumn(name, r1);
      NoOpeningInColumn(name, r2, |p1| + 1);
    } else if |p2| < |p1| {
      OpeningAfterColumn(name, r2);
      NoOpeningInColumn(name, r1, |p2| + 1);
    }
    assert p1 == line[4..4 + |p1|] == p2;
  }

  /** Equal lines with equal method columns link to the same path. */
  lemma LinksAgree(name: string, r1: Route, r2: Route)
    requires RouteLine(name, r1) == RouteLine(name, r2)
    requires PadLeft(r1.verb, MethodWidth) == PadLeft(r2.verb, MethodWidth)
    ensures r1.path == r2.path
  {
    var line := RouteLine(name, r1);
    var pad := PadLeft(r1.verb, MethodWidth);
    RouteLineLayout(name, r1);
    RouteLineLayout(name, r2);
    var l1, l2 := Link(name, r1), Link(name, r2);
    assert Anchor(l1) == line[4 + |pad|..] == Anchor(l2);
    AnchorLayout(l1);
    AnchorLayout(l2);
    assert l1 == Anchor(l1)[10..10 + |l1|] == l2;
  }

  /**
   * Why method names must be plain for `RouteLineInjective`: a leading space
   * disappears into the padding, so two different routes share one line.
   */
  lemma PaddingHidesLeadingSpace(name: string, path: string)
    ensures Route(" GET", path) != Route("GET", path)
    ensures RouteLine(name, Route(" GET", path)) == RouteLine(name, Route("GET", path))
  {
    assert Spaces(3) == Spaces(2) + " ";
    AppendAssociates(Spaces(2), " ", "GET");
    assert PadLeft(" GET", MethodWidth) == PadLeft("GET", MethodWidth);
  }

  /** Right after the method column a route line opens its link. */
  lemma OpeningAfterColumn(name: string, r: Route)
    ensures RouteLine(name, r)[4 + |PadLeft(r.verb, MethodWidth)| + 1] == '<'
  {
    RouteLineLayout(name, r);
    AnchorLayout(Link(name, r));
  }

  /** Before the link opens, a route line holds no `<` past its "<li>". */
  lemma NoOpeningInColumn(name: string, r: Route, k: nat)
    requires PlainVerb(r.verb)
    requires k <= |PadLeft(r.verb, MethodWidth)|
    ensures RouteLine(name, r)[4 + k] != '<'
  {
    var pad := PadLeft(r.verb, MethodWidth);
    var line := RouteLine(name, r);
    RouteLineLayout(name, r);
    if k < |pad| {
      assert line[4 + k] == line[4..4 + |pad|][k] == pad[k];
      PadLeftChars(r.verb, MethodWidth, k);
    } else {
      AnchorLayout(Link(name, r));
      assert line[4 + k] == line[4 + |pad|..][0];
    }
  }

  // ---------------------------------------------------------------------
  // The builder: concatenation and order

  /** What a `strings.Builder` holds after writing `parts` one after another. */
  function Concat(parts: seq<string>): (text: string)
  {
    if parts == [] then "" else Concat(parts[..|parts| - 1]) + parts[|parts| - 1]
  }

  /** Where part `i` starts in `Concat(parts)`: after every earlier part. */
  function Start(parts: seq<string>, i: nat): (start: nat)
    requires i <= |parts|
  {
    |Concat(parts[..i])|
  }

  /** Appending to a string is associative. */
  lemma AppendAssociates(a: string, b: string, c: string)
    ensures (a + b) + c == a + (b + c)
  {
  }

  /** Writing one more part appends it. */
  lemma ConcatSnoc(parts: seq<string>, last: string)
    ensures Concat(parts + [last]) == Concat(parts) + last
  {
    assert (parts + [last])[..|parts|] == parts;
  }

  /** A slice of the middle of `a + b + c`, read as a slice of `b`. */
  lemma SliceOfMiddle(a: string, b: string, c: string, lo: nat, hi: nat)
    requires lo <= hi <= |b|
    ensures (a + b + c)[|a| + lo..|a| + hi] == b[lo..hi]
  {
  }

  /** Writing `a` then `b` to a builder is writing `a + b`. */
  lemma {:induction false} ConcatAppend(a: seq<string>, b: seq<string>)
    ensures Concat(a + b) == Concat(a) + Concat(b)
    decreases |b|
  {
    if b == [] {
      assert a + b == a;
    } else {
      var front, last := b[..|b| - 1], b[|b| - 1];
      assert b == front + [last];
      assert a + b == (a + front) + [last];
      ConcatSnoc(a + front, last);
      ConcatSnoc(front, last);
      ConcatAppend(a, front);
      AppendAssociates(Concat(a), Concat(front), last);
    }
  }

  /** Part `i` is written whole, right after every earlier part. */
  lemma PartAt(parts: seq<string>, i: nat)
    requires i < |parts|
    ensures Start(parts, i) + |parts[i]| == Start(parts, i + 1) <= |Concat(parts)|
    ensures Concat(parts)[Start(parts, i)..Start(parts, i + 1)] == parts[i]
  {
    assert parts[..i + 1][..i] == parts[..i];
    assert parts[..i + 1] + parts[i + 1..] == parts;
    ConcatAppend(parts[..i + 1], parts[i + 1..]);
  }

  /** Parts are written in order: part `i` ends before part `j > i` starts. */
  lemma PartsInOrder(parts: seq<string>, i: nat, j: nat)
    requires i < j <= |parts|
    ensures Start(parts, i + 1) <= Start(parts, j)
  {
    assert parts[..i + 1] + parts[i + 1..j] == parts[..j];
    ConcatAppend(parts[..i + 1], parts[i + 1..j]);
  }

  // ---------------------------------------------------------------------
  // A group's fragment

  /** `f` applied to every element of `s`, in order. */
  function Map<A, B>(f: A -> B, s: seq<A>): (r: seq<B>)
    ensures |r| == |s|
  {
    if s == [] then [] else Map(f, s[..|s| - 1]) + [f(s[|s| - 1])]
  }

  /** Element `i` of `Map(f, s)` is `f(s[i])`. */
  lemma {:induction false} MapAt<A, B>(f: A -> B, s: seq<A>, i: nat)
    requires i < |s|
    ensures Map(f, s)[i] == f(s[i])
    decreases |s|
  {
    var n := |s| - 1;
    if i < n {
      MapAt(f, s[..n], i);
    }
  }

  /** Mapping over `u + v` maps over `u`, then over `v`. */
  lemma {:induction false} MapAppend<A, B>(f: A -> B, u: seq<A>, v: seq<A>)
    ensures Map(f, u + v) == Map(f, u) + Map(f, v)
    decreases |v|
  {
    if v == [] {
      assert u + v == u;
    } else {
      var front := v[..|v| - 1];
      assert (u + v)[..|u + v| - 1] == u + front;
      MapAppend(f, u, front);
    }
  }

  /** Mapping over permutations of each other yields permutations of each other. */
  lemma {:induction false} MapPermute<A, B>(f: A -> B, a: seq<A>, b: seq<A>)
    requires multiset(a) == multiset(b)
    ensures multiset(Map(f, a)) == multiset(Map(f, b))
    decreases |a|
  {
    if a == [] {
      assert |b| == |multiset(b)| == 0;
    } else {
      var x := a[0];
      assert x in multiset(b);
      var k :| 0 <= k < |b| && b[k] == x;
      RemoveMatching(a, b, k);
      MapPermute(f, a[1..], b[..k] + b[k + 1..]);
      MapAroundMatch(f, a, b, k);
    }
  }

  /** Taking the same element out of two permutations leaves permutations. */
  lemma RemoveMatching<A>(a: seq<A>, b: seq<A>, k: nat)
    requires multiset(a) == multiset(b) && a != [] && k < |b| && b[k] == a[0]
    ensures multiset(a[1..]) == multiset(b[..k] + b[k + 1..])
  {
    assert a == [a[0]] + a[1..];
    assert b == b[..k] + [b[k]] + b[k + 1..];
    assert multiset(a[1..]) == multiset(a) - multiset{a[0]};
    assert multiset(b[..k] + b[k + 1..]) == multiset(b) - multiset{a[0]};
  }

  /** The induction step of `MapPermute`: put the matched element back on both sides. */
  lemma MapAroundMatch<A, B>(f: A -> B, a: seq<A>, b: seq<A>, k: nat)
    requires a != [] && k < |b| && b[k] == a[0]
    requires multiset(Map(f, a[1..])) == multiset(Map(f, b[..k] + b[k + 1..]))
    ensures multiset(Map(f, a)) == multiset(Map(f, b))
  {
    var x, before, after := a[0], b[..k], b[k + 1..];
    assert Map(f, a) == Map(f, [x]) + Map(f, a[1..]) by {
      assert a == [x] + a[1..];
      MapAppend(f, [x], a[1..]);
    }
    MapAround(f, b, k);
    MapAppend(f, before, after);
    MultisetShuffle(Map(f, [x]), Map(f, a[1..]), Map(f, before), Map(f, after));
  }

  /** `Map(f, b)` split around position `k`. */
  lemma MapAround<A, B>(f: A -> B, b: seq<A>, k: nat)
    requires k < |b|
    ensures Map(f, b) == Map(f, b[..k]) + (Map(f, [b[k]]) + Map(f, b[k + 1..]))
  {
    SplitAt(b, k);
    MapAppend(f, b[..k], [b[k]] + b[k + 1..]);
    MapAppend(f, [b[k]], b[k + 1..]);
  }

  /** A sequence is what comes before position `k`, the element there, and the rest. */
  lemma SplitAt<A>(b: seq<A>, k: nat)
    requires k < |b|
    ensures b == b[..k] + ([b[k]] + b[k + 1..])
  {
    assert b == b[..k] + b[k..];
    assert b[k..] == [b[k]] + b[k + 1..];
  }

  /** Bookkeeping of the induction step of `MapPermute`. */
  lemma MultisetShuffle<B>(lx: seq<B>, la: seq<B>, lb: seq<B>, lc: seq<B>)
    requires multiset(la) == multiset(lb + lc)
    ensures multiset(lx + la) == multiset(lb + (lx + lc))
  {
    calc {
      multiset(lx + la);
      multiset(lx) + multiset(lb) + multiset(lc);
      multiset(lb) + (multiset(lx) + multiset(lc));
      multiset(lb + (lx + lc));
    }
  }

  /** `RouteLine` for the group `name`, as a value. */
  function LineOf(name: string): (render: Route -> string)
  {
    r => RouteLine(name, r)
  }

  /** The lines of a group whose routes are visited in the order `order`. */
  function RouteLines(name: string, order: seq<Route>): (lines: seq<string>)
    ensures |lines| == |order|
  {
    Map(LineOf(name), order)
  }

  /** Line `i` of a group is the line of the `i`-th route visited. */
  lemma RouteLinesAt(name: string, order: seq<Route>, i: nat)
    requires i < |order|
    ensures RouteLines(name, order)[i] == RouteLine(name, order[i])
  {
    MapAt(LineOf(name), order, i);
  }

  /** The fragment `Group.toString` builds when the map yields `order`. */
  function GroupHtml(name: string, order: seq<Route>): (html: string)
  {
    Concat(RouteLines(name, order))
  }

  /** Writing one more route line extends a group's fragment by that line. */
  lemma GroupHtmlSnoc(name: string, order: seq<Route>, r: Route)
    ensures GroupHtml(name, order + [r]) == GroupHtml(name, order) + RouteLine(name, r)
  {
    assert (order + [r])[..|order|] == order;
  }

  /**
   * Whatever order the map yields, a group writes one line per route, the
   * line of every route, and no other line.
   */
  lemma GroupLinesCover(name: string, order: seq<Route>, routes: set<Route>)
    requires Enumerates(order, routes)
    ensures |RouteLines(name, order)| == |routes|
    ensures forall r :: r in routes ==> RouteLine(name, r) in RouteLines(name, order)
    ensures forall l :: l in RouteLines(name, order) ==> exists r :: r in routes && l == RouteLine(name, r)
  {
    EnumerationSize(order, routes);
    var lines := RouteLines(name, order);
    forall r | r in routes
      ensures RouteLine(name, r) in lines
    {
      var k :| 0 <= k < |order| && order[k] == r;
      RouteLinesAt(name, order, k);
    }
    forall l | l in lines
      ensures exists r :: r in routes && l == RouteLine(name, r)
    {
      var k :| 0 <= k < |lines| && lines[k] == l;
      RouteLinesAt(name, order, k);
      assert order[k] in order;
    }
  }

  /**
   * With plain method names, each route of the group appears exactly once
   * among the group's lines.
   */
  lemma GroupLinesOnce(name: string, order: seq<Route>, routes: set<Route>, r: Route)
    requires Enumerates(order, routes)
    requires forall q :: q in routes ==> PlainVerb(q.verb)
    requires r in routes
    ensures multiset(RouteLines(name, order))[RouteLine(name, r)] == 1
  {
    var lines := RouteLines(name, order);
    assert Distinct(lines) by {
      forall i, j | 0 <= i < j < |lines|
        ensures lines[i] != lines[j]
      {
        if lines[i] == lines[j] {
          RouteLinesAt(name, order, i);
          RouteLinesAt(name, order, j);
          RouteLineInjective(name, order[i], order[j]);
        }
      }
    }
    DistinctMultiplicity(lines);
    GroupLinesCover(name, order, routes);
  }

  /**
   * Two renderings of the same group may list its lines in different
   * orders, but always the same lines the same number of times.
   */
  lemma RendersAgree(name: string, a: seq<Route>, b: seq<Route>, routes: set<Route>)
    requires Enumerates(a, routes) && Enumerates(b, routes)
    ensures multiset(RouteLines(name, a)) == multiset(RouteLines(name, b))
  {
    EnumerationsArePermutations(a, b, routes);
    MapPermute(LineOf(name), a, b);
  }

  // ---------------------------------------------------------------------
  // The page

  /** The page `HATEOAS.Print` builds from the group fragments, in group order. */
  function Page(fragments: seq<string>): (page: string)
  {
    Header + Concat(fragments) + Footer
  }

  /**
   * The page starts with the header and ends with the footer; without
   * fragments it is nothing else.
   */
  lemma PageFrame(fragments: seq<string>)
    ensures |Page(fragments)| >= |Header| + |Footer|
    ensures Page(fragments)[..|Header|] == Header
    ensures Page(fragments)[|Page(fragments)| - |Footer|..] == Footer
    ensures fragments == [] ==> Page(fragments) == Header + Footer
  {
    Framed(Header, Concat(fragments), Footer);
    if fragments == [] {
      assert Header + Concat(fragments) == Header;
    }
  }

  /** `a + b + c` starts with `a` and ends with `c`. */
  lemma Framed(a: string, b: string, c: string)
    ensures (a + b + c)[..|a|] == a
    ensures (a + b + c)[|a + b + c| - |c|..] == c
  {
  }

  /** Where fragment `i` starts in `Page(fragments)`. */
  function Offset(fragments: seq<string>, i: nat): (offset: nat)
    requires i <= |fragments|
  {
    |Header| + Start(fragments, i)
  }

  /**
   * The page holds the fragment of group `i` whole, after the header and
   * every earlier group's fragment, and before every later one and the footer.
   */
  lemma FragmentAt(fragments: seq<string>, i: nat, j: nat)
    requires i < j <= |fragments|
    ensures Offset(fragments, i) + |fragments[i]| == Offset(fragments, i + 1)
    ensures Offset(fragments, i + 1) <= Offset(fragments, j) <= |Page(fragments)| - |Footer|
    ensures Page(fragments)[Offset(fragments, i)..Offset(fragments, i + 1)] == fragments[i]
  {
    PartAt(fragments, i);
    PartsInOrder(fragments, i, j);
    PartsInOrder(fragments, j - 1, |fragments|);
    assert fragments[..|fragments|] == fragments;
    SliceOfMiddle(Header, Concat(fragments), Footer, Start(fragments, i), Start(fragments, i + 1));
  }
}
