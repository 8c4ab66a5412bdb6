/**
 * Routes recorded by the HATEOAS decorator and the de-duplicating route set
 * (`PathSet`) each group keeps them in.
 *
 * Go iterates over a map in an unspecified order, so whatever walks a route
 * set is only promised to produce SOME enumeration of it: a sequence listing
 * every member exactly once (`Enumerates`).
 */
module Routes {

  /** A registered route: the HTTP method (the Go field `Type`) and the path pattern. */
  datatype Route = Route(verb: string, path: string)

  /** No element occurs twice in `s`. */
  ghost predicate Distinct<T>(s: seq<T>)
  {
    forall i, j :: 0 <= i < j < |s| ==> s[i] != s[j]
  }

  /** `s` lists every member of `members` exactly once, in some order. */
  ghost predicate Enumerates<T(!new)>(s: seq<T>, members: set<T>)
  {
    && Distinct(s)
    && (forall x :: x in s <==> x in members)
  }

  /** Dropping the head of an enumeration enumerates the rest of the set. */
  lemma EnumeratesTail<T(!new)>(s: seq<T>, members: set<T>)
    requires Enumerates(s, members) && s != []
    ensures s[0] in members
    ensures Enumerates(s[1..], members - {s[0]})
  {
    forall x | x in s[1..]
      ensures x in members - {s[0]}
    {
      var k :| 1 <= k < |s| && s[k] == x;
    }
  }

  /** Listing one more member extends an enumeration. */
  lemma EnumeratesSnoc<T(!new)>(s: seq<T>, members: set<T>, x: T)
    requires Enumerates(s, members) && x !in members
    ensures Enumerates(s + [x], members + {x})
  {
  }

  /**
   * Visiting one more member `x` of the members not yet visited (`rest`)
   * extends the enumeration of those already visited.
   */
  lemma EnumeratesVisit<T(!new)>(s: seq<T>, members: set<T>, rest: set<T>, x: T)
    requires rest <= members && x in rest
    requires Enumerates(s, members - rest)
    ensures Enumerates(s + [x], members - (rest - {x}))
  {
    assert members - (rest - {x}) == (members - rest) + {x};
    EnumeratesSnoc(s, members - rest, x);
  }

  /** An enumeration is exactly as long as the set is large. */
  lemma {:induction false} EnumerationSize<T(!new)>(s: seq<T>, members: set<T>)
    requires Enumerates(s, members)
    ensures |s| == |members|
    decreases |s|
  {
    if s == [] {
      assert forall x :: x !in members;
      assert members == {};
    } else {
      EnumeratesTail(s, members);
      EnumerationSize(s[1..], members - {s[0]});
    }
  }

  /** A one-member set has one enumeration. */
  lemma EnumeratesSingleton<T(!new)>(s: seq<T>, a: T)
    requires Enumerates(s, {a})
    ensures s == [a]
  {
    EnumerationSize(s, {a});
    assert s[0] in {a};
  }

  /** A two-member set has two enumerations, one per order. */
  lemma EnumeratesPair<T(!new)>(s: seq<T>, a: T, b: T)
    requires Enumerates(s, {a, b}) && a != b
    ensures s == [a, b] || s == [b, a]
  {
    EnumerationSize(s, {a, b});
    assert s[0] in {a, b} && s[1] in {a, b};
  }

  /** In a sequence without duplicates every element is counted once. */
  lemma {:induction false} DistinctMultiplicity<T>(s: seq<T>)
    requires Distinct(s)
    ensures forall x :: multiset(s)[x] == if x in s then 1 else 0
    decreases |s|
  {
    if s != [] {
      assert Distinct(s[1..]) by {
        forall i, j | 0 <= i < j < |s[1..]|
          ensures s[1..][i] != s[1..][j]
        {
          assert s[1..][i] == s[i + 1] && s[1..][j] == s[j + 1];
        }
      }
      DistinctMultiplicity(s[1..]);
      assert s == [s[0]] + s[1..];
      assert multiset(s) == multiset{s[0]} + multiset(s[1..]);
      assert s[0] !in s[1..] by {
        forall k | 0 <= k < |s[1..]|
          ensures s[1..][k] != s[0]
        {
          assert s[1..][k] == s[k + 1];
        }
      }
    }
  }

  /**
   * Two enumerations of one set differ at most in order: they are
   * permutations of each other.
   */
  lemma EnumerationsArePermutations<T(!new)>(a: seq<T>, b: seq<T>, members: set<T>)
    requires Enumerates(a, members) && Enumerates(b, members)
    ensures multiset(a) == multiset(b)
  {
    DistinctMultiplicity(a);
    DistinctMultiplicity(b);
    assert forall x :: multiset(a)[x] == multiset(b)[x];
  }

  /**
   * The Go `PathSet`, a `map[Route]bool` whose values are always `true`:
   * only its key set matters, so it is modelled by `routes`.
   */
  class PathSet {
    var routes: set<Route>

    /** `make(PathSet)`: an empty set. */
    constructor ()
      ensures routes == {}
    {
      routes := {};
    }

    /** Records `route`; recording a route already present changes nothing. */
    method Add(route: Route)
      modifies this
      ensures route in routes
      ensures routes == old(routes) + {route}
      ensures route in old(routes) ==> routes == old(routes)
      ensures |routes| == |old(routes)| + (if route in old(routes) then 0 else 1)
    {
      routes := routes + {route};
    }

    /**
     * Copies the members into a freshly allocated array of exactly `len(p)`
     * slots, filled in map-iteration order by the counter `i`.
     */
    method List() returns (keys: array<Route>)
      ensures fresh(keys)
      ensures keys.Length == |routes|
      ensures Enumerates(keys[..], routes)
    {
      keys := new Route[|routes|];
      var rest := routes;
      var i := 0;
      while rest != {}
        invariant rest <= routes
        invariant 0 <= i <= keys.Length
        invariant |rest| == keys.Length - i
        invariant Enumerates(keys[..i], routes - rest)
        decreases |rest|
      {
        var k :| k in rest;
        ghost var done := keys[..i];
        keys[i] := k;
        assert keys[..i + 1] == done + [k];
        i := i + 1;
        rest := rest - {k};
      }
      assert keys[..] == keys[..i];
    }
  }
}
