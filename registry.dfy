/**
 * The registry of route groups (`HATEOAS`) and the groups themselves.
 *
 * A group records every route registered through it in its own route set;
 * the registry keeps its groups in creation order and renders them all into
 * the discovery page. Handing routes to the underlying router is the
 * router's business and is not modelled here.
 */
module Registry {
  import opened Routes
  import opened Render

  /** A named collection of routes sharing the path prefix `Name`. */
  class Group {
    /** The path prefix the group was created for. */
    const Name: string
    /** The group's own route set. */
    const Paths: PathSet

    /** The group `WithGroup` builds: named after its prefix, with no routes yet. */
    constructor (name: string)
      ensures Name == name
      ensures fresh(Paths) && Paths.routes == {}
    {
      Name := name;
      Paths := new PathSet();
    }

    /** Records the route `Route(verb, path)` in the group's set. */
    method Append(verb: string, path: string)
      modifies Paths
      ensures Paths.routes == old(Paths.routes) + {Route(verb, path)}
    {
      Paths.Add(Route(verb, path));
    }

    /** `Append` with the method fixed to GET. */
    method Get(path: string)
      modifies Paths
      ensures Paths.routes == old(Paths.routes) + {Route("GET", path)}
    {
      Append("GET", path);
    }

    /** `Append` with the method fixed to POST. */
    method Post(path: string)
      modifies Paths
      ensures Paths.routes == old(Paths.routes) + {Route("POST", path)}
    {
      Append("POST", path);
    }

    /** `Append` with the method fixed to DELETE. */
    method Delete(path: string)
      modifies Paths
      ensures Paths.routes == old(Paths.routes) + {Route("DELETE", path)}
    {
      Append("DELETE", path);
    }

    /**
     * The group's fragment of the page: one line per route, in whatever
     * order the map yields them; `order` is that order.
     */
    method ToString() returns (html: string, ghost order: seq<Route>)
      ensures Enumerates(order, Paths.routes)
      ensures html == GroupHtml(Name, order)
    {
      html := "";
      order := [];
      var rest := Paths.routes;
      while rest != {}
        invariant rest <= Paths.routes
        invariant Enumerates(order, Paths.routes - rest)
        invariant html == GroupHtml(Name, order)
        decreases |rest|
      {
        var route :| route in rest;
        EnumeratesVisit(order, Paths.routes, rest, route);
        GroupHtmlSnoc(Name, order, route);
        html := html + RouteLine(Name, route);
        order := order + [route];
        rest := rest - {route};
      }
    }
  }

  /** The fragments of `groups`, the map of group `i` having yielded `orders[i]`. */
  function Fragments(groups: seq<Group>, orders: seq<seq<Route>>): (fragments: seq<string>)
    requires |orders| == |groups|
    ensures |fragments| == |groups|
  {
    seq(|groups|, i requires 0 <= i < |groups| => GroupHtml(groups[i].Name, orders[i]))
  }

  /** Rendering one more group appends its fragment. */
  lemma FragmentsSnoc(groups: seq<Group>, orders: seq<seq<Route>>, order: seq<Route>)
    requires |orders| < |groups|
    ensures var k := |orders|;
            Concat(Fragments(groups[..k + 1], orders + [order]))
            == Concat(Fragments(groups[..k], orders)) + GroupHtml(groups[k].Name, order)
  {
    var k := |orders|;
    assert Fragments(groups[..k + 1], orders + [order])
        == Fragments(groups[..k], orders) + [GroupHtml(groups[k].Name, order)];
    ConcatSnoc(Fragments(groups[..k], orders), GroupHtml(groups[k].Name, order));
  }

  /**
   * Groups are rendered in creation order: the page holds the fragment of
   * group `i` whole, and it ends before the fragment of any later group `j`
   * starts.
   */
  lemma GroupsInCreationOrder(groups: seq<Group>, orders: seq<seq<Route>>, i: nat, j: nat)
    requires |orders| == |groups| && i < j < |groups|
    ensures var fragments := Fragments(groups, orders);
            var page := Page(fragments);
            && |Header| <= Offset(fragments, i) <= Offset(fragments, i + 1) <= Offset(fragments, j)
            && Offset(fragments, j) <= Offset(fragments, j + 1) <= |page| - |Footer|
            && page[Offset(fragments, i)..Offset(fragments, i + 1)] == GroupHtml(groups[i].Name, orders[i])
            && page[Offset(fragments, j)..Offset(fragments, j + 1)] == GroupHtml(groups[j].Name, orders[j])
  {
    var fragments := Fragments(groups, orders);
    FragmentAt(fragments, i, j);
    FragmentAt(fragments, j, j + 1);
  }

  /** The registry: every group created through it, oldest first. */
  class Hateoas {
    var groups: seq<Group>

    /** Every group owns its route set: no two groups share one. */
    ghost predicate Valid()
      reads this
    {
      forall i, j :: 0 <= i < j < |groups| ==> groups[i].Paths != groups[j].Paths
    }

    /** `NewHATEOAS`: a registry without groups. */
    constructor ()
      ensures Valid()
      ensures groups == []
    {
      groups := [];
    }

    /**
     * Creates the group for the prefix `path`, with an empty route set, and
     * appends it to the groups; the earlier groups stay as they were. The
     * new group is returned so that the caller can register its routes.
     */
    method WithGroup(path: string) returns (group: Group)
      requires Valid()
      modifies this
      ensures Valid()
      ensures fresh(group) && fresh(group.Paths)
      ensures group.Name == path && group.Paths.routes == {}
      ensures groups == old(groups) + [group]
    {
      group := new Group(path);
      groups := groups + [group];
    }

    /**
     * A route registered on group `i` goes into that group's set only: the
     * routes of every other group stay as they were, since no two groups
     * share a route set.
     */
    method RegisterOnGroup(i: nat, verb: string, path: string)
      requires Valid() && i < |groups|
      modifies groups[i].Paths
      ensures groups[i].Paths.routes == old(groups[i].Paths.routes) + {Route(verb, path)}
      ensures forall j :: 0 <= j < |groups| && j != i ==>
                groups[j].Paths.routes == old(groups[j].Paths.routes)
    {
      groups[i].Append(verb, path);
    }

    /**
     * The discovery page: the fixed header, the fragment of every group in
     * creation order, the fixed footer. `orders[i]` is the order in which
     * the map of group `i` yielded its routes.
     */
    method Print() returns (page: string, ghost orders: seq<seq<Route>>)
      ensures |orders| == |groups|
      ensures forall i :: 0 <= i < |groups| ==> Enumerates(orders[i], groups[i].Paths.routes)
      ensures page == Page(Fragments(groups, orders))
    {
      page := Header;
      orders := [];
      for k := 0 to |groups|
        invariant |orders| == k
        invariant forall i :: 0 <= i < k ==> Enumerates(orders[i], groups[i].Paths.routes)
        invariant page == Header + Concat(Fragments(groups[..k], orders))
      {
        var html;
        ghost var order;
        html, order := groups[k].ToString();
        ghost var written := Concat(Fragments(groups[..k], orders));
        FragmentsSnoc(groups, orders, order);
        AppendAssociates(Header, written, html);
        page := page + html;
        ghost var more := orders + [order];
        forall i | 0 <= i <= k
          ensures Enumerates(more[i], groups[i].Paths.routes)
        {
          if i < k {
            assert more[i] == orders[i];
          }
        }
        orders := more;
      }
      assert groups[..|groups|] == groups;
      page := page + Footer;
    }
  }
}
