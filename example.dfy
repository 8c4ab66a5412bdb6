/**
 * Two registries built the way an application builds them, and the pages
 * they render.
 */
module Example {
  import opened Routes
  import opened Render
  import opened Registry

  /** A registry without groups renders nothing between header and footer. */
  method EmptyRegistryPage() returns (page: string)
    ensures page == Header + Footer
  {
    var registry := new Hateoas();
    ghost var orders;
    page, orders := registry.Print();
    PageFrame(Fragments(registry.groups, orders));
  }

  /**
   * The group "/users" with `GET /` and `POST /`, then the group "/orders"
   * with `GET /{id}`: both user routes come first, in either order, then
   * the order route.
   */
  method UsersOrdersPage() returns (page: string)
    ensures var getUsers := RouteLine("/users", Route("GET", "/"));
            var postUsers := RouteLine("/users", Route("POST", "/"));
            var getOrder := RouteLine("/orders", Route("GET", "/{id}"));
            || page == Header + ((getUsers + postUsers) + getOrder) + Footer
            || page == Header + ((postUsers + getUsers) + getOrder) + Footer
  {
    var registry := new Hateoas();
    var users := registry.WithGroup("/users");
    users.Get("/");
    users.Post("/");
    var orders := registry.WithGroup("/orders");
    orders.Get("/{id}");
    assert registry.groups == [users, orders];
    ghost var visited;
    page, visited := registry.Print();

    var get, post, getOrder := Route("GET", "/"), Route("POST", "/"), Route("GET", "/{id}");
    assert users.Paths.routes == {get, post};
    EnumeratesPair(visited[0], get, post);
    EnumeratesSingleton(visited[1], getOrder);
    TwoGroupsPage(registry.groups, visited, get, post, getOrder);
  }

  /**
   * The page of two groups, the first visited as `[a, b]` or `[b, a]`, the
   * second as `[c]`.
   */
  lemma TwoGroupsPage(groups: seq<Group>, orders: seq<seq<Route>>, a: Route, b: Route, c: Route)
    requires |groups| == |orders| == 2
    requires orders[0] == [a, b] || orders[0] == [b, a]
    requires orders[1] == [c]
    ensures var first, second := groups[0].Name, groups[1].Name;
            var page := Page(Fragments(groups, orders));
            || page == Header + ((RouteLine(first, a) + RouteLine(first, b)) + RouteLine(second, c)) + Footer
            || page == Header + ((RouteLine(first, b) + RouteLine(first, a)) + RouteLine(second, c)) + Footer
  {
    var fragments := Fragments(groups, orders);
    ConcatPair(fragments);
    GroupHtmlOfOne(groups[1].Name, orders[1]);
    GroupHtmlOfTwo(groups[0].Name, orders[0]);
  }

  /** One part is written whole. */
  lemma ConcatOne(parts: seq<string>)
    requires |parts| == 1
    ensures Concat(parts) == parts[0]
  {
    assert parts[..0] == [];
  }

  /** Two parts are written one after the other. */
  lemma ConcatPair(parts: seq<string>)
    requires |parts| == 2
    ensures Concat(parts) == parts[0] + parts[1]
  {
    ConcatOne(parts[..1]);
  }

  /** A group visited in an order of one route writes its line. */
  lemma GroupHtmlOfOne(name: string, order: seq<Route>)
    requires |order| == 1
    ensures GroupHtml(name, order) == RouteLine(name, order[0])
  {
    RouteLinesAt(name, order, 0);
    ConcatOne(RouteLines(name, order));
  }

  /** A group visited in an order of two routes writes their two lines. */
  lemma GroupHtmlOfTwo(name: string, order: seq<Route>)
    requires |order| == 2
    ensures GroupHtml(name, order) == RouteLine(name, order[0]) + RouteLine(name, order[1])
  {
    RouteLinesAt(name, order, 0);
    RouteLinesAt(name, order, 1);
    ConcatPair(RouteLines(name, order));
  }
}
