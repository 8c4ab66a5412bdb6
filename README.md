# bun-hateoas in Dafny

A model of `hateoas.go`, a decorator over the bunrouter HTTP router. The
decorator remembers every route registered through it (HTTP method and path),
grouped by path prefix. It renders them as an HTML discovery page titled
"STRATUS REST API".

The model has four modules:

- `Routes` (routes.dfy): the `Route` value and the de-duplicating route set
  `PathSet`. `PathSet` is a class over a `set<Route>`: the Go map's values are
  always `true`, so only its keys matter. `Enumerates(s, S)` says that the
  sequence `s` lists every member of `S` exactly once. Go iterates over a map
  in an unspecified order, so every walk over a route set promises only some
  enumeration, never a particular one.
- `Render` (render.dfy): the page as pure functions.
  - `PadLeft` is the `%6s` verb: spaces on the left, never truncating.
  - `RouteLine` is one `<li>` line. `GroupHtml` is a group's fragment for a
    given visiting order, and `Page` is header, fragments and footer.
  - The lemmas state the column's shape, when a line identifies its route,
    how many lines a group writes, and where each fragment sits in the page.
- `Registry` (registry.dfy): the imperative part.
  - `Group` (`Append`, `Get`, `Post`, `Delete`, `ToString`).
  - `Hateoas` (constructor for `NewHATEOAS`, `WithGroup`, `Print`), and
    `RegisterOnGroup`, which shows that no two groups share a route set.
  - `ToString` and `Print` walk the route sets with loops. They return the
    text they built and, as ghost outputs, the order the map yielded. They are
    proved equal to `GroupHtml` and `Page` for that order.
- `Example` (example.dfy): the page of a registry without groups, and the
  page of the "/users" + "/orders" registry.

A route's `<li>` line identifies the route only for method names that are
non-empty, do not start with a space and contain no `<` (`PlainVerb`).
`Render.PaddingHidesLeadingSpace` shows `" GET"` and `"GET"` rendering the
same line.
Nothing is escaped, so a path can contain another route's whole line:
"exactly once" holds for the list of lines a group writes, not for
substrings of the page.

`Group.Name` and `Group.Paths` are `const` fields: the package never
reassigns them after the group is built.

## Model

| member | source | states |
|---|---|---|
| `Routes.Route` | hateoas.go:12-15 | a registered route: its HTTP method and its path pattern; two routes are equal exactly when both fields are |
| `Routes.Enumerates` | hateoas.go:44 | what a `range` over a route map yields: a sequence listing every key exactly once, in no particular order |
| `Routes.PathSet.constructor` | hateoas.go:83 | a new route set is empty |
| `Routes.PathSet.Add` | hateoas.go:34-37 | after `Add(r)`, `r` is a member. Nothing else is added or removed. Adding a member already present leaves the set unchanged, and the size grows by one only for a new route |
| `Routes.PathSet.List` | hateoas.go:39-50 | returns a freshly allocated array of exactly `len(p)` slots. It lists every member once, no duplicates and nothing else |
| `Routes.EnumerationSize` | hateoas.go:41-47 | any duplicate-free listing of the set's members has exactly as many entries as the set has members |
| `Routes.EnumerationsArePermutations` | hateoas.go:44 | two map-iteration orders over one set are permutations of each other |
| `Render.Header` | hateoas.go:111 | the fixed text `Print` writes before the first group: the page head titled "STRATUS REST API" and the opening `<ul>` |
| `Render.Footer` | hateoas.go:117 | the fixed text `Print` writes after the last group: `</ul></body></html>` |
| `Render.PadLeft` | hateoas.go:103 | `%6s` output is `max(len, 6)` characters wide. It ends with the method name unchanged and is spaces before it, so it never truncates |
| `Render.PadLeftInjective` | hateoas.go:103 | two plain method names with the same padded column are equal |
| `Render.RouteLine` | hateoas.go:103 | the line written for one route: `<li>`, the method right-justified to six columns, then a link whose target and text are both the group name followed by the route path |
| `Render.RouteLineInjective` | hateoas.go:103 | within one group, two routes with plain method names that render the same `<li>` line are the same route |
| `Render.PaddingHidesLeadingSpace` | hateoas.go:103 | the methods `" GET"` and `"GET"` make two different routes that render the same line, which is why the line identifies a route only for plain method names |
| `Render.Concat` | hateoas.go:100-105 | what a `strings.Builder` holds after writing a list of strings one after another |
| `Render.ConcatAppend` | hateoas.go:100-105 | writing two lists of strings to a builder one after the other yields the concatenation of what each writes |
| `Render.GroupHtml` | hateoas.go:99-106 | the text `toString` returns when the map yields the routes in a given order: the lines of those routes, in that order |
| `Render.GroupHtmlSnoc` | hateoas.go:102-104 | each loop iteration of `toString` appends exactly the line of the route it visits |
| `Render.GroupLinesCover` | hateoas.go:99-106 | whatever order the map yields, a group writes one line per route in its set, the line of every route, and no other line |
| `Render.GroupLinesOnce` | hateoas.go:99-106 | with plain method names, the line of each route of a group occurs exactly once among the lines the group writes, however often the route was added |
| `Render.MapPermute` | hateoas.go:102-104 | writing the lines of two visiting orders that are permutations of each other yields permutations of each other (for any per-route line function) |
| `Render.RendersAgree` | hateoas.go:102-104 | two renderings of one group may order its lines differently, but they hold the same lines the same number of times |
| `Render.Page` | hateoas.go:108-120 | the text `Print` returns for given group fragments: the header, the fragments in order, the footer |
| `Render.PageFrame` | hateoas.go:108-120 | the page starts with the fixed header and ends with the fixed footer. With no groups it is exactly header followed by footer |
| `Render.FragmentAt` | hateoas.go:113-115 | the page holds fragment `i` whole, right after the header and all earlier fragments. It ends no later than where any later fragment starts, and before the footer |
| `Registry.Group.constructor` | hateoas.go:81-85 | a new group is named after its prefix and owns a fresh, empty route set |
| `Registry.Group.Append` | hateoas.go:53-60 | records `Route(verb, path)` in the group's set, and the set gains nothing else |
| `Registry.Group.Get` | hateoas.go:63-65 | `Append` with the method fixed to `GET` |
| `Registry.Group.Post` | hateoas.go:68-70 | `Append` with the method fixed to `POST` |
| `Registry.Group.Delete` | hateoas.go:73-75 | `Append` with the method fixed to `DELETE` |
| `Registry.Group.ToString` | hateoas.go:99-106 | the fragment is `GroupHtml(Name, order)` for an order that enumerates the group's route set |
| `Registry.Hateoas.constructor` | hateoas.go:91-97 | a new registry has no groups |
| `Registry.Hateoas.WithGroup` | hateoas.go:79-89 | appends exactly one new group to the end, named `path`, with an empty route set of its own. Earlier groups and their order are unchanged |
| `Registry.Hateoas.RegisterOnGroup` | hateoas.go:53-60 | registering a route on group `i` of a registry adds it to that group's set and leaves every other group's routes unchanged, because no two groups share a route set |
| `Registry.Hateoas.Print` | hateoas.go:108-120 | the page is the header, then the fragment of every group in registry order (each for some enumeration of that group's routes), then the footer |
| `Registry.Fragments` | hateoas.go:113-115 | the fragments `Print` writes: fragment `i` is the fragment of group `i`, visited in the order its map yielded |
| `Registry.GroupsInCreationOrder` | hateoas.go:113-115 | for groups `i < j`, the page holds group `i`'s whole fragment, and it ends before group `j`'s fragment starts |
| `Example.EmptyRegistryPage` | hateoas.go:91-120 | a fresh registry renders exactly header followed by footer |
| `Example.UsersOrdersPage` | hateoas.go:53-120 | the "/users" group (`GET /`, `POST /`), then the "/orders" group (`GET /{id}`), render as header, the two user lines in either order, the order line, and the footer |

## Left out

- `Handler` (hateoas.go:140-148): HTTP response writing is I/O. Its only logic is to write `Print()`, report a failed write, and return no error.
- `FriendlyTimestamp` (hateoas.go:122-131): reads the wall clock.
- `processError` (hateoas.go:133-138): prints to standard output.
- `BunGroup` and `g.BunGroup.Handle` (hateoas.go:20, 59): registration with bunrouter is an external call. `Append` takes no handler function.
- `GroupType` and its `WithGroup` callback (hateoas.go:27-29, 80): bunrouter's group creation is external. The model appends the group as if the router ran the callback once, synchronously. `groupFunc` is replaced by returning the new group to the caller.
- Width of `%6s`: Go counts width in Unicode code points. The model counts `char`s, which are the same unit. Invalid UTF-8 in Go strings is not modelled.
- Concurrency: the source has no locking, and the model is sequential.
- Map iteration order: `ToString` and `Print` return the visiting order only as a ghost output. Each call may choose a different order, as Go's map iteration does.
