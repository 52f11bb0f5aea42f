/** The nested file tree built from flat package paths. Nodes are values; `cursor` is a recursion. */
module FileTree {
  import opened Wrappers
  import opened Seqs
  import opened Paths
  import Sorting

  datatype Node =
    | File(name: string, path: string)
    | Dir(name: string, path: string, children: seq<Node>)

  datatype Item = Item(path: string, isDir: bool)

  type Route = seq<string>

  // ---- which paths are taken, and as what route --------------------------------------------------

  /** `split("/").filter(Boolean)`. */
  function Parts(path: string): Route {
    NonEmpty(Segments(path))
  }

  function NonEmpty(parts: seq<string>): (r: seq<string>)
    ensures forall k :: 0 <= k < |r| ==> r[k] != "" && r[k] in parts
    ensures forall part :: part in parts && part != "" ==> part in r
  {
    if parts == [] then []
    else
      var rest := NonEmpty(parts[1..]);
      if parts[0] == "" then rest else [parts[0]] + rest
  }

  /** One trailing slash is dropped. */
  function Normalized(prefix: string): string {
    if prefix != "" && prefix[|prefix| - 1] == '/' then prefix[..|prefix| - 1] else prefix
  }

  function Relative(path: string, prefix: string): Option<string> {
    if prefix == "" then Some(path)
    else if path == prefix || !At(path, prefix + SLASH, 0) then None
    else Some(path[|prefix| + 1..])
  }

  function RouteOf(item: Item, prefix: string): (route: Option<Route>)
    ensures route.Some? ==> route.value != [] && forall k :: 0 <= k < |route.value| ==> route.value[k] != ""
  {
    if item.isDir then None
    else
      var rel := Relative(item.path, prefix);
      if rel == None || Parts(rel.value) == [] then None else Some(Parts(rel.value))
  }

  // ---- what a route says about the path --------------------------------------------------------------

  lemma {:induction false} NonEmptyConcat(a: seq<string>, b: seq<string>)
    ensures NonEmpty(a + b) == NonEmpty(a) + NonEmpty(b)
    decreases |a|
  {
    if a == [] {
      assert a + b == b;
    } else {
      assert (a + b)[1..] == a[1..] + b;
      NonEmptyConcat(a[1..], b);
    }
  }

  lemma {:induction false} JoinConcat(a: seq<string>, b: seq<string>)
    requires a != [] && b != []
    ensures Join(a + b, SLASH) == Join(a, SLASH) + SLASH + Join(b, SLASH)
    decreases |a|
  {
    assert (a + b)[1..] == a[1..] + b;
    if |a| > 1 { JoinConcat(a[1..], b); }
  }

  /** A slash separates: the route of a path is the route of what stands before a slash, and then that of what
      stands behind it. */
  lemma PartsConcat(a: string, b: string)
    ensures Parts(a + SLASH + b) == Parts(a) + Parts(b)
  {
    hide Segments;
    SegmentsJoined(a);
    SegmentsJoined(b);
    JoinConcat(Segments(a), Segments(b));
    SegmentsOfJoin(Segments(a) + Segments(b));
    NonEmptyConcat(Segments(a), Segments(b));
  }

  lemma SegmentsJoined(path: string)
    ensures Join(Segments(path), SLASH) == path && NoSlash(Segments(path))
  {
    JoinSplit(path, SLASH);
    SegmentsHaveNoSlash(path);
  }

  /** A text without a slash is its own route; nothing has none. */
  lemma PartsOfOne(part: string)
    requires '/' !in part
    ensures Parts(part) == if part == "" then [] else [part]
  {
    SegmentsOfJoin([part]);
    assert Join([part], SLASH) == part;
    assert NonEmpty([part][1..]) == [];
  }

  predicate Names(parts: seq<string>) {
    parts != [] && forall k :: 0 <= k < |parts| ==> parts[k] != "" && '/' !in parts[k]
  }

  /** Names joined by slashes are found again, in order. */
  lemma {:induction false} PartsOfJoin(parts: seq<string>)
    requires Names(parts)
    ensures Parts(Join(parts, SLASH)) == parts
    decreases |parts|
  {
    PartsOfOne(parts[0]);
    if |parts| == 1 {
      assert parts == [parts[0]];
    } else {
      PartsOfJoin(parts[1..]);
      PartsConcat(parts[0], Join(parts[1..], SLASH));
      assert parts == [parts[0]] + parts[1..];
    }
  }

  /** A leading, a trailing and a doubled slash change nothing. */
  lemma MoreSlashesSameParts(a: string, b: string)
    ensures Parts(SLASH + a) == Parts(a) == Parts(a + SLASH)
    ensures Parts(a + SLASH + SLASH + b) == Parts(a + SLASH + b)
  {
    hide Parts;
    PartsOfOne("");
    PartsConcat("", a);
    PartsConcat(a, "");
    PartsConcat("", b);
    PartsConcat(a, SLASH + b);
    PartsConcat(a, b);
    assert "" + SLASH + a == SLASH + a && a + SLASH + "" == a + SLASH && "" + SLASH + b == SLASH + b;
    assert a + SLASH + SLASH + b == a + SLASH + (SLASH + b);
  }

  /** Below a prefix a path has the route of what stands behind the prefix and a slash; other paths have none;
      and a slash at the end of the prefix makes no difference. */
  lemma RouteBelowPrefix(item: Item, prefix: string, q: string)
    requires prefix != ""
    ensures item.path == prefix + SLASH + q ==> RouteOf(item, prefix) == RouteOf(Item(q, item.isDir), "")
    ensures RouteOf(item, prefix).Some? ==> exists rest :: item.path == prefix + SLASH + rest
    ensures Normalized(prefix + SLASH) == prefix && (prefix[|prefix| - 1] != '/' ==> Normalized(prefix) == prefix)
  {
    hide Parts;
    if item.path == prefix + SLASH + q {
      AtSlice(item.path, prefix + SLASH, 0);
      assert item.path[|prefix| + 1..] == q;
    }
    if RouteOf(item, prefix).Some? {
      AtSlice(item.path, prefix + SLASH, 0);
      assert item.path == prefix + SLASH + item.path[|prefix| + 1..];
    }
  }

  /** The path of the first item taken as `route`. */
  function FirstWith(items: seq<Item>, prefix: string, route: Route): Option<string>
    decreases |items|, 0
  {
    if items == [] then None
    else
      var (front, item) := (items[..|items| - 1], items[|items| - 1]);
      FirstStep(front, prefix, route, item)
  }

  function FirstStep(front: seq<Item>, prefix: string, route: Route, item: Item): Option<string>
    decreases |front|, 1
  {
    var before := FirstWith(front, prefix, route);
    if before.Some? then before
    else if RouteOf(item, prefix) == Some(route) then Some(item.path) else None
  }

  // ---- reading a tree ------------------------------------------------------------------------------

  function Extend(acc: string, part: string): string {
    if acc == "" then part else acc + SLASH + part
  }

  /** The directory paths above a route that starts below `acc`. */
  function Chain(acc: string, route: Route): seq<string>
    decreases |route|
  {
    if |route| <= 1 then [] else [Extend(acc, route[0])] + Chain(Extend(acc, route[0]), route[1..])
  }

  /** `nodes` hold a file for `path` at `route`, below the directories `dirs`. */
  ghost predicate Leaf(nodes: seq<Node>, route: Route, dirs: seq<string>, path: string)
    decreases |route|, 1
  {
    exists i :: 0 <= i < |nodes| && LeafOf(nodes[i], route, dirs, path)
  }

  ghost predicate LeafOf(node: Node, route: Route, dirs: seq<string>, path: string)
    decreases |route|, 0
  {
    match node
    case File(name, p) => route == [name] && dirs == [] && path == p
    case Dir(name, p, children) =>
      |route| > 1 && dirs != [] && route[0] == name && dirs[0] == p && Leaf(children, route[1..], dirs[1..], path)
  }

  ghost predicate HasRoute(nodes: seq<Node>, route: Route)
    decreases |route|, 1
  {
    exists i :: 0 <= i < |nodes| && HasRouteIn(nodes[i], route)
  }

  ghost predicate HasRouteIn(node: Node, route: Route)
    decreases |route|, 0
  {
    match node
    case File(name, _) => route == [name]
    case Dir(name, _, children) => |route| > 1 && route[0] == name && HasRoute(children, route[1..])
  }

  datatype Key = Key(isDir: bool, name: string)

  function KeyOf(node: Node): Key {
    Key(node.Dir?, node.name)
  }

  /** No two siblings share type and name. */
  ghost predicate Unique(nodes: seq<Node>) {
    forall i, j :: 0 <= i < j < |nodes| ==> KeyOf(nodes[i]) != KeyOf(nodes[j])
  }

  /** Siblings are unique, no directory is empty, and each carries its own path. */
  ghost predicate Valid(nodes: seq<Node>, acc: string) {
    Unique(nodes) && forall i :: 0 <= i < |nodes| ==> ValidNode(nodes[i], acc)
  }

  ghost predicate ValidNode(node: Node, acc: string) {
    node.Dir? ==> node.path == Extend(acc, node.name) && node.children != [] && Valid(node.children, node.path)
  }

  // ---- adding one route ----------------------------------------------------------------------------

  /** `nodes.find`: the first sibling of that type and name. */
  function FindKey(nodes: seq<Node>, key: Key): (i: Option<nat>)
    ensures i.Some? ==> i.value < |nodes| && KeyOf(nodes[i.value]) == key && forall k :: 0 <= k < i.value ==> KeyOf(nodes[k]) != key
    ensures i.None? ==> forall k :: 0 <= k < |nodes| ==> KeyOf(nodes[k]) != key
  {
    if nodes == [] then None
    else
      var last := |nodes| - 1;
      var before := FindKey(nodes[..last], key);
      if before.Some? then before else if KeyOf(nodes[last]) == key then Some(last) else None
  }

  /** The walk of one path: `acc` is the path of the directory whose children `nodes` are. */
  function Insert(nodes: seq<Node>, acc: string, route: Route, path: string): seq<Node>
    requires route != []
    decreases |route|
  {
    var part := route[0];
    if |route| == 1 then
      if FindKey(nodes, Key(false, part)).Some? then nodes else nodes + [File(part, path)]
    else
      var here := Extend(acc, part);
      match FindKey(nodes, Key(true, part))
      case None => nodes + [Dir(part, here, Insert([], here, route[1..], path))]
      case Some(i) => nodes[i := Dir(part, nodes[i].path, Insert(nodes[i].children, here, route[1..], path))]
  }

  lemma LeafAppend(nodes: seq<Node>, node: Node, route: Route, dirs: seq<string>, path: string)
    ensures Leaf(nodes + [node], route, dirs, path) <==> Leaf(nodes, route, dirs, path) || LeafOf(node, route, dirs, path)
    ensures HasRoute(nodes + [node], route) <==> HasRoute(nodes, route) || HasRouteIn(node, route)
  {
    hide LeafOf;
    hide HasRouteIn;
    var all := nodes + [node];
    assert all[|nodes|] == node && forall i :: 0 <= i < |nodes| ==> all[i] == nodes[i];
  }

  /** Replacing node `i` changes what the tree holds by what it changes in that node. */
  lemma LeafUpdate(nodes: seq<Node>, i: nat, node: Node, route: Route, dirs: seq<string>, path: string, more: bool, moreRoute: bool)
    requires i < |nodes|
    requires LeafOf(node, route, dirs, path) <==> LeafOf(nodes[i], route, dirs, path) || more
    requires HasRouteIn(node, route) <==> HasRouteIn(nodes[i], route) || moreRoute
    ensures Leaf(nodes[i := node], route, dirs, path) <==> Leaf(nodes, route, dirs, path) || more
    ensures HasRoute(nodes[i := node], route) <==> HasRoute(nodes, route) || moreRoute
  {
    hide LeafOf;
    hide HasRouteIn;
    var all := nodes[i := node];
    assert all[i] == node && forall k :: 0 <= k < |nodes| && k != i ==> all[k] == nodes[k];
  }

  /** What a unique sibling decides. */
  lemma HasRouteAt(nodes: seq<Node>, i: nat, route: Route)
    requires Unique(nodes) && i < |nodes| && route != [] && KeyOf(nodes[i]) == Key(|route| > 1, route[0])
    ensures HasRoute(nodes, route) <==> HasRouteIn(nodes[i], route)
  {
    if HasRoute(nodes, route) {
      var k :| 0 <= k < |nodes| && HasRouteIn(nodes[k], route);
      assert KeyOf(nodes[k]) == KeyOf(nodes[i]);
    }
  }

  lemma HasRouteNowhere(nodes: seq<Node>, route: Route)
    requires route != [] && forall k :: 0 <= k < |nodes| ==> KeyOf(nodes[k]) != Key(|route| > 1, route[0])
    ensures !HasRoute(nodes, route)
  {
    forall k | 0 <= k < |nodes| ensures !HasRouteIn(nodes[k], route) {
      assert KeyOf(nodes[k]) != Key(|route| > 1, route[0]);
    }
  }

  /** Adding a route keeps the tree valid. */
  lemma {:induction false} InsertValid(nodes: seq<Node>, acc: string, route: Route, path: string)
    requires route != [] && Valid(nodes, acc)
    ensures Valid(Insert(nodes, acc, route, path), acc) && Insert(nodes, acc, route, path) != []
    decreases |route|
  {
    var part := route[0];
    if |route| > 1 {
      var here := Extend(acc, part);
      match FindKey(nodes, Key(true, part))
      case None =>
        InsertValid([], here, route[1..], path);
      case Some(i) =>
        InsertValid(nodes[i].children, here, route[1..], path);
        var node := Dir(part, nodes[i].path, Insert(nodes[i].children, here, route[1..], path));
        assert KeyOf(node) == KeyOf(nodes[i]) && ValidNode(node, acc);
    }
  }

  /** The leaf that adding `added` below `acc` may create. */
  ghost predicate IsNew(acc: string, added: Route, from: string, route: Route, dirs: seq<string>, path: string) {
    route == added && dirs == Chain(acc, added) && path == from
  }

  /** Adding a route adds exactly its leaf, below exactly its chain of directories, and only if the route
      is new; nothing else changes. */
  lemma {:induction false} InsertLeaf(nodes: seq<Node>, acc: string, added: Route, from: string, route: Route, dirs: seq<string>, path: string)
    requires added != [] && Valid(nodes, acc)
    ensures Leaf(Insert(nodes, acc, added, from), route, dirs, path) <==>
              Leaf(nodes, route, dirs, path) || (!HasRoute(nodes, added) && IsNew(acc, added, from, route, dirs, path))
    ensures HasRoute(Insert(nodes, acc, added, from), route) <==> HasRoute(nodes, route) || route == added
    decreases |added|, 1
  {
    hide Leaf;
    hide LeafOf;
    hide HasRoute;
    hide HasRouteIn;
    hide IsNew;
    hide Chain;
    var part := added[0];
    if |added| == 1 {
      assert added == [part];
      match FindKey(nodes, Key(false, part))
      case None =>
        HasRouteNowhere(nodes, added);
        LeafAppend(nodes, File(part, from), route, dirs, path);
        NewFile(acc, part, from, route, dirs, path);
      case Some(i) =>
        HasRouteAt(nodes, i, added);
        HasFile(nodes[i], added);
    } else {
      var here := Extend(acc, part);
      match FindKey(nodes, Key(true, part))
      case None =>
        HasRouteNowhere(nodes, added);
        InsertBelow(Dir(part, here, []), acc, added, from, route, dirs, path);
        NothingIn(part, here, route, dirs, path);
        NothingIn(part, here, added, dirs, path);
        LeafAppend(nodes, Dir(part, here, Insert([], here, added[1..], from)), route, dirs, path);
      case Some(i) =>
        HasRouteAt(nodes, i, added);
        InsertBelow(nodes[i], acc, added, from, route, dirs, path);
        LeafUpdate(nodes, i, Dir(part, nodes[i].path, Insert(nodes[i].children, here, added[1..], from)), route, dirs, path,
          !HasRouteIn(nodes[i], added) && IsNew(acc, added, from, route, dirs, path), route == added);
    }
  }

  lemma NewFile(acc: string, name: string, from: string, route: Route, dirs: seq<string>, path: string)
    ensures LeafOf(File(name, from), route, dirs, path) <==> IsNew(acc, [name], from, route, dirs, path)
    ensures HasRouteIn(File(name, from), route) <==> route == [name]
  {
  }

  lemma HasFile(node: Node, route: Route)
    requires |route| == 1 && KeyOf(node) == Key(false, route[0])
    ensures HasRouteIn(node, route) && forall other :: other == route ==> HasRouteIn(node, other)
  {
    assert route == [node.name];
  }

  lemma NothingIn(name: string, here: string, route: Route, dirs: seq<string>, path: string)
    ensures !LeafOf(Dir(name, here, []), route, dirs, path) && !HasRouteIn(Dir(name, here, []), route)
  {
  }

  /** The same inside the directory the route enters. */
  lemma {:induction false} InsertBelow(node: Node, acc: string, added: Route, from: string, route: Route, dirs: seq<string>, path: string)
    requires |added| > 1 && node.Dir? && node.name == added[0] && node.path == Extend(acc, node.name) && Valid(node.children, node.path)
    ensures var after := Dir(node.name, node.path, Insert(node.children, node.path, added[1..], from));
            && (LeafOf(after, route, dirs, path) <==>
                  LeafOf(node, route, dirs, path) || (!HasRouteIn(node, added) && IsNew(acc, added, from, route, dirs, path)))
            && (HasRouteIn(after, route) <==> HasRouteIn(node, route) || route == added)
    decreases |added|, 0
  {
    hide Leaf;
    hide HasRoute;
    hide Insert;
    if |route| > 1 && route[0] == node.name {
      assert route == [route[0]] + route[1..] && added == [added[0]] + added[1..];
      InsertLeaf(node.children, node.path, added[1..], from, route[1..], if dirs == [] then [] else dirs[1..], path);
      if dirs != [] { assert dirs == [dirs[0]] + dirs[1..]; }
    }
  }

  // ---- sorting -------------------------------------------------------------------------------------

  /** Directories first, then by name, as `localeCompare` orders names. */
  predicate KeyLe(a: Key, b: Key, le: (string, string) -> bool) {
    if a.isDir != b.isDir then a.isDir else le(a.name, b.name)
  }

  predicate NodeLe(a: Node, b: Node, le: (string, string) -> bool) {
    KeyLe(KeyOf(a), KeyOf(b), le)
  }

  function SortNodes(nodes: seq<Node>, le: (string, string) -> bool): seq<Node>
    decreases nodes, 1
  {
    Sorting.Sort(SortEach(nodes, le), (a, b) => NodeLe(a, b, le))
  }

  /** The recursion into each node; as the comparison looks at no children, it may come before the sort. */
  function SortEach(nodes: seq<Node>, le: (string, string) -> bool): (r: seq<Node>)
    ensures |r| == |nodes|
    decreases nodes, 0
  {
    if nodes == [] then [] else [SortInside(nodes[0], le)] + SortEach(nodes[1..], le)
  }

  function SortInside(node: Node, le: (string, string) -> bool): (r: Node)
    ensures KeyOf(r) == KeyOf(node)
    decreases node, 2
  {
    match node
    case File(_, _) => node
    case Dir(name, path, children) => Dir(name, path, SortNodes(children, le))
  }

  /** Directories stand before files, and either in the order of their names, on every level. */
  ghost predicate Ordered(nodes: seq<Node>, le: (string, string) -> bool) {
    && (forall i, j :: 0 <= i < j < |nodes| ==>
          && (nodes[i].File? ==> nodes[j].File?)
          && (nodes[i].Dir? == nodes[j].Dir? ==> le(nodes[i].name, nodes[j].name)))
    && forall i :: 0 <= i < |nodes| ==> OrderedIn(nodes[i], le)
  }

  ghost predicate OrderedIn(node: Node, le: (string, string) -> bool) {
    node.Dir? ==> Ordered(node.children, le)
  }

  lemma {:induction false} SortEachAt(nodes: seq<Node>, le: (string, string) -> bool, i: nat)
    requires i < |nodes|
    ensures SortEach(nodes, le)[i] == SortInside(nodes[i], le)
  {
    if i > 0 { SortEachAt(nodes[1..], le, i - 1); }
  }

  /** Sorting moves nodes and sorts inside them, no more. */
  lemma SortNodesMembers(nodes: seq<Node>, le: (string, string) -> bool)
    ensures |SortNodes(nodes, le)| == |nodes|
    ensures forall i :: 0 <= i < |nodes| ==> SortInside(nodes[i], le) in SortNodes(nodes, le)
    ensures forall i :: 0 <= i < |nodes| ==> exists k :: 0 <= k < |nodes| && SortNodes(nodes, le)[i] == SortInside(nodes[k], le)
  {
    hide SortInside;
    var cmp := (a, b) => NodeLe(a, b, le);
    var each := SortEach(nodes, le);
    Sorting.SortPerm(each, cmp);
    forall i | 0 <= i < |nodes| ensures SortInside(nodes[i], le) in SortNodes(nodes, le) {
      SortEachAt(nodes, le, i);
      assert each[i] in each;
      Sorting.SortMembers(each, cmp, each[i]);
    }
    forall i | 0 <= i < |nodes| ensures exists k :: 0 <= k < |nodes| && SortNodes(nodes, le)[i] == SortInside(nodes[k], le) {
      var node := SortNodes(nodes, le)[i];
      Sorting.SortMembers(each, cmp, node);
      var k :| 0 <= k < |each| && each[k] == node;
      SortEachAt(nodes, le, k);
    }
  }

  lemma {:induction false} SortLeaf(nodes: seq<Node>, le: (string, string) -> bool, route: Route, dirs: seq<string>, path: string)
    ensures Leaf(SortNodes(nodes, le), route, dirs, path) <==> Leaf(nodes, route, dirs, path)
    decreases |route|, 1
  {
    hide LeafOf;
    hide SortNodes;
    SortNodesMembers(nodes, le);
    forall i | 0 <= i < |nodes| ensures LeafOf(SortInside(nodes[i], le), route, dirs, path) <==> LeafOf(nodes[i], route, dirs, path) {
      SortLeafOf(nodes[i], le, route, dirs, path);
    }
    var sorted := SortNodes(nodes, le);
    if i :| 0 <= i < |nodes| && LeafOf(nodes[i], route, dirs, path) {
      var k :| 0 <= k < |sorted| && sorted[k] == SortInside(nodes[i], le);
      assert LeafOf(sorted[k], route, dirs, path);
    }
  }

  lemma {:induction false} SortLeafOf(node: Node, le: (string, string) -> bool, route: Route, dirs: seq<string>, path: string)
    ensures LeafOf(SortInside(node, le), route, dirs, path) <==> LeafOf(node, route, dirs, path)
    decreases |route|, 0
  {
    if node.Dir? && |route| > 1 && dirs != [] {
      SortLeaf(node.children, le, route[1..], dirs[1..], path);
    }
  }

  function Map<A, B>(f: A -> B, s: seq<A>): (r: seq<B>)
    ensures |r| == |s| && forall i :: 0 <= i < |s| ==> r[i] == f(s[i])
  {
    seq(|s|, i requires 0 <= i < |s| => f(s[i]))
  }

  lemma {:induction false} InsertMap<A(!new), B>(x: A, s: seq<A>, le: (A, A) -> bool, f: A -> B, leB: (B, B) -> bool)
    requires forall a, b :: le(a, b) == leB(f(a), f(b))
    ensures Map(f, Sorting.Insert(x, s, le)) == Sorting.Insert(f(x), Map(f, s), leB)
  {
    if s != [] {
      InsertMap(x, s[1..], le, f, leB);
      assert Map(f, s)[1..] == Map(f, s[1..]);
    }
  }

  /** Sorting by a key sorts the keys. */
  lemma {:induction false} SortMap<A(!new), B>(s: seq<A>, le: (A, A) -> bool, f: A -> B, leB: (B, B) -> bool)
    requires forall a, b :: le(a, b) == leB(f(a), f(b))
    ensures Map(f, Sorting.Sort(s, le)) == Sorting.Sort(Map(f, s), leB)
  {
    if s != [] {
      SortMap(s[1..], le, f, leB);
      InsertMap(s[0], Sorting.Sort(s[1..], le), le, f, leB);
      assert Map(f, s)[1..] == Map(f, s[1..]);
    }
  }

  /** Descending before sorting gives what the source gets by sorting before descending. */
  lemma SortThenDescend(nodes: seq<Node>, le: (string, string) -> bool)
    ensures SortNodes(nodes, le) == Map(node => SortInside(node, le), Sorting.Sort(nodes, (a, b) => NodeLe(a, b, le)))
  {
    hide SortInside;
    var f := (node: Node) => SortInside(node, le);
    SortMap(nodes, (a: Node, b: Node) => NodeLe(a, b, le), f, (a: Node, b: Node) => NodeLe(a, b, le));
    forall i | 0 <= i < |nodes| ensures SortEach(nodes, le)[i] == f(nodes[i]) { SortEachAt(nodes, le, i); }
    assert SortEach(nodes, le) == Map(f, nodes);
  }

  lemma SortUnique(nodes: seq<Node>, le: (string, string) -> bool)
    requires Unique(nodes)
    ensures Unique(SortNodes(nodes, le))
  {
    hide SortInside;
    var each := SortEach(nodes, le);
    var cmp, keyCmp := (a: Node, b: Node) => NodeLe(a, b, le), (a: Key, b: Key) => KeyLe(a, b, le);
    SortMap(each, cmp, KeyOf, keyCmp);
    forall i | 0 <= i < |nodes| ensures KeyOf(each[i]) == KeyOf(nodes[i]) { SortEachAt(nodes, le, i); }
    assert Sorting.Distinct(Map(KeyOf, each));
    Sorting.SortDistinct(Map(KeyOf, each), keyCmp);
    var sorted := Sorting.Sort(each, cmp);
    forall i, j | 0 <= i < j < |sorted| ensures KeyOf(sorted[i]) != KeyOf(sorted[j]) {
      assert Map(KeyOf, sorted)[i] != Map(KeyOf, sorted)[j];
    }
  }

  lemma {:induction false} SortValid(nodes: seq<Node>, acc: string, le: (string, string) -> bool)
    requires Valid(nodes, acc)
    ensures Valid(SortNodes(nodes, le), acc)
    decreases nodes
  {
    hide Unique;
    hide SortNodes;
    SortUnique(nodes, le);
    SortNodesMembers(nodes, le);
    forall i | 0 <= i < |nodes| ensures ValidNode(SortInside(nodes[i], le), acc) {
      if nodes[i].Dir? {
        SortValid(nodes[i].children, nodes[i].path, le);
        SortNodesMembers(nodes[i].children, le);
      }
    }
  }

  /** Every level comes out ordered. */
  lemma {:induction false} SortOrdered(nodes: seq<Node>, le: (string, string) -> bool)
    requires Sorting.TotalPreorder(le)
    ensures Ordered(SortNodes(nodes, le), le)
    decreases nodes
  {
    hide Sorting.TotalPreorder;
    var cmp := (a: Node, b: Node) => NodeLe(a, b, le);
    NodePreorder(le);
    Sorting.SortSorted(SortEach(nodes, le), cmp);
    SortNodesMembers(nodes, le);
    forall i | 0 <= i < |nodes| ensures OrderedIn(SortInside(nodes[i], le), le) {
      if nodes[i].Dir? { SortOrdered(nodes[i].children, le); }
    }
    var sorted := SortNodes(nodes, le);
    forall i, j | 0 <= i < j < |nodes|
      ensures sorted[i].File? ==> sorted[j].File?
      ensures sorted[i].Dir? == sorted[j].Dir? ==> le(sorted[i].name, sorted[j].name)
    {
      assert cmp(SortNodes(nodes, le)[i], SortNodes(nodes, le)[j]);
    }
  }

  lemma NodePreorder(le: (string, string) -> bool)
    requires Sorting.TotalPreorder(le)
    ensures Sorting.TotalPreorder((a: Node, b: Node) => NodeLe(a, b, le))
  {
  }

  // ---- building ------------------------------------------------------------------------------------

  /** The tree holds the routes of `items`, each once: the path of the first item taken as that route, below
      exactly the directories of the route. */
  ghost predicate Holds(nodes: seq<Node>, items: seq<Item>, prefix: string) {
    forall route, dirs, path :: Leaf(nodes, route, dirs, path) <==>
      FirstWith(items, prefix, route) == Some(path) && dirs == Chain(prefix, route)
  }

  ghost predicate HasRoutes(nodes: seq<Node>, items: seq<Item>, prefix: string) {
    forall route :: HasRoute(nodes, route) <==> FirstWith(items, prefix, route).Some?
  }

  lemma AddItem(nodes: seq<Node>, items: seq<Item>, item: Item, prefix: string)
    requires Valid(nodes, prefix) && Holds(nodes, items, prefix) && HasRoutes(nodes, items, prefix)
    ensures var route := RouteOf(item, prefix);
            var after := if route.Some? then Insert(nodes, prefix, route.value, item.path) else nodes;
            Valid(after, prefix) && Holds(after, items + [item], prefix) && HasRoutes(after, items + [item], prefix)
  {
    hide Valid;
    hide Leaf;
    hide HasRoute;
    hide Chain;
    hide Insert;
    hide RouteOf;
    var added := RouteOf(item, prefix);
    var after := if added.Some? then Insert(nodes, prefix, added.value, item.path) else nodes;
    if added.Some? { InsertValid(nodes, prefix, added.value, item.path); }
    assert (items + [item])[..|items|] == items;
    forall route
      ensures HasRoute(after, route) <==> FirstWith(items + [item], prefix, route).Some?
    {
      assert HasRoute(nodes, route) <==> FirstWith(items, prefix, route).Some?;
      if added.Some? { InsertLeaf(nodes, prefix, added.value, item.path, route, [], ""); }
    }
    forall route, dirs, path
      ensures Leaf(after, route, dirs, path) <==> FirstWith(items + [item], prefix, route) == Some(path) && dirs == Chain(prefix, route)
    {
      assert HasRoute(nodes, route) <==> FirstWith(items, prefix, route).Some?;
      if added.Some? { InsertLeaf(nodes, prefix, added.value, item.path, route, dirs, path); }
    }
  }

  method BuildNestedTree(items: seq<Item>, rootPrefix: string, le: (string, string) -> bool) returns (root: seq<Node>)
    ensures Valid(root, Normalized(rootPrefix))
    ensures Sorting.TotalPreorder(le) ==> Ordered(root, le)
    ensures Holds(root, items, Normalized(rootPrefix))
  {
    hide Valid;
    hide Leaf;
    hide Holds;
    hide HasRoutes;
    hide Insert;
    hide SortNodes;
    var prefix := Normalized(rootPrefix);
    root := [];
    EmptyTree(prefix);
    for k := 0 to |items|
      invariant Valid(root, prefix) && Holds(root, items[..k], prefix) && HasRoutes(root, items[..k], prefix)
    {
      AddItem(root, items[..k], items[k], prefix);
      assert items[..k + 1] == items[..k] + [items[k]];
      var route := RouteOf(items[k], prefix);
      if route.Some? { root := Insert(root, prefix, route.value, items[k].path); }
    }
    assert items[..|items|] == items;
    SortValid(root, prefix, le);
    if Sorting.TotalPreorder(le) { SortOrdered(root, le); }
    SortHolds(root, le, items, prefix);
    root := SortNodes(root, le);
  }

  lemma SortHolds(nodes: seq<Node>, le: (string, string) -> bool, items: seq<Item>, prefix: string)
    requires Holds(nodes, items, prefix)
    ensures Holds(SortNodes(nodes, le), items, prefix)
  {
    hide Leaf;
    hide SortNodes;
    forall route, dirs, path ensures Leaf(SortNodes(nodes, le), route, dirs, path) <==> Leaf(nodes, route, dirs, path) {
      SortLeaf(nodes, le, route, dirs, path);
    }
  }

  lemma EmptyTree(prefix: string)
    ensures Valid([], prefix) && Holds([], [], prefix) && HasRoutes([], [], prefix)
  {
    hide LeafOf;
    hide HasRouteIn;
    forall route, dirs, path ensures !Leaf([], route, dirs, path) {}
    forall route ensures !HasRoute([], route) {}
  }

  // ---- what the tree is for -----------------------------------------------------------------------

  /** `ancestorDirPaths`. */
  method AncestorDirPaths(filePath: string) returns (dirs: seq<string>)
    ensures dirs == Chain("", Parts(filePath))
  {
    hide Extend;
    var parts := Parts(filePath);
    if |parts| <= 1 { return []; }
    dirs := [];
    var acc := "";
    for i := 0 to |parts| - 1
      invariant Chain("", parts) == dirs + Chain(acc, parts[i..])
    {
      ChainStep(acc, parts, i, dirs);
      acc := Extend(acc, parts[i]);
      dirs := dirs + [acc];
    }
  }

  lemma ChainStep(acc: string, parts: Route, i: nat, dirs: seq<string>)
    requires i + 1 < |parts|
    ensures var here := Extend(acc, parts[i]); dirs + Chain(acc, parts[i..]) == dirs + [here] + Chain(here, parts[i + 1..])
  {
    var here := Extend(acc, parts[i]);
    assert parts[i..][0] == parts[i] && parts[i..][1..] == parts[i + 1..];
    assert Chain(acc, parts[i..]) == [here] + Chain(here, parts[i + 1..]);
  }

  /** The directories of a route are its proper prefixes, joined. */
  lemma {:induction false} ChainIsJoins(acc: string, route: Route, i: nat)
    requires i + 1 < |route| && forall k :: 0 <= k < |route| ==> route[k] != ""
    ensures |Chain(acc, route)| == |route| - 1 && Chain(acc, route)[i] == Extend(acc, Join(route[..i + 1], SLASH))
    decreases |route|
  {
    var here := Extend(acc, route[0]);
    var rest := route[1..];
    if |route| > 2 { ChainIsJoins(here, rest, if i == 0 then 0 else i - 1); }
    if i == 0 {
      assert route[..1] == [route[0]];
    } else {
      assert route[..i + 1][1..] == rest[..i];
      ExtendAssociates(acc, route[0], Join(rest[..i], SLASH));
    }
  }

  lemma ExtendAssociates(acc: string, name: string, tail: string)
    requires name != ""
    ensures Extend(Extend(acc, name), tail) == Extend(acc, name + SLASH + tail)
  {
    assert acc + SLASH + name + SLASH + tail == acc + SLASH + (name + SLASH + tail);
  }

  lemma {:induction false} FirstIsTaken(items: seq<Item>, prefix: string, route: Route)
    ensures FirstWith(items, prefix, route).Some? <==> exists k :: 0 <= k < |items| && RouteOf(items[k], prefix) == Some(route)
    ensures forall path :: FirstWith(items, prefix, route) == Some(path) ==>
              exists k :: 0 <= k < |items| && RouteOf(items[k], prefix) == Some(route) && path == items[k].path
                && forall j :: 0 <= j < k ==> RouteOf(items[j], prefix) != Some(route)
    decreases |items|
  {
    hide RouteOf;
    if items != [] {
      var last := |items| - 1;
      FirstIsTaken(items[..last], prefix, route);
      assert forall k :: 0 <= k < last ==> items[..last][k] == items[k];
      if FirstWith(items[..last], prefix, route).Some? {
        var k :| 0 <= k < last && RouteOf(items[..last][k], prefix) == Some(route)
          && FirstWith(items[..last], prefix, route) == Some(items[..last][k].path)
          && forall j :: 0 <= j < k ==> RouteOf(items[..last][j], prefix) != Some(route);
        assert items[..last][k] == items[k];
      } else {
        forall j | 0 <= j < last ensures RouteOf(items[j], prefix) != Some(route) { assert items[..last][j] == items[j]; }
      }
    }
  }

  /** Where a file ends up: names joined by slashes, below the prefix if there is one, make a leaf of the last
      name below directories of the others, whatever else the tree holds. */
  lemma FileLandsAtItsPath(root: seq<Node>, items: seq<Item>, prefix: string, names: seq<string>, k: nat)
    requires Holds(root, items, prefix) && Names(names) && k < |items| && !items[k].isDir
    requires items[k].path == if prefix == "" then Join(names, SLASH) else prefix + SLASH + Join(names, SLASH)
    requires forall j :: 0 <= j < k ==> RouteOf(items[j], prefix) != Some(names)
    ensures Leaf(root, names, Chain(prefix, names), items[k].path)
  {
    hide Leaf;
    hide Chain;
    hide Parts;
    PartsOfJoin(names);
    if prefix != "" { RouteBelowPrefix(items[k], prefix, Join(names, SLASH)); }
    assert RouteOf(items[k], prefix) == Some(names);
    FirstIsTaken(items, prefix, names);
    var path :| FirstWith(items, prefix, names) == Some(path);
    var i :| 0 <= i < |items| && RouteOf(items[i], prefix) == Some(names) && path == items[i].path
      && forall j :: 0 <= j < i ==> RouteOf(items[j], prefix) != Some(names);
    assert i == k;
  }

  /** Without a prefix, the directories above a leaf are `ancestorDirPaths` of its path. */
  lemma DirsAreAncestors(root: seq<Node>, items: seq<Item>, route: Route, dirs: seq<string>, path: string)
    requires Holds(root, items, "") && Leaf(root, route, dirs, path)
    ensures route == Parts(path) && dirs == Chain("", Parts(path))
  {
    hide Leaf;
    hide Chain;
    FirstIsTaken(items, "", route);
  }

  // ---- counting --------------------------------------------------------------------------------------

  /** The routes of the leaves. */
  function Routes(nodes: seq<Node>): set<Route> {
    if nodes == [] then {}
    else Routes(nodes[..|nodes| - 1]) + RoutesIn(nodes[|nodes| - 1])
  }

  function RoutesIn(node: Node): set<Route> {
    match node
    case File(name, _) => {[name]}
    case Dir(name, _, children) => set r | r in Routes(children) :: [name] + r
  }

  /** `countTreeFiles`: in a tree without twin siblings it counts the distinct routes. */
  method CountTreeFiles(nodes: seq<Node>, ghost acc: string) returns (n: nat)
    requires Valid(nodes, acc)
    ensures n == |Routes(nodes)|
    decreases nodes
  {
    n := 0;
    for i := 0 to |nodes|
      invariant n == |Routes(nodes[..i])|
    {
      assert nodes[..i + 1][..i] == nodes[..i];
      RoutesApart(nodes, i);
      match nodes[i]
      case File(_, _) => n := n + 1;
      case Dir(name, path, children) =>
        var inside := CountTreeFiles(children, path);
        PrefixedCount(name, Routes(children));
        n := n + inside;
    }
    assert nodes[..|nodes|] == nodes;
  }

  lemma {:induction false} PrefixedCount(name: string, routes: set<Route>)
    ensures |set r | r in routes :: [name] + r| == |routes|
  {
    var image := set r | r in routes :: [name] + r;
    if routes != {} {
      var one :| one in routes;
      PrefixedCount(name, routes - {one});
      assert image == (set r | r in routes - {one} :: [name] + r) + {[name] + one};
      forall r | r in routes - {one} ensures [name] + r != [name] + one {
        assert ([name] + r)[1..] == r && ([name] + one)[1..] == one;
      }
    }
  }

  lemma {:induction false} RoutesMember(nodes: seq<Node>, route: Route)
    ensures route in Routes(nodes) <==> exists i :: 0 <= i < |nodes| && route in RoutesIn(nodes[i])
    decreases |nodes|
  {
    hide RoutesIn;
    if nodes != [] {
      var last := |nodes| - 1;
      RoutesMember(nodes[..last], route);
      assert forall i :: 0 <= i < last ==> nodes[..last][i] == nodes[i];
    }
  }

  lemma {:induction false} RoutesNonEmpty(nodes: seq<Node>, route: Route)
    requires route in Routes(nodes)
    ensures route != []
  {
    RoutesMember(nodes, route);
  }

  lemma RouteKey(node: Node, route: Route)
    requires route in RoutesIn(node)
    ensures route != [] && KeyOf(node) == Key(|route| > 1, route[0])
  {
    if node.Dir? {
      var r :| r in Routes(node.children) && route == [node.name] + r;
      RoutesNonEmpty(node.children, r);
    }
  }

  lemma RoutesApart(nodes: seq<Node>, i: nat)
    requires Unique(nodes) && i < |nodes|
    ensures Routes(nodes[..i]) !! RoutesIn(nodes[i])
  {
    forall route | route in Routes(nodes[..i]) && route in RoutesIn(nodes[i]) ensures false {
      RoutesMember(nodes[..i], route);
      var k :| 0 <= k < i && route in RoutesIn(nodes[..i][k]);
      RouteKey(nodes[k], route);
      RouteKey(nodes[i], route);
      assert false;
    }
  }

  lemma {:induction false} RoutesAreRoutes(nodes: seq<Node>, route: Route)
    ensures route in Routes(nodes) <==> HasRoute(nodes, route)
    decreases |route|
  {
    RoutesMember(nodes, route);
    forall i | 0 <= i < |nodes| ensures route in RoutesIn(nodes[i]) <==> HasRouteIn(nodes[i], route) {
      if nodes[i].Dir? {
        if route in RoutesIn(nodes[i]) {
          RouteKey(nodes[i], route);
          RoutesAreRoutes(nodes[i].children, route[1..]);
        }
        if |route| > 1 && route[0] == nodes[i].name {
          RoutesAreRoutes(nodes[i].children, route[1..]);
          assert route == [route[0]] + route[1..];
        }
      }
    }
  }

  lemma {:induction false} LeafHasRoute(nodes: seq<Node>, route: Route)
    ensures HasRoute(nodes, route) <==> exists dirs, path :: Leaf(nodes, route, dirs, path)
    decreases |route|
  {
    if HasRoute(nodes, route) {
      var i :| 0 <= i < |nodes| && HasRouteIn(nodes[i], route);
      match nodes[i]
      case File(_, path) =>
        assert LeafOf(nodes[i], route, [], path);
        assert Leaf(nodes, route, [], path);
      case Dir(_, here, children) =>
        LeafHasRoute(children, route[1..]);
        var dirs, path :| Leaf(children, route[1..], dirs, path);
        assert ([here] + dirs)[1..] == dirs;
        assert LeafOf(nodes[i], route, [here] + dirs, path);
        assert Leaf(nodes, route, [here] + dirs, path);
    }
    if dirs, path :| Leaf(nodes, route, dirs, path) {
      var i :| 0 <= i < |nodes| && LeafOf(nodes[i], route, dirs, path);
      if nodes[i].Dir? {
        assert Leaf(nodes[i].children, route[1..], dirs[1..], path);
        LeafHasRoute(nodes[i].children, route[1..]);
      }
      assert HasRouteIn(nodes[i], route);
    }
  }

  /** The routes of the accepted items; the tree has exactly these, so counting its files counts them. */
  function Accepted(items: seq<Item>, prefix: string): set<Route> {
    set k | 0 <= k < |items| && RouteOf(items[k], prefix).Some? :: RouteOf(items[k], prefix).value
  }

  lemma TreeHoldsAccepted(root: seq<Node>, items: seq<Item>, prefix: string)
    requires Holds(root, items, prefix)
    ensures Routes(root) == Accepted(items, prefix)
  {
    hide Leaf;
    hide HasRoute;
    hide Routes;
    hide RouteOf;
    hide Chain;
    forall route ensures route in Routes(root) <==> route in Accepted(items, prefix) {
      RoutesAreRoutes(root, route);
      LeafHasRoute(root, route);
      FirstIsTaken(items, prefix, route);
      if path :| FirstWith(items, prefix, route) == Some(path) {
        assert Leaf(root, route, Chain(prefix, route), path);
      }
    }
  }
}
