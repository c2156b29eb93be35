/** The configuration-path gatherer of utils/print-introspected-doxygen.cc: a depth-first
    search over the registered types that enumerates every simple path from a root. */
module TypeGraph {
  import opened Collections

  /** Type names are unique in the registry, so a TypeId is its name. */
  datatype TypeId = TypeId(name: string)

  /** The two attribute checkers the search follows, and all the others. */
  datatype Checker = PointerTo(pointee: TypeId) | ContainerOf(item: TypeId) | Plain

  datatype Attribute = Attribute(name: string, checker: Checker)

  /** An edge of the type graph: the path component it contributes and where it leads. */
  datatype Edge = Edge(part: string, target: TypeId)

  /** The introspection database together with the recorded aggregations. */
  datatype Graph = Graph(
    registered: seq<TypeId>,
    attributes: map<TypeId, seq<Attribute>>,
    childOf: set<(TypeId, TypeId)>,
    objectType: TypeId,
    aggregates: seq<(TypeId, TypeId)>)
  {
    function Types(): set<TypeId> {
      set t | t in registered
    }

    function Attributes(t: TypeId): seq<Attribute> {
      if t in attributes then attributes[t] else []
    }

    /** Everything a type refers to is itself registered. */
    ghost predicate WellFormed() {
      forall t {:trigger Targets(Edges(t))} | t in Types() :: Targets(Edges(t))
    }

    ghost predicate Targets(edges: seq<Edge>) {
      forall e | e in edges :: e.target in Types()
    }

    function AttributeEdges(attrs: seq<Attribute>): seq<Edge> {
      if attrs == [] then []
      else
        var last := attrs[|attrs| - 1];
        AttributeEdges(attrs[..|attrs| - 1]) +
        match last.checker {
          case PointerTo(pointee) => if pointee == objectType then [] else [Edge(last.name, pointee)]
          case ContainerOf(item) => [Edge(last.name + "/[i]", item)]
          case Plain => []
        }
    }

    function ChildEdges(t: TypeId, types: seq<TypeId>): seq<Edge> {
      if types == [] then []
      else
        var last := types[|types| - 1];
        ChildEdges(t, types[..|types| - 1]) +
        if (last, t) in childOf then [Edge("$" + last.name, last)] else []
    }

    function AggregateEdges(t: TypeId, pairs: seq<(TypeId, TypeId)>): seq<Edge> {
      if pairs == [] then []
      else
        var last := pairs[|pairs| - 1];
        AggregateEdges(t, pairs[..|pairs| - 1]) +
        if last.1 == t then [Edge("$" + last.0.name, last.0)]
        else if last.0 == t then [Edge("$" + last.1.name, last.1)]
        else []
    }

    /** All edges out of a type, in the order in which the search takes them. */
    function Edges(t: TypeId): seq<Edge> {
      AttributeEdges(Attributes(t)) + ChildEdges(t, registered) + AggregateEdges(t, aggregates)
    }

    // ---- Labelled paths ----

    // A path is named by the edge taken at each type, as a position in Edges: two parallel
    // edges, even two with the same part, make two paths.

    /** The types a path visits; it ends early where the path names an edge that is not there. */
    function Nodes(root: TypeId, path: seq<nat>): seq<TypeId>
      decreases |path|
    {
      if path == [] || path[0] >= |Edges(root)| then [root]
      else [root] + Nodes(Edges(root)[path[0]].target, path[1..])
    }

    function Labels(root: TypeId, path: seq<nat>): seq<string>
      decreases |path|
    {
      if path == [] || path[0] >= |Edges(root)| then []
      else [Edges(root)[path[0]].part] + Labels(Edges(root)[path[0]].target, path[1..])
    }

    function End(root: TypeId, path: seq<nat>): TypeId
      decreases |path|
    {
      if path == [] || path[0] >= |Edges(root)| then root
      else End(Edges(root)[path[0]].target, path[1..])
    }

    /** A path of existing edges that visits no type twice and no type of `seen`. */
    ghost predicate IsSimple(root: TypeId, seen: set<TypeId>, path: seq<nat>) {
      var nodes := Nodes(root, path);
      |nodes| == |path| + 1 && Distinct(nodes) && forall t | t in nodes :: t !in seen
    }

    // ---- What the search visits ----

    /** The paths searched from `t` while the types of `seen` are on the stack. */
    ghost function Paths(t: TypeId, seen: set<TypeId>): seq<seq<nat>>
      requires WellFormed() && t in Types()
      decreases |Types() - seen|, 0, 0
    {
      if t in seen then []
      else
        assert Types() - (seen + {t}) < Types() - seen;
        SubsetCardinality(Types() - (seen + {t}), Types() - seen);
        [[]] + Onward(Edges(t), seen + {t})
    }

    /** The paths that begin with one of the given edges. */
    ghost function Onward(edges: seq<Edge>, seen: set<TypeId>): seq<seq<nat>>
      requires WellFormed() && Targets(edges)
      decreases |Types() - seen|, 1, |edges|
    {
      if edges == [] then []
      else
        var k := |edges| - 1;
        Onward(edges[..k], seen) + Extend(k, Paths(edges[k].target, seen))
    }

    /** The output entry of a path found below the path components `prefix`. */
    ghost function Record(t: TypeId, prefix: seq<string>, path: seq<nat>): (TypeId, string) {
      (End(t, path), Render(prefix + Labels(t, path)))
    }

    ghost function Records(t: TypeId, prefix: seq<string>, paths: seq<seq<nat>>): seq<(TypeId, string)> {
      seq(|paths|, i requires 0 <= i < |paths| => Record(t, prefix, paths[i]))
    }

    /** The entries of gatherings from several roots, one after the other. */
    ghost function RecordsOfRoots(roots: seq<TypeId>): seq<(TypeId, string)>
      requires WellFormed() && forall r | r in roots :: r in Types()
    {
      if roots == [] then []
      else
        var last := roots[|roots| - 1];
        RecordsOfRoots(roots[..|roots| - 1]) + Records(last, [], Paths(last, {}))
    }

    /** A route follows an edge of each type to the next and visits no type twice. */
    ghost predicate IsRoute(root: TypeId, nodes: seq<TypeId>, edges: seq<Edge>) {
      && |nodes| == |edges| + 1 && nodes[0] == root && Distinct(nodes)
      && forall i | 0 <= i < |edges| :: IsLeg(nodes, edges, i)
    }

    ghost predicate IsLeg(nodes: seq<TypeId>, edges: seq<Edge>, i: nat)
      requires i < |edges| && |nodes| == |edges| + 1
    {
      edges[i] in Edges(nodes[i]) && edges[i].target == nodes[i + 1]
    }

    /** A route leads from the root to the type, and the text is a slash and the component of each of its edges. */
    ghost predicate Leads(root: TypeId, tid: TypeId, text: string) {
      exists nodes, edges ::
        IsRoute(root, nodes, edges) && nodes[|edges|] == tid && IsRendering(PartsOf(edges), text)
    }
  }

  function PartsOf(edges: seq<Edge>): seq<string> {
    seq(|edges|, i requires 0 <= i < |edges| => edges[i].part)
  }

  /** The text falls into one piece for each component: a slash and the component. */
  ghost predicate IsRendering(parts: seq<string>, text: string) {
    exists cuts :: CutsInto(parts, text, cuts)
  }

  ghost predicate CutsInto(parts: seq<string>, text: string, cuts: seq<nat>) {
    && |cuts| == |parts| + 1 && cuts[0] == 0 && cuts[|parts|] == |text|
    && forall i | 0 <= i < |parts| :: IsPiece(parts[i], text, cuts[i], cuts[i + 1])
  }

  predicate IsPiece(part: string, text: string, from: nat, to: nat) {
    from <= to <= |text| && text[from..to] == "/" + part
  }

  /** A path component list as printed: each component preceded by a slash. */
  function Render(parts: seq<string>): string {
    if parts == [] then "" else Render(parts[..|parts| - 1]) + "/" + parts[|parts| - 1]
  }

  /** Cutting off the last component. */
  lemma CutLast(parts: seq<string>, text: string, cuts: seq<nat>) returns (before: string, rest: seq<nat>)
    requires parts != [] && CutsInto(parts, text, cuts)
    ensures text == before + "/" + parts[|parts| - 1] && CutsInto(parts[..|parts| - 1], before, rest)
  {
    var k := |parts| - 1;
    before, rest := text[..cuts[k]], cuts[..k + 1];
    assert IsPiece(parts[k], text, cuts[k], cuts[k + 1]);
    assert text == before + text[cuts[k]..|text|];
    forall i | 0 <= i < k ensures IsPiece(parts[..k][i], before, cuts[i], cuts[i + 1]) {
      assert IsPiece(parts[i], text, cuts[i], cuts[i + 1]);
      CutsGrow(parts, text, cuts, i + 1, k);
      assert before[cuts[i]..cuts[i + 1]] == text[cuts[i]..cuts[i + 1]];
    }
  }

  lemma {:induction false} CutsGrow(parts: seq<string>, text: string, cuts: seq<nat>, i: nat, j: nat)
    requires CutsInto(parts, text, cuts) && i <= j <= |parts|
    ensures cuts[i] <= cuts[j]
    decreases j
  {
    if i < j {
      assert IsPiece(parts[j - 1], text, cuts[j - 1], cuts[j - 1 + 1]);
      CutsGrow(parts, text, cuts, i, j - 1);
    }
  }

  lemma CutMore(parts: seq<string>, text: string, cuts: seq<nat>, part: string)
    requires CutsInto(parts, text, cuts)
    ensures var next := text + "/" + part;
            CutsInto(parts + [part], next, cuts + [|next|])
  {
    var next, all := text + "/" + part, cuts + [|text + "/" + part|];
    forall i | 0 <= i < |parts| + 1 ensures IsPiece((parts + [part])[i], next, all[i], all[i + 1]) {
      if i < |parts| {
        assert IsPiece(parts[i], text, cuts[i], cuts[i + 1]);
        assert next[cuts[i]..cuts[i + 1]] == text[cuts[i]..cuts[i + 1]];
      } else {
        assert next[|text|..|next|] == "/" + part;
      }
    }
  }

  /** There is one such text for each list of components. */
  lemma {:induction false} RenderingIff(parts: seq<string>, text: string)
    ensures IsRendering(parts, text) <==> text == Render(parts)
  {
    hide CutsInto;
    if parts == [] {
      NothingCut(text);
    } else {
      var k := |parts| - 1;
      var rendered := Render(parts[..k]);
      RenderingIff(parts[..k], rendered);
      var cuts :| CutsInto(parts[..k], rendered, cuts);
      CutMore(parts[..k], rendered, cuts, parts[k]);
      assert parts == parts[..k] + [parts[k]];
      if IsRendering(parts, text) {
        var others :| CutsInto(parts, text, others);
        var before, rest := CutLast(parts, text, others);
        RenderingIff(parts[..k], before);
      }
    }
  }

  lemma NothingCut(text: string)
    ensures IsRendering([], text) <==> text == ""
  {
    if text == "" {
      assert CutsInto([], text, [0]);
    }
  }

  /** Rendering one component, and two lists after each other. */
  lemma {:induction false} RenderConcat(a: seq<string>, b: seq<string>)
    ensures Render(a + b) == Render(a) + Render(b)
  {
    if b == [] {
      assert a + b == a;
    } else {
      var k := |b| - 1;
      assert (a + b)[..|a| + k] == a + b[..k];
      RenderConcat(a, b[..k]);
    }
  }

  lemma RenderOne(part: string)
    ensures Render([part]) == "/" + part
  {
    assert [part][..0] == [];
  }

  // ---- Routes are paths ----

  /** The edges of a path. */
  function Followed(g: Graph, root: TypeId, path: seq<nat>): seq<Edge>
    decreases |path|
  {
    if path == [] || path[0] >= |g.Edges(root)| then []
    else [g.Edges(root)[path[0]]] + Followed(g, g.Edges(root)[path[0]].target, path[1..])
  }

  lemma {:induction false} PathIsRoute(g: Graph, root: TypeId, path: seq<nat>)
    requires |g.Nodes(root, path)| == |path| + 1
    ensures var nodes, edges := g.Nodes(root, path), Followed(g, root, path);
            && |edges| == |path| && nodes[0] == root && nodes[|path|] == g.End(root, path)
            && PartsOf(edges) == g.Labels(root, path)
            && forall i | 0 <= i < |edges| :: g.IsLeg(nodes, edges, i)
    decreases |path|
  {
    hide Graph.Edges;
    if path != [] {
      var e := g.Edges(root)[path[0]];
      PathIsRoute(g, e.target, path[1..]);
      var nodes, edges := g.Nodes(root, path), Followed(g, root, path);
      var below, after := g.Nodes(e.target, path[1..]), Followed(g, e.target, path[1..]);
      assert PartsOf(edges) == [e.part] + PartsOf(after);
      assert nodes == [root] + below && edges == [e] + after;
      forall i | 0 <= i < |edges| ensures g.IsLeg(nodes, edges, i) {
        if i > 0 {
          assert g.IsLeg(below, after, i - 1);
          assert nodes[i] == below[i - 1] && nodes[i + 1] == below[i] && edges[i] == after[i - 1];
        } else {
          assert nodes[1] == below[0];
        }
      }
    }
  }

  lemma {:induction false} RouteIsPath(g: Graph, root: TypeId, nodes: seq<TypeId>, edges: seq<Edge>)
    returns (path: seq<nat>)
    requires |nodes| == |edges| + 1 && nodes[0] == root && forall i | 0 <= i < |edges| :: g.IsLeg(nodes, edges, i)
    ensures g.Nodes(root, path) == nodes && |path| == |edges|
    ensures g.Labels(root, path) == PartsOf(edges) && g.End(root, path) == nodes[|edges|]
    decreases |edges|
  {
    hide Graph.Edges;
    if edges == [] {
      return [];
    }
    assert g.IsLeg(nodes, edges, 0);
    var k :| 0 <= k < |g.Edges(root)| && g.Edges(root)[k] == edges[0];
    forall i | 0 <= i < |edges[1..]| ensures g.IsLeg(nodes[1..], edges[1..], i) {
      assert g.IsLeg(nodes, edges, i + 1);
    }
    var rest := RouteIsPath(g, nodes[1], nodes[1..], edges[1..]);
    path := [k] + rest;
    assert path[1..] == rest;
    assert PartsOf(edges) == [edges[0].part] + PartsOf(edges[1..]);
  }

  /** The routes are the simple paths, and their texts the renderings of the path components. */
  lemma LeadsIff(g: Graph, root: TypeId, tid: TypeId, text: string)
    ensures g.Leads(root, tid, text) <==>
            exists path ::
              g.IsSimple(root, {}, path) && tid == g.End(root, path) && text == Render(g.Labels(root, path))
  {
    hide Graph.Edges, IsRendering, PartsOf;
    if path :| g.IsSimple(root, {}, path) && tid == g.End(root, path) && text == Render(g.Labels(root, path)) {
      PathIsRoute(g, root, path);
      RenderingIff(g.Labels(root, path), text);
      assert g.IsRoute(root, g.Nodes(root, path), Followed(g, root, path));
    }
    if nodes, edges :| g.IsRoute(root, nodes, edges) && nodes[|edges|] == tid && IsRendering(PartsOf(edges), text) {
      var path := RouteIsPath(g, root, nodes, edges);
      RenderingIff(PartsOf(edges), text);
      assert g.IsSimple(root, {}, path);
    }
  }

  ghost function Extend(k: nat, paths: seq<seq<nat>>): seq<seq<nat>> {
    seq(|paths|, i requires 0 <= i < |paths| => [k] + paths[i])
  }

  /** Lexicographic order on paths: the order of a depth-first search that reports a type before
      what lies below it. */
  ghost predicate Before(p: seq<nat>, q: seq<nat>) {
    q != [] && (p == [] || p[0] < q[0] || (p[0] == q[0] && Before(p[1..], q[1..])))
  }

  ghost predicate InOrder(paths: seq<seq<nat>>) {
    forall i, j | 0 <= i < j < |paths| :: Before(paths[i], paths[j])
  }

  // ---- The edges, described independently of the search order ----

  lemma {:induction false} AttributeEdgesMembers(g: Graph, attrs: seq<Attribute>, e: Edge)
    ensures e in g.AttributeEdges(attrs) <==>
            exists a :: a in attrs && (
                  (a.checker == PointerTo(e.target) && e.target != g.objectType && e.part == a.name) ||
                  (a.checker == ContainerOf(e.target) && e.part == a.name + "/[i]"))
  {
    if attrs != [] {
      var k := |attrs| - 1;
      AttributeEdgesMembers(g, attrs[..k], e);
      assert attrs == attrs[..k] + [attrs[k]];
    }
  }

  lemma {:induction false} ChildEdgesMembers(g: Graph, t: TypeId, types: seq<TypeId>, e: Edge)
    ensures e in g.ChildEdges(t, types) <==>
            e.target in types && (e.target, t) in g.childOf && e.part == "$" + e.target.name
  {
    if types != [] {
      var k := |types| - 1;
      ChildEdgesMembers(g, t, types[..k], e);
      assert types == types[..k] + [types[k]];
    }
  }

  lemma {:induction false} AggregateEdgesMembers(g: Graph, t: TypeId, pairs: seq<(TypeId, TypeId)>, e: Edge)
    ensures e in g.AggregateEdges(t, pairs) <==>
            ((t, e.target) in pairs || (e.target, t) in pairs) && e.part == "$" + e.target.name
  {
    if pairs != [] {
      var k := |pairs| - 1;
      AggregateEdgesMembers(g, t, pairs[..k], e);
      assert pairs == pairs[..k] + [pairs[k]];
    }
  }

  /** The edges of a type are exactly the four kinds the search follows; a pointer to the plain
      object type is none of them. */
  lemma EdgeKinds(g: Graph, t: TypeId, e: Edge)
    ensures e in g.Edges(t) <==>
            || (exists a :: a in g.Attributes(t) && a.checker == PointerTo(e.target) &&
                            e.target != g.objectType && e.part == a.name)
            || (exists a :: a in g.Attributes(t) && a.checker == ContainerOf(e.target) && e.part == a.name + "/[i]")
            || (e.target in g.registered && (e.target, t) in g.childOf && e.part == "$" + e.target.name)
            || (((t, e.target) in g.aggregates || (e.target, t) in g.aggregates) && e.part == "$" + e.target.name)
  {
    AttributeEdgesMembers(g, g.Attributes(t), e);
    ChildEdgesMembers(g, t, g.registered, e);
    AggregateEdgesMembers(g, t, g.aggregates, e);
  }

  // ---- The order of the edges ----

  lemma {:induction false} AttributeEdgesConcat(g: Graph, a: seq<Attribute>, b: seq<Attribute>)
    ensures g.AttributeEdges(a + b) == g.AttributeEdges(a) + g.AttributeEdges(b)
  {
    if b == [] {
      assert a + b == a;
    } else {
      var k := |b| - 1;
      assert (a + b)[..|a| + k] == a + b[..k];
      AttributeEdgesConcat(g, a, b[..k]);
    }
  }

  lemma {:induction false} ChildEdgesConcat(g: Graph, t: TypeId, a: seq<TypeId>, b: seq<TypeId>)
    ensures g.ChildEdges(t, a + b) == g.ChildEdges(t, a) + g.ChildEdges(t, b)
  {
    if b == [] {
      assert a + b == a;
    } else {
      var k := |b| - 1;
      assert (a + b)[..|a| + k] == a + b[..k];
      ChildEdgesConcat(g, t, a, b[..k]);
    }
  }

  lemma {:induction false} AggregateEdgesConcat(g: Graph, t: TypeId, a: seq<(TypeId, TypeId)>, b: seq<(TypeId, TypeId)>)
    ensures g.AggregateEdges(t, a + b) == g.AggregateEdges(t, a) + g.AggregateEdges(t, b)
  {
    if b == [] {
      assert a + b == a;
    } else {
      var k := |b| - 1;
      assert (a + b)[..|a| + k] == a + b[..k];
      AggregateEdgesConcat(g, t, a, b[..k]);
    }
  }

  /** The edge of one attribute, one registered type and one aggregation: at most one each. */
  lemma OneEdgeEach(g: Graph, t: TypeId, a: Attribute, child: TypeId, pair: (TypeId, TypeId))
    ensures |g.AttributeEdges([a])| <= 1 && |g.ChildEdges(t, [child])| <= 1 && |g.AggregateEdges(t, [pair])| <= 1
  {
    assert [a][..0] == [] && [child][..0] == [] && [pair][..0] == [];
  }

  /** The edges in the order in which they are followed: those of the attributes, of the registered children and of the
      aggregations, each in the order in which they are recorded and at most one for each. */
  lemma EdgesInOrder(g: Graph, t: TypeId, e: Edge, k: nat)
    requires k < |g.Edges(t)| && g.Edges(t)[k] == e
    ensures var m, n := |g.AttributeEdges(g.Attributes(t))|, |g.ChildEdges(t, g.registered)|;
            && (k < m ==> exists i :: 0 <= i < |g.Attributes(t)| &&
                                      k == |g.AttributeEdges(g.Attributes(t)[..i])| &&
                                      g.AttributeEdges([g.Attributes(t)[i]]) == [e])
            && (m <= k < m + n ==> exists i :: 0 <= i < |g.registered| &&
                                               k == m + |g.ChildEdges(t, g.registered[..i])| &&
                                               g.ChildEdges(t, [g.registered[i]]) == [e])
            && (m + n <= k ==> exists i :: 0 <= i < |g.aggregates| &&
                                           k == m + n + |g.AggregateEdges(t, g.aggregates[..i])| &&
                                           g.AggregateEdges(t, [g.aggregates[i]]) == [e])
  {
    var m, n := |g.AttributeEdges(g.Attributes(t))|, |g.ChildEdges(t, g.registered)|;
    if k < m {
      var i := AttributeOfEdge(g, g.Attributes(t), k);
    } else if k < m + n {
      var i := ChildOfEdge(g, t, g.registered, k - m);
    } else {
      var i := AggregateOfEdge(g, t, g.aggregates, k - m - n);
    }
  }

  lemma {:induction false} AttributeOfEdge(g: Graph, attrs: seq<Attribute>, k: nat) returns (i: nat)
    requires k < |g.AttributeEdges(attrs)|
    ensures i < |attrs| && k == |g.AttributeEdges(attrs[..i])|
    ensures g.AttributeEdges([attrs[i]]) == [g.AttributeEdges(attrs)[k]]
  {
    var n := |attrs| - 1;
    assert attrs == attrs[..n] + [attrs[n]];
    AttributeEdgesConcat(g, attrs[..n], [attrs[n]]);
    if k < |g.AttributeEdges(attrs[..n])| {
      i := AttributeOfEdge(g, attrs[..n], k);
      assert attrs[..n][..i] == attrs[..i];
    } else {
      i := n;
      assert [attrs[n]][..0] == [];
    }
  }

  lemma {:induction false} ChildOfEdge(g: Graph, t: TypeId, types: seq<TypeId>, k: nat) returns (i: nat)
    requires k < |g.ChildEdges(t, types)|
    ensures i < |types| && k == |g.ChildEdges(t, types[..i])|
    ensures g.ChildEdges(t, [types[i]]) == [g.ChildEdges(t, types)[k]]
  {
    var n := |types| - 1;
    assert types == types[..n] + [types[n]];
    ChildEdgesConcat(g, t, types[..n], [types[n]]);
    if k < |g.ChildEdges(t, types[..n])| {
      i := ChildOfEdge(g, t, types[..n], k);
      assert types[..n][..i] == types[..i];
    } else {
      i := n;
      assert [types[n]][..0] == [];
    }
  }

  lemma {:induction false} AggregateOfEdge(g: Graph, t: TypeId, pairs: seq<(TypeId, TypeId)>, k: nat) returns (i: nat)
    requires k < |g.AggregateEdges(t, pairs)|
    ensures i < |pairs| && k == |g.AggregateEdges(t, pairs[..i])|
    ensures g.AggregateEdges(t, [pairs[i]]) == [g.AggregateEdges(t, pairs)[k]]
  {
    var n := |pairs| - 1;
    assert pairs == pairs[..n] + [pairs[n]];
    AggregateEdgesConcat(g, t, pairs[..n], [pairs[n]]);
    if k < |g.AggregateEdges(t, pairs[..n])| {
      i := AggregateOfEdge(g, t, pairs[..n], k);
      assert pairs[..n][..i] == pairs[..i];
    } else {
      i := n;
      assert [pairs[n]][..0] == [];
    }
  }

  // ---- The search finds exactly the simple paths ----

  lemma {:induction false} OnwardMembers(g: Graph, edges: seq<Edge>, seen: set<TypeId>, path: seq<nat>)
    requires g.WellFormed() && g.Targets(edges)
    ensures path in g.Onward(edges, seen) <==>
            path != [] && path[0] < |edges| && path[1..] in g.Paths(edges[path[0]].target, seen)
    decreases |edges|
  {
    hide Graph.WellFormed, Graph.Types, Graph.Paths, Graph.Edges;
    if edges != [] {
      var k := |edges| - 1;
      OnwardMembers(g, edges[..k], seen, path);
      var below := g.Paths(edges[k].target, seen);
      if path != [] && path[0] == k && path[1..] in below {
        var i :| 0 <= i < |below| && below[i] == path[1..];
        assert Extend(k, below)[i] == path;
      }
    }
  }

  /** Prefixing a type: a path is simple from `root` exactly when its first edge exists and the rest
      is simple from there with `root` on the stack. */
  lemma SimpleStep(g: Graph, root: TypeId, seen: set<TypeId>, path: seq<nat>)
    requires path != [] && root !in seen
    ensures g.IsSimple(root, seen, path) <==>
            path[0] < |g.Edges(root)| && g.IsSimple(g.Edges(root)[path[0]].target, seen + {root}, path[1..])
  {
    if path[0] < |g.Edges(root)| {
      var nodes := g.Nodes(root, path);
      var rest := g.Nodes(g.Edges(root)[path[0]].target, path[1..]);
      assert nodes == [root] + rest;
      assert forall i | 0 <= i < |rest| :: nodes[i + 1] == rest[i];
      if g.IsSimple(root, seen, path) {
        forall i, j | 0 <= i < j < |rest| ensures rest[i] != rest[j] {
          assert nodes[i + 1] != nodes[j + 1];
        }
        forall i | 0 <= i < |rest| ensures rest[i] !in seen + {root} {
          assert nodes[i + 1] in nodes && nodes[0] != nodes[i + 1];
        }
      }
    }
  }

  /** Soundness and completeness of the search. */
  lemma {:induction false} PathsAreSimplePaths(g: Graph, root: TypeId, seen: set<TypeId>, path: seq<nat>)
    requires g.WellFormed() && root in g.Types()
    ensures path in g.Paths(root, seen) <==> g.IsSimple(root, seen, path)
    decreases |path|
  {
    assert g.Nodes(root, path)[0] == root;
    if root in seen {
      assert root in g.Nodes(root, path);
    } else if path != [] {
      OnwardMembers(g, g.Edges(root), seen + {root}, path);
      SimpleStep(g, root, seen, path);
      if path[0] < |g.Edges(root)| {
        assert g.Targets(g.Edges(root)) && g.Edges(root)[path[0]] in g.Edges(root);
        PathsAreSimplePaths(g, g.Edges(root)[path[0]].target, seen + {root}, path[1..]);
      }
    }
  }

  /** Each path is found once, in depth-first order. */
  lemma {:induction false} PathsInOrder(g: Graph, t: TypeId, seen: set<TypeId>)
    requires g.WellFormed() && t in g.Types()
    ensures InOrder(g.Paths(t, seen))
    decreases |g.Types() - seen|, 0, 0
  {
    if t !in seen {
      assert g.Types() - (seen + {t}) < g.Types() - seen;
      SubsetCardinality(g.Types() - (seen + {t}), g.Types() - seen);
      OnwardInOrder(g, g.Edges(t), seen + {t});
      var onward := g.Onward(g.Edges(t), seen + {t});
      forall j | 0 <= j < |onward| ensures onward[j] != [] {
        OnwardMembers(g, g.Edges(t), seen + {t}, onward[j]);
      }
    }
  }

  lemma {:induction false} OnwardInOrder(g: Graph, edges: seq<Edge>, seen: set<TypeId>)
    requires g.WellFormed() && g.Targets(edges)
    ensures InOrder(g.Onward(edges, seen))
    decreases |g.Types() - seen|, 1, |edges|
  {
    hide Graph.WellFormed, Graph.Types, Graph.Edges, Graph.Paths, InOrder, Extend;
    if edges == [] {
      NothingInOrder();
    } else {
      var k := |edges| - 1;
      OnwardInOrder(g, edges[..k], seen);
      PathsInOrder(g, edges[k].target, seen);
      var earlier := g.Onward(edges[..k], seen);
      forall p | p in earlier ensures p != [] && p[0] < k {
        OnwardMembers(g, edges[..k], seen, p);
      }
      AppendInOrder(earlier, k, g.Paths(edges[k].target, seen));
    }
  }

  lemma NothingInOrder()
    ensures InOrder([])
  {
  }

  /** Paths that begin with a later edge come after those that begin with earlier ones. */
  lemma AppendInOrder(earlier: seq<seq<nat>>, k: nat, below: seq<seq<nat>>)
    requires InOrder(earlier) && InOrder(below)
    requires forall p | p in earlier :: p != [] && p[0] < k
    ensures InOrder(earlier + Extend(k, below))
  {
    var later := Extend(k, below);
    forall i, j | 0 <= i < j < |earlier + later| ensures Before((earlier + later)[i], (earlier + later)[j]) {
      if i < |earlier| {
        assert earlier[i] in earlier;
      } else {
        assert Before(below[i - |earlier|], below[j - |earlier|]);
        assert later[i - |earlier|][1..] == below[i - |earlier|];
        assert later[j - |earlier|][1..] == below[j - |earlier|];
      }
    }
  }

  lemma {:induction false} BeforeIrreflexive(p: seq<nat>)
    ensures !Before(p, p)
  {
    if p != [] {
      BeforeIrreflexive(p[1..]);
    }
  }

  /** What one gathering from an empty stack reports: one entry for each simple path from the root
      and nothing else, each entry naming the path's last type and rendering its components. */
  lemma GatherReportsEverySimplePathOnce(g: Graph, root: TypeId)
    requires g.WellFormed() && root in g.Types()
    ensures Distinct(g.Paths(root, {}))
    ensures forall path :: path in g.Paths(root, {}) <==> g.IsSimple(root, {}, path)
    ensures forall t, text :: (t, text) in g.Records(root, [], g.Paths(root, {})) <==> g.Leads(root, t, text)
  {
    hide Graph.WellFormed, Graph.Types, Graph.Targets, Graph.Edges, Graph.Paths, Graph.IsSimple, Graph.Leads, Before;
    var paths := g.Paths(root, {});
    PathsInOrder(g, root, {});
    forall i, j | 0 <= i < j < |paths| ensures paths[i] != paths[j] {
      BeforeIrreflexive(paths[i]);
      assert Before(paths[i], paths[j]);
    }
    forall path ensures path in paths <==> g.IsSimple(root, {}, path) {
      PathsAreSimplePaths(g, root, {}, path);
    }
    forall path: seq<nat> ensures [] + g.Labels(root, path) == g.Labels(root, path) {
    }
    var records := g.Records(root, [], paths);
    forall t, text ensures (t, text) in records <==> g.Leads(root, t, text) {
      LeadsIff(g, root, t, text);
      if (t, text) in records {
        var i :| 0 <= i < |records| && records[i] == (t, text);
        assert paths[i] in paths;
      }
      if g.Leads(root, t, text) {
        var path :| g.IsSimple(root, {}, path) && t == g.End(root, path) && text == Render(g.Labels(root, path));
        var i :| 0 <= i < |paths| && paths[i] == path;
        assert records[i] == (t, text);
      }
    }
  }

  // ---- The gatherer ----

  /** Following one more edge appends the entries found below it, under a stack that has grown by the
      type and by the edge's part. */
  lemma OnwardRecords(g: Graph, t: TypeId, prefix: seq<string>, done: seq<Edge>, e: Edge, seen: set<TypeId>)
    requires g.WellFormed() && t in g.Types() && done + [e] <= g.Edges(t)
    ensures g.Targets(done) && g.Targets(done + [e]) && e.target in g.Types()
    ensures g.Records(t, prefix, g.Onward(done + [e], seen)) ==
            g.Records(t, prefix, g.Onward(done, seen)) + g.Records(e.target, prefix + [e.part], g.Paths(e.target, seen))
  {
    hide Graph.Paths, Graph.AttributeEdges, Graph.ChildEdges, Graph.AggregateEdges, Graph.Types, Render;
    var k := |done|;
    assert g.Targets(g.Edges(t)) && g.Edges(t)[k] == e;
    forall d | d in done + [e] ensures d in g.Edges(t) {
      var i :| 0 <= i <= k && (done + [e])[i] == d;
      assert g.Edges(t)[i] == d;
    }
    var paths := g.Paths(e.target, seen);
    forall i | 0 <= i < |paths|
      ensures g.Record(t, prefix, Extend(k, paths)[i]) == g.Record(e.target, prefix + [e.part], paths[i])
    {
      var path := Extend(k, paths)[i];
      assert path[1..] == paths[i];
      assert prefix + g.Labels(t, path) == prefix + [e.part] + g.Labels(e.target, paths[i]);
    }
    assert (done + [e])[..k] == done;
  }

  lemma RecordsCons(g: Graph, t: TypeId, prefix: seq<string>, paths: seq<seq<nat>>)
    ensures g.Records(t, prefix, [[]] + paths) == [(t, Render(prefix))] + g.Records(t, prefix, paths)
  {
    assert prefix + [] == prefix;
  }

  lemma {:induction false} AttributePrefix(g: Graph, attrs: seq<Attribute>, i: nat)
    requires i <= |attrs|
    ensures g.AttributeEdges(attrs[..i]) <= g.AttributeEdges(attrs)
  {
    if i == |attrs| {
      assert attrs[..i] == attrs;
    } else {
      AttributePrefix(g, attrs[..|attrs| - 1], i);
      assert attrs[..|attrs| - 1][..i] == attrs[..i];
    }
  }

  lemma TargetsOfPrefix(g: Graph, t: TypeId, done: seq<Edge>)
    requires g.WellFormed() && t in g.Types() && done <= g.Edges(t)
    ensures g.Targets(done)
    ensures done != [] ==> done[|done| - 1].target in g.Types()
  {
    assert g.Targets(g.Edges(t));
    forall e | e in done ensures e in g.Edges(t) {
      var i :| 0 <= i < |done| && done[i] == e;
      assert g.Edges(t)[i] == e;
    }
    if done != [] {
      assert done[|done| - 1] in done;
    }
  }

  /** Pushing a new type keeps the stack free of repetition and leaves fewer types off it. */
  lemma PushElement(stack: seq<TypeId>, t: TypeId, types: set<TypeId>)
    requires Distinct(stack) && t !in stack && t in types
    ensures Distinct(stack + [t]) && (stack + [t])[..|stack|] == stack
    ensures Elements(stack + [t]) == Elements(stack) + {t}
    ensures |types - Elements(stack + [t])| < |types - Elements(stack)|
  {
    assert Elements(stack + [t]) == Elements(stack) + {t};
    assert t in types - Elements(stack);
    SubsetCardinality(types - Elements(stack + [t]), types - Elements(stack));
  }

  lemma {:induction false} ChildPrefix(g: Graph, t: TypeId, types: seq<TypeId>, i: nat)
    requires i <= |types|
    ensures g.ChildEdges(t, types[..i]) <= g.ChildEdges(t, types)
  {
    if i == |types| {
      assert types[..i] == types;
    } else {
      ChildPrefix(g, t, types[..|types| - 1], i);
      assert types[..|types| - 1][..i] == types[..i];
    }
  }

  lemma {:induction false} AggregatePrefix(g: Graph, t: TypeId, pairs: seq<(TypeId, TypeId)>, i: nat)
    requires i <= |pairs|
    ensures g.AggregateEdges(t, pairs[..i]) <= g.AggregateEdges(t, pairs)
  {
    if i == |pairs| {
      assert pairs[..i] == pairs;
    } else {
      AggregatePrefix(g, t, pairs[..|pairs| - 1], i);
      assert pairs[..|pairs| - 1][..i] == pairs[..i];
    }
  }

  lemma StartEdges(g: Graph, t: TypeId, prefix: seq<string>, seen: set<TypeId>)
    requires g.WellFormed()
    ensures g.AttributeEdges(g.Attributes(t)[..0]) == [] && g.Targets([])
    ensures g.ChildEdges(t, g.registered[..0]) == [] && g.AggregateEdges(t, g.aggregates[..0]) == []
    ensures g.Records(t, prefix, g.Onward([], seen)) == []
  {
  }

  lemma EdgesAre(g: Graph, t: TypeId)
    ensures g.Edges(t) ==
            g.AttributeEdges(g.Attributes(t)) + g.ChildEdges(t, g.registered) + g.AggregateEdges(t, g.aggregates)
  {
  }

  lemma AttributeStep(g: Graph, t: TypeId, i: nat)
    requires i < |g.Attributes(t)|
    ensures var attrs := g.Attributes(t);
            var done, next := g.AttributeEdges(attrs[..i]), g.AttributeEdges(attrs[..i + 1]);
            && next <= g.Edges(t)
            && next == match attrs[i].checker {
                         case PointerTo(pointee) =>
                           if pointee == g.objectType then done else done + [Edge(attrs[i].name, pointee)]
                         case ContainerOf(item) => done + [Edge(attrs[i].name + "/[i]", item)]
                         case Plain => done
                       }
  {
    var attrs := g.Attributes(t);
    assert attrs[..i + 1][..i] == attrs[..i];
    AttributePrefix(g, attrs, i + 1);
  }

  lemma ChildStep(g: Graph, t: TypeId, j: nat)
    requires j < |g.registered|
    ensures var child, own := g.registered[j], g.AttributeEdges(g.Attributes(t));
            var done, next := own + g.ChildEdges(t, g.registered[..j]), own + g.ChildEdges(t, g.registered[..j + 1]);
            && next <= g.Edges(t)
            && next == if (child, t) in g.childOf then done + [Edge("$" + child.name, child)] else done
  {
    assert g.registered[..j + 1][..j] == g.registered[..j];
    ChildPrefix(g, t, g.registered, j + 1);
  }

  lemma AggregateStep(g: Graph, t: TypeId, j: nat)
    requires j < |g.aggregates|
    ensures var pair, own := g.aggregates[j], g.AttributeEdges(g.Attributes(t)) + g.ChildEdges(t, g.registered);
            var done := own + g.AggregateEdges(t, g.aggregates[..j]);
            var next := own + g.AggregateEdges(t, g.aggregates[..j + 1]);
            && next <= g.Edges(t)
            && next == if pair.1 == t then done + [Edge("$" + pair.0.name, pair.0)]
                       else if pair.0 == t then done + [Edge("$" + pair.1.name, pair.1)]
                       else done
  {
    assert g.aggregates[..j + 1][..j] == g.aggregates[..j];
    AggregatePrefix(g, t, g.aggregates, j + 1);
  }

  lemma AggregationKeepsWellFormed(g: Graph, a: TypeId, b: TypeId)
    requires g.WellFormed() && a in g.Types() && b in g.Types()
    ensures g.(aggregates := g.aggregates + [(a, b)]).WellFormed()
  {
    var g' := g.(aggregates := g.aggregates + [(a, b)]);
    forall t | t in g'.Types() ensures g'.Targets(g'.Edges(t)) {
      assert g.Targets(g.Edges(t));
      forall e | e in g'.Edges(t) ensures e.target in g'.Types() {
        EdgeKinds(g, t, e);
        EdgeKinds(g', t, e);
      }
    }
  }

  /** The texts recorded for one type, in order. */
  function TextsOf(records: seq<(TypeId, string)>, tid: TypeId): seq<string> {
    if records == [] then []
    else
      var last := records[|records| - 1];
      TextsOf(records[..|records| - 1], tid) + if last.0 == tid then [last.1] else []
  }

  lemma {:induction false} TextsOfMembers(records: seq<(TypeId, string)>, tid: TypeId, text: string)
    ensures text in TextsOf(records, tid) <==> (tid, text) in records
  {
    if records != [] {
      TextsOfMembers(records[..|records| - 1], tid, text);
      assert records == records[..|records| - 1] + [records[|records| - 1]];
    }
  }

  /** Reading keeps the order: the texts are those of the entries with the type, in the order of the entries. */
  lemma {:induction false} TextsConcat(a: seq<(TypeId, string)>, b: seq<(TypeId, string)>, tid: TypeId)
    ensures TextsOf(a + b, tid) == TextsOf(a, tid) + TextsOf(b, tid)
  {
    if b == [] {
      assert a + b == a;
    } else {
      var k := |b| - 1;
      assert (a + b)[..|a| + k] == a + b[..k] && (a + b)[|a| + k] == b[k];
      TextsConcat(a, b[..k], tid);
      var last := if b[k].0 == tid then [b[k].1] else [];
      assert TextsOf(a + b, tid) == (TextsOf(a, tid) + TextsOf(b[..k], tid)) + last;
    }
  }

  lemma TextsOne(t: TypeId, text: string, tid: TypeId)
    ensures TextsOf([(t, text)], tid) == if t == tid then [text] else []
  {
    assert [(t, text)][..0] == [];
  }

  class StaticInformation {
    var output: seq<(TypeId, string)>
    var currentPath: seq<string>
    var alreadyProcessed: seq<TypeId>
    var graph: Graph
    var noTids: seq<string>

    ghost predicate Valid()
      reads this
    {
      && graph.WellFormed()
      && |currentPath| == |alreadyProcessed|
      && Distinct(alreadyProcessed)
      && forall t | t in alreadyProcessed :: t in graph.Types()
    }

    constructor (graph: Graph)
      requires graph.WellFormed()
      ensures Valid() && this.graph == graph
      ensures output == [] && currentPath == [] && alreadyProcessed == [] && noTids == []
    {
      this.graph := graph;
      output, currentPath, alreadyProcessed, noTids := [], [], [], [];
    }

    /** The components of the current path, each after a slash. */
    method GetCurrentPath() returns (text: string)
      ensures text == Render(currentPath) && IsRendering(currentPath, text)
    {
      RenderingIff(currentPath, Render(currentPath));
      hide IsRendering;
      text := "";
      for i := 0 to |currentPath|
        invariant text == Render(currentPath[..i])
      {
        assert currentPath[..i + 1][..i] == currentPath[..i];
        text := text + "/" + currentPath[i];
      }
      assert currentPath[..|currentPath|] == currentPath;
    }

    method RecordOutput(tid: TypeId)
      modifies this`output
      ensures output == old(output) + [(tid, Render(currentPath))]
    {
      var text := GetCurrentPath();
      output := output + [(tid, text)];
    }

    method HasAlreadyBeenProcessed(tid: TypeId) returns (found: bool)
      ensures found <==> tid in alreadyProcessed
    {
      for i := 0 to |alreadyProcessed|
        invariant tid !in alreadyProcessed[..i]
      {
        if alreadyProcessed[i] == tid {
          return true;
        }
      }
      return false;
    }

    /** Pushes an edge of `tid`, searches its target and pops the edge again. The edges in `done` were
        followed before, with `base` the output before them. */
    method Descend(tid: TypeId, part: string, target: TypeId, ghost done: seq<Edge>, ghost base: seq<(TypeId, string)>)
      requires Valid() && tid in graph.Types() && tid !in alreadyProcessed
      requires graph.Targets(done) && done + [Edge(part, target)] <= graph.Edges(tid)
      requires output == base + graph.Records(tid, currentPath, graph.Onward(done, Elements(alreadyProcessed) + {tid}))
      modifies this`output, this`currentPath, this`alreadyProcessed
      ensures currentPath == old(currentPath) && alreadyProcessed == old(alreadyProcessed)
      ensures graph.Targets(done + [Edge(part, target)])
      ensures output == base +
                        graph.Records(tid, currentPath,
                                      graph.Onward(done + [Edge(part, target)], Elements(alreadyProcessed) + {tid}))
      decreases |graph.Types() - Elements(alreadyProcessed)|, 0
    {
      hide Graph.WellFormed, Graph.Types, Graph.Targets, Graph.Edges, Graph.Paths, Graph.Onward, Graph.Records;
      hide Distinct, Elements;
      PushElement(alreadyProcessed, tid, graph.Types());
      OnwardRecords(graph, tid, currentPath, done, Edge(part, target), Elements(alreadyProcessed) + {tid});
      currentPath := currentPath + [part];
      alreadyProcessed := alreadyProcessed + [tid];
      DoGather(target);
      alreadyProcessed := alreadyProcessed[..|alreadyProcessed| - 1];
      currentPath := currentPath[..|currentPath| - 1];
      assert currentPath == old(currentPath);
    }

    /** Follows every edge of `tid`: the loops over its attributes, the registered types and the
        aggregations. */
    method GatherEdges(tid: TypeId)
      requires Valid() && tid in graph.Types() && tid !in alreadyProcessed
      modifies this`output, this`currentPath, this`alreadyProcessed
      ensures currentPath == old(currentPath) && alreadyProcessed == old(alreadyProcessed)
      ensures graph.Targets(graph.Edges(tid))
      ensures output == old(output) +
                        graph.Records(tid, currentPath,
                                      graph.Onward(graph.Edges(tid), Elements(alreadyProcessed) + {tid}))
      decreases |graph.Types() - Elements(alreadyProcessed)|, 1
    {
      hide Graph.WellFormed, Graph.Types, Graph.Targets, Graph.Edges, Graph.Paths, Graph.Onward, Graph.Records;
      hide Graph.AttributeEdges, Graph.ChildEdges, Graph.AggregateEdges, Distinct, Elements;
      var attrs := graph.Attributes(tid);
      ghost var seen := Elements(alreadyProcessed) + {tid};
      ghost var done: seq<Edge> := [];
      StartEdges(graph, tid, currentPath, seen);
      for i := 0 to |attrs|
        invariant currentPath == old(currentPath) && alreadyProcessed == old(alreadyProcessed)
        invariant done == graph.AttributeEdges(attrs[..i]) && done <= graph.Edges(tid) && graph.Targets(done)
        invariant output == old(output) + graph.Records(tid, currentPath, graph.Onward(done, seen))
      {
        AttributeStep(graph, tid, i);
        match attrs[i].checker {
          case PointerTo(pointee) =>
            if pointee != graph.objectType {
              Descend(tid, attrs[i].name, pointee, done, old(output));
            }
          case ContainerOf(item) =>
            Descend(tid, attrs[i].name + "/[i]", item, done, old(output));
          case Plain =>
        }
        done := graph.AttributeEdges(attrs[..i + 1]);
        TargetsOfPrefix(graph, tid, done);
      }
      assert attrs[..|attrs|] == attrs;
      for j := 0 to |graph.registered|
        invariant currentPath == old(currentPath) && alreadyProcessed == old(alreadyProcessed)
        invariant done == graph.AttributeEdges(attrs) + graph.ChildEdges(tid, graph.registered[..j])
        invariant done <= graph.Edges(tid) && graph.Targets(done)
        invariant output == old(output) + graph.Records(tid, currentPath, graph.Onward(done, seen))
      {
        var child := graph.registered[j];
        ChildStep(graph, tid, j);
        if (child, tid) in graph.childOf {
          Descend(tid, "$" + child.name, child, done, old(output));
        }
        done := graph.AttributeEdges(attrs) + graph.ChildEdges(tid, graph.registered[..j + 1]);
        TargetsOfPrefix(graph, tid, done);
      }
      assert graph.registered[..|graph.registered|] == graph.registered;
      ghost var ownEdges := done;
      for j := 0 to |graph.aggregates|
        invariant currentPath == old(currentPath) && alreadyProcessed == old(alreadyProcessed)
        invariant done == ownEdges + graph.AggregateEdges(tid, graph.aggregates[..j])
        invariant done <= graph.Edges(tid) && graph.Targets(done)
        invariant output == old(output) + graph.Records(tid, currentPath, graph.Onward(done, seen))
      {
        var pair := graph.aggregates[j];
        AggregateStep(graph, tid, j);
        if pair.0 == tid || pair.1 == tid {
          var other := tid;
          if pair.0 == tid {
            other := pair.1;
          }
          if pair.1 == tid {
            other := pair.0;
          }
          Descend(tid, "$" + other.name, other, done, old(output));
        }
        done := ownEdges + graph.AggregateEdges(tid, graph.aggregates[..j + 1]);
        TargetsOfPrefix(graph, tid, done);
      }
      assert graph.aggregates[..|graph.aggregates|] == graph.aggregates;
      EdgesAre(graph, tid);
    }

    /** Restores both stacks and appends the entries of the paths searched from `tid`. */
    method DoGather(tid: TypeId)
      requires Valid() && tid in graph.Types()
      modifies this`output, this`currentPath, this`alreadyProcessed
      ensures currentPath == old(currentPath) && alreadyProcessed == old(alreadyProcessed)
      ensures output == old(output) + graph.Records(tid, currentPath, graph.Paths(tid, Elements(alreadyProcessed)))
      decreases |graph.Types() - Elements(alreadyProcessed)|, 2
    {
      hide Graph.WellFormed, Graph.Types, Graph.Targets, Graph.Edges, Graph.Onward, Distinct;
      var processed := HasAlreadyBeenProcessed(tid);
      if processed {
        return;
      }
      RecordOutput(tid);
      GatherEdges(tid);
      RecordsCons(graph, tid, currentPath, graph.Onward(graph.Edges(tid), Elements(alreadyProcessed) + {tid}));
    }

    /** Gathers from a root. The deduplication that follows in the source works on a copy, so every
        entry stays. */
    method Gather(tid: TypeId)
      requires Valid() && tid in graph.Types() && alreadyProcessed == []
      modifies this`output, this`currentPath, this`alreadyProcessed
      ensures Valid() && currentPath == [] && alreadyProcessed == []
      ensures output == old(output) + graph.Records(tid, [], graph.Paths(tid, {}))
    {
      DoGather(tid);
      assert Elements(alreadyProcessed) == {};
    }

    /** Gathers from each root in turn, as is done for the root namespace objects. */
    method GatherAll(roots: seq<TypeId>)
      requires Valid() && alreadyProcessed == [] && forall r | r in roots :: r in graph.Types()
      modifies this`output, this`currentPath, this`alreadyProcessed
      ensures Valid() && currentPath == [] && alreadyProcessed == []
      ensures output == old(output) + graph.RecordsOfRoots(roots)
    {
      hide Graph.Records, Graph.Paths, Graph.WellFormed, Graph.Types;
      for i := 0 to |roots|
        invariant Valid() && alreadyProcessed == []
        invariant output == old(output) + graph.RecordsOfRoots(roots[..i])
      {
        assert roots[..i + 1][..i] == roots[..i] && roots[i] in roots;
        Gather(roots[i]);
      }
      assert roots[..|roots|] == roots;
    }

    /** The configuration paths gathered for a type, in the order in which they were found. */
    method Get(tid: TypeId) returns (paths: seq<string>)
      ensures paths == TextsOf(output, tid)
    {
      paths := [];
      for i := 0 to |output|
        invariant paths == TextsOf(output[..i], tid)
      {
        assert output[..i + 1][..i] == output[..i];
        if output[i].0 == tid {
          paths := paths + [output[i].1];
        }
      }
      assert output[..|output|] == output;
    }

    /** The names noted, in the order noted and with their repetitions: sorting and deduplication in
        the source work on a copy. */
    method GetNoTypeIds() returns (names: seq<string>)
      ensures names == noTids
    {
      names := noTids;
    }

    /** Adds an aggregation when both names are registered; otherwise notes the first unknown name. */
    method RecordAggregationInfo(a: string, b: string)
      requires Valid()
      modifies this`graph, this`noTids
      ensures Valid()
      ensures TypeId(a) in graph.Types() && TypeId(b) in graph.Types() ==>
                && noTids == old(noTids)
                && graph == old(graph).(aggregates := old(graph).aggregates + [(TypeId(a), TypeId(b))])
      ensures TypeId(a) !in graph.Types() ==> noTids == old(noTids) + [a] && graph == old(graph)
      ensures TypeId(a) in graph.Types() && TypeId(b) !in graph.Types() ==>
                noTids == old(noTids) + [b] && graph == old(graph)
    {
      if TypeId(a) !in graph.Types() {
        noTids := noTids + [a];
        return;
      }
      if TypeId(b) !in graph.Types() {
        noTids := noTids + [b];
        return;
      }
      AggregationKeepsWellFormed(graph, TypeId(a), TypeId(b));
      graph := graph.(aggregates := graph.aggregates + [(TypeId(a), TypeId(b))]);
    }
  }

  lemma {:induction false} RecordsOfRootsMembers(g: Graph, roots: seq<TypeId>, tid: TypeId, text: string)
    requires g.WellFormed() && forall r | r in roots :: r in g.Types()
    ensures (tid, text) in g.RecordsOfRoots(roots) <==> exists r :: r in roots && g.Leads(r, tid, text)
  {
    hide Graph.Records, Graph.Paths, Graph.WellFormed, Graph.Types, Graph.Leads;
    if roots != [] {
      var k := |roots| - 1;
      RecordsOfRootsMembers(g, roots[..k], tid, text);
      GatherReportsEverySimplePathOnce(g, roots[k]);
      assert roots == roots[..k] + [roots[k]];
    }
  }

  /** Reading back: what `Get` returns after gathering from some roots into an empty output is exactly the
      renderings of the simple paths from one of them that end at the type. */
  lemma GetReturnsRenderedSimplePaths(g: Graph, roots: seq<TypeId>, tid: TypeId, text: string)
    requires g.WellFormed() && forall r | r in roots :: r in g.Types()
    ensures text in TextsOf(g.RecordsOfRoots(roots), tid) <==> exists r :: r in roots && g.Leads(r, tid, text)
  {
    RecordsOfRootsMembers(g, roots, tid, text);
    TextsOfMembers(g.RecordsOfRoots(roots), tid, text);
  }

  // ---- The names without a type ----

  /** The call for this pair notes a name. */
  predicate Fails(known: set<TypeId>, pair: (string, string)) {
    TypeId(pair.0) !in known || TypeId(pair.1) !in known
  }

  function FirstUnknown(known: set<TypeId>, pair: (string, string)): string {
    if TypeId(pair.0) !in known then pair.0 else pair.1
  }

  /** The first unknown name of each pair that has one, in the order of the pairs. */
  function UnknownNames(known: set<TypeId>, pairs: seq<(string, string)>): seq<string> {
    if pairs == [] then []
    else
      var noted, last := UnknownNames(known, pairs[..|pairs| - 1]), pairs[|pairs| - 1];
      if Fails(known, last) then noted + [FirstUnknown(known, last)] else noted
  }

  ghost predicate Ascending(names: seq<string>) {
    forall i, j | 0 <= i < j < |names| :: Less(names[i], names[j])
  }

  /** Of any two calls that note a name, the later one notes the greater name. */
  ghost predicate NotedInOrder(known: set<TypeId>, pairs: seq<(string, string)>) {
    forall i, j | 0 <= i < j < |pairs| && Fails(known, pairs[i]) && Fails(known, pairs[j]) ::
      Less(FirstUnknown(known, pairs[i]), FirstUnknown(known, pairs[j]))
  }

  /** The order of strings by their characters. */
  predicate Less(a: string, b: string) {
    b != [] && (a == [] || a[0] < b[0] || (a[0] == b[0] && Less(a[1..], b[1..])))
  }

  /** The documented result for a list of names: the same names, sorted and each once. */
  ghost predicate IsSortedUnique(names: seq<string>, result: seq<string>) {
    Elements(result) == Elements(names) && Ascending(result)
  }

  lemma {:induction false} LessTransitive(a: string, b: string, c: string)
    requires Less(a, b) && Less(b, c)
    ensures Less(a, c)
  {
    if a != [] && a[0] == b[0] == c[0] {
      LessTransitive(a[1..], b[1..], c[1..]);
    }
  }

  lemma {:induction false} LessIrreflexive(a: string)
    ensures !Less(a, a)
  {
    if a != [] {
      LessIrreflexive(a[1..]);
    }
  }

  /** A strictly increasing list is determined by its names. */
  lemma {:induction false} SortedUniqueIsUnique(names: seq<string>, a: seq<string>, b: seq<string>)
    requires IsSortedUnique(names, a) && IsSortedUnique(names, b)
    ensures a == b
    decreases |a|
  {
    if a == [] {
      ElementsEmptyIff(a);
      ElementsEmptyIff(b);
    } else {
      assert a[0] in Elements(b) && b != [];
      FirstIsLeast(names, a, b);
      FirstIsLeast(names, b, a);
      if Less(a[0], b[0]) && Less(b[0], a[0]) {
        LessTransitive(a[0], b[0], a[0]);
        LessIrreflexive(a[0]);
      }
      TailIsSortedUnique(names, a);
      TailIsSortedUnique(names, b);
      SortedUniqueIsUnique(a[1..], a[1..], b[1..]);
      assert a == [a[0]] + a[1..] && b == [b[0]] + b[1..];
    }
  }

  lemma FirstIsLeast(names: seq<string>, a: seq<string>, b: seq<string>)
    requires IsSortedUnique(names, a) && IsSortedUnique(names, b) && a != [] && b != []
    ensures a[0] == b[0] || Less(a[0], b[0])
  {
    assert b[0] in Elements(a);
  }

  lemma TailIsSortedUnique(names: seq<string>, a: seq<string>)
    requires IsSortedUnique(names, a) && a != []
    ensures IsSortedUnique(a[1..], a[1..]) && Elements(a[1..]) == Elements(names) - {a[0]}
  {
    LessIrreflexive(a[0]);
    assert a == [a[0]] + a[1..];
    assert Elements(a) == {a[0]} + Elements(a[1..]);
  }

  lemma {:induction false} UnknownNamesMembers(known: set<TypeId>, pairs: seq<(string, string)>, name: string)
    ensures name in UnknownNames(known, pairs) <==>
            exists i :: 0 <= i < |pairs| && Fails(known, pairs[i]) && FirstUnknown(known, pairs[i]) == name
  {
    hide Fails, FirstUnknown;
    if pairs != [] {
      var k := |pairs| - 1;
      UnknownNamesMembers(known, pairs[..k], name);
      assert forall i | 0 <= i < k :: pairs[..k][i] == pairs[i];
    }
  }

  lemma AscendingAppend(names: seq<string>, last: string)
    ensures Ascending(names + [last]) <==> Ascending(names) && forall name | name in names :: Less(name, last)
  {
    hide Less;
    var all := names + [last];
    if Ascending(all) {
      forall i, j | 0 <= i < j < |names| ensures Less(names[i], names[j]) {
        assert Less(all[i], all[j]);
      }
      forall name | name in names ensures Less(name, last) {
        var i :| 0 <= i < |names| && names[i] == name;
        assert Less(all[i], all[|names|]);
      }
    }
    forall i, j | 0 <= i < j < |all|
      ensures Ascending(names) && (forall name | name in names :: Less(name, last)) ==> Less(all[i], all[j])
    {
      assert all[i] == names[i] && names[i] in names;
      assert j < |names| ==> all[j] == names[j];
    }
  }

  lemma NotedInOrderStep(known: set<TypeId>, pairs: seq<(string, string)>, k: nat)
    requires |pairs| == k + 1
    ensures NotedInOrder(known, pairs) <==>
            && NotedInOrder(known, pairs[..k])
            && (Fails(known, pairs[k]) ==>
                  forall i | 0 <= i < k && Fails(known, pairs[i]) ::
                    Less(FirstUnknown(known, pairs[i]), FirstUnknown(known, pairs[k])))
  {
    hide Fails, FirstUnknown, Less;
    var before := pairs[..k];
    if NotedInOrder(known, pairs) {
      forall i, j | 0 <= i < j < k && Fails(known, before[i]) && Fails(known, before[j])
        ensures Less(FirstUnknown(known, before[i]), FirstUnknown(known, before[j]))
      {
        assert before[i] == pairs[i] && before[j] == pairs[j];
      }
    } else {
      var i, j :| 0 <= i < j < |pairs| && Fails(known, pairs[i]) && Fails(known, pairs[j])
                  && !Less(FirstUnknown(known, pairs[i]), FirstUnknown(known, pairs[j]));
      if j < k {
        assert before[i] == pairs[i] && before[j] == pairs[j];
      }
    }
  }

  /** A name is greater than all the names noted exactly when it is greater than each first unknown name. */
  lemma AllNotedLess(known: set<TypeId>, pairs: seq<(string, string)>, last: string)
    ensures (forall name | name in UnknownNames(known, pairs) :: Less(name, last)) <==>
            forall i | 0 <= i < |pairs| && Fails(known, pairs[i]) :: Less(FirstUnknown(known, pairs[i]), last)
  {
    hide Fails, FirstUnknown, Less, UnknownNames;
    forall name
      ensures name in UnknownNames(known, pairs) <==>
              exists i :: 0 <= i < |pairs| && Fails(known, pairs[i]) && FirstUnknown(known, pairs[i]) == name
    {
      UnknownNamesMembers(known, pairs, name);
    }
  }

  lemma {:induction false} NotedInOrderIff(known: set<TypeId>, pairs: seq<(string, string)>)
    ensures Ascending(UnknownNames(known, pairs)) <==> NotedInOrder(known, pairs)
  {
    hide Fails, FirstUnknown, Less;
    if pairs != [] {
      hide Ascending, NotedInOrder;
      var k := |pairs| - 1;
      var last := FirstUnknown(known, pairs[k]);
      NotedInOrderIff(known, pairs[..k]);
      NotedInOrderStep(known, pairs, k);
      AllNotedLess(known, pairs[..k], last);
      assert forall i | 0 <= i < k :: pairs[..k][i] == pairs[i];
      AscendingAppend(UnknownNames(known, pairs[..k]), last);
    }
  }

  /** The names without a type come as documented, sorted and each once, if and only if of any two calls that note
      a name the later one notes the greater name. */
  lemma NamesAreAsDocumentedIff(known: set<TypeId>, pairs: seq<(string, string)>, documented: seq<string>)
    requires IsSortedUnique(UnknownNames(known, pairs), documented)
    ensures UnknownNames(known, pairs) == documented <==> NotedInOrder(known, pairs)
  {
    hide UnknownNames, NotedInOrder, Ascending;
    var names := UnknownNames(known, pairs);
    NotedInOrderIff(known, pairs);
    if Ascending(names) {
      SortedUniqueIsUnique(names, names, documented);
    }
  }

  /** Two calls that note the same name, such as the two aggregations of the node type with the ICMPv4 protocol when
      the node type is unknown, leave a list that is not as documented. */
  lemma SameNameNotedTwice(known: set<TypeId>, pairs: seq<(string, string)>, i: nat, j: nat, documented: seq<string>)
    requires i < j < |pairs| && pairs[i].0 == pairs[j].0 && TypeId(pairs[i].0) !in known
    requires IsSortedUnique(UnknownNames(known, pairs), documented)
    ensures UnknownNames(known, pairs) != documented
  {
    NamesAreAsDocumentedIff(known, pairs, documented);
    LessIrreflexive(pairs[i].0);
    assert Fails(known, pairs[i]) && Fails(known, pairs[j]);
  }

  /** The pair of calls in the source, with the node type unknown. */
  lemma NodeNotedTwice(known: set<TypeId>)
    requires TypeId("ns3::Node") !in known
    ensures var pair := ("ns3::Node", "ns3::Icmpv4L4Protocol");
            && UnknownNames(known, [pair, pair]) == ["ns3::Node", "ns3::Node"]
            && IsSortedUnique(UnknownNames(known, [pair, pair]), ["ns3::Node"])
  {
    var pair := ("ns3::Node", "ns3::Icmpv4L4Protocol");
    assert [pair, pair][..1] == [pair] && [pair][..0] == [];
    assert UnknownNames(known, [pair]) == ["ns3::Node"];
  }

  /** A new object that is told of some aggregations: the pairs of known types become aggregations in order, and
      the names without a type are the first unknown names of the other pairs. */
  method RecordAggregations(graph: Graph, pairs: seq<(string, string)>)
    returns (aggregates: seq<(TypeId, TypeId)>, names: seq<string>)
    requires graph.WellFormed()
    ensures names == UnknownNames(graph.Types(), pairs)
    ensures aggregates == graph.aggregates + KnownPairs(graph.Types(), pairs)
  {
    var info := new StaticInformation(graph);
    for i := 0 to |pairs|
      invariant fresh(info) && info.Valid() && info.graph.Types() == graph.Types()
      invariant info.noTids == UnknownNames(graph.Types(), pairs[..i])
      invariant info.graph.aggregates == graph.aggregates + KnownPairs(graph.Types(), pairs[..i])
    {
      assert pairs[..i + 1][..i] == pairs[..i];
      info.RecordAggregationInfo(pairs[i].0, pairs[i].1);
    }
    assert pairs[..|pairs|] == pairs;
    names := info.GetNoTypeIds();
    aggregates := info.graph.aggregates;
  }

  function KnownPairs(known: set<TypeId>, pairs: seq<(string, string)>): seq<(TypeId, TypeId)> {
    if pairs == [] then []
    else
      var found, last := KnownPairs(known, pairs[..|pairs| - 1]), pairs[|pairs| - 1];
      if TypeId(last.0) in known && TypeId(last.1) in known then found + [(TypeId(last.0), TypeId(last.1))] else found
  }
}
