/** When the gathered configuration paths repeat an entry. The helper that should keep only unique items works
    on a copy of the list, so whether the list has repetitions is decided by the graph. */
module PathRepetition {
  import opened Collections
  import opened TypeGraph

  // ---- Adding an edge to a path ----

  lemma {:induction false} AppendEdge(g: Graph, root: TypeId, path: seq<nat>, k: nat)
    requires |g.Nodes(root, path)| == |path| + 1 && k < |g.Edges(g.End(root, path))|
    ensures var e := g.Edges(g.End(root, path))[k];
            && g.Nodes(root, path + [k]) == g.Nodes(root, path) + [e.target]
            && g.Labels(root, path + [k]) == g.Labels(root, path) + [e.part]
            && g.End(root, path + [k]) == e.target
    decreases |path|
  {
    hide Graph.Edges;
    if path == [] {
      assert ([k])[1..] == [] && path + [k] == [k];
    } else {
      var next := g.Edges(root)[path[0]].target;
      assert (path + [k])[1..] == path[1..] + [k];
      AppendEdge(g, next, path[1..], k);
    }
  }

  lemma SimpleAppend(g: Graph, root: TypeId, path: seq<nat>, k: nat)
    requires g.IsSimple(root, {}, path) && k < |g.Edges(g.End(root, path))|
    requires g.Edges(g.End(root, path))[k].target !in g.Nodes(root, path)
    ensures g.IsSimple(root, {}, path + [k])
  {
    hide Graph.Edges, Graph.Nodes, Graph.End;
    AppendEdge(g, root, path, k);
  }

  /** From the end of a simple path, two equal edges lead to a type off that path. */
  ghost predicate IsFork(g: Graph, root: TypeId, seen: set<TypeId>, path: seq<nat>, k: nat, l: nat) {
    && g.IsSimple(root, seen, path)
    && k < l < |g.Edges(g.End(root, path))|
    && g.Edges(g.End(root, path))[k] == g.Edges(g.End(root, path))[l]
    && g.Edges(g.End(root, path))[k].target !in g.Nodes(root, path)
    && g.Edges(g.End(root, path))[k].target !in seen
  }

  ghost predicate HasFork(g: Graph, root: TypeId) {
    exists path, k, l :: IsFork(g, root, {}, path, k, l)
  }

  /** The entries of one gathering from an empty stack. */
  ghost function Entries(g: Graph, root: TypeId): seq<(TypeId, string)>
    requires g.WellFormed() && root in g.Types()
  {
    g.Records(root, [], g.Paths(root, {}))
  }

  /** Where a simple path stands among the paths searched. */
  lemma PositionOf(g: Graph, root: TypeId, path: seq<nat>) returns (position: nat)
    requires g.WellFormed() && root in g.Types() && g.IsSimple(root, {}, path)
    ensures position < |g.Paths(root, {})| && g.Paths(root, {})[position] == path
    ensures Entries(g, root)[position] == (g.End(root, path), Render(g.Labels(root, path)))
  {
    hide Graph.IsSimple, Graph.Paths, Graph.Labels, Graph.End, Graph.WellFormed, Graph.Types, Render;
    PathsAreSimplePaths(g, root, {}, path);
    position :| 0 <= position < |g.Paths(root, {})| && g.Paths(root, {})[position] == path;
    assert [] + g.Labels(root, path) == g.Labels(root, path);
  }

  /** A fork gives two entries that name the same type with the same text. */
  lemma ForkRepeatsEntries(g: Graph, root: TypeId, path: seq<nat>, k: nat, l: nat)
    requires g.WellFormed() && root in g.Types() && IsFork(g, root, {}, path, k, l)
    ensures !Distinct(Entries(g, root))
  {
    hide Graph.WellFormed, Graph.Types, Graph.Paths, Graph.Edges, Graph.Nodes, Graph.Labels, Graph.End, Render, Entries;
    SimpleAppend(g, root, path, k);
    SimpleAppend(g, root, path, l);
    AppendEdge(g, root, path, k);
    AppendEdge(g, root, path, l);
    var p := PositionOf(g, root, path + [k]);
    var q := PositionOf(g, root, path + [l]);
    assert (path + [k])[|path|] != (path + [l])[|path|];
    EntriesSize(g, root);
    assert p != q && Entries(g, root)[p] == Entries(g, root)[q];
  }

  lemma EntriesSize(g: Graph, root: TypeId)
    requires g.WellFormed() && root in g.Types()
    ensures |Entries(g, root)| == |g.Paths(root, {})|
  {
  }

  // ---- Names and renderings ----

  /** An attribute name that cannot be taken for anything else in a configuration path. */
  predicate IsPlainName(name: string) {
    '/' !in name && name != "[i]" && (name == [] || name[0] != '$')
  }

  /** The names of a registry: attribute names are plain and differ within a type, and type names have no slash. */
  ghost predicate WellNamed(g: Graph) {
    && (forall t | t in g.Types() :: '/' !in t.name)
    && (forall t, a | t in g.Types() && a in g.Attributes(t) :: IsPlainName(a.name))
    && (forall t, a, b | t in g.Types() && a in g.Attributes(t) && b in g.Attributes(t) && a.name == b.name :: a == b)
  }

  /** A path component: without a slash, or such a name followed by the mark of a container. */
  ghost predicate IsComponent(part: string) {
    ('/' !in part && part != "[i]") || (exists name :: IsContainerPart(part, name))
  }

  predicate IsContainerPart(part: string, name: string) {
    part == name + "/[i]" && '/' !in name
  }

  /** The text after the last slash, and what precedes it, are determined by the whole. */
  lemma LastPartUnique(x: string, a: string, y: string, b: string)
    requires '/' !in a && '/' !in b && x + "/" + a == y + "/" + b
    ensures x == y && a == b
  {
    var s, t := x + "/" + a, y + "/" + b;
    assert s[|x|] == '/' && t[|y|] == '/';
    forall i | |x| < i < |s| ensures s[i] != '/' {
      assert s[i] == a[i - |x| - 1];
    }
    forall i | |y| < i < |t| ensures t[i] != '/' {
      assert t[i] == b[i - |y| - 1];
    }
    assert s[..|x|] == x && t[..|y|] == y && s[|x| + 1..] == a && t[|y| + 1..] == b;
  }

  lemma LastComponentUnique(x: string, a: string, y: string, b: string)
    requires IsComponent(a) && IsComponent(b) && x + "/" + a == y + "/" + b
    ensures x == y && a == b
  {
    if '/' !in a && '/' !in b {
      LastPartUnique(x, a, y, b);
    } else if '/' !in a {
      var m :| IsContainerPart(b, m);
      assert y + "/" + b == (y + "/" + m) + "/" + "[i]";
      LastPartUnique(x, a, y + "/" + m, "[i]");
    } else if '/' !in b {
      var n :| IsContainerPart(a, n);
      assert x + "/" + a == (x + "/" + n) + "/" + "[i]";
      LastPartUnique(x + "/" + n, "[i]", y, b);
    } else {
      var n :| IsContainerPart(a, n);
      var m :| IsContainerPart(b, m);
      assert x + "/" + a == (x + "/" + n) + "/" + "[i]" && y + "/" + b == (y + "/" + m) + "/" + "[i]";
      LastPartUnique(x + "/" + n, "[i]", y + "/" + m, "[i]");
      LastPartUnique(x, n, y, m);
    }
  }

  /** Different component lists have different renderings. */
  lemma {:induction false} RenderInjective(a: seq<string>, b: seq<string>)
    requires forall c | c in a :: IsComponent(c)
    requires forall c | c in b :: IsComponent(c)
    requires Render(a) == Render(b)
    ensures a == b
  {
    hide IsComponent;
    if a != [] && b != [] {
      var k, l := |a| - 1, |b| - 1;
      LastComponentUnique(Render(a[..k]), a[k], Render(b[..l]), b[l]);
      RenderInjective(a[..k], b[..l]);
      assert a == a[..k] + [a[k]] && b == b[..l] + [b[l]];
    }
  }

  lemma EdgeIsComponent(g: Graph, t: TypeId, e: Edge)
    requires g.WellFormed() && WellNamed(g) && t in g.Types() && e in g.Edges(t)
    ensures IsComponent(e.part) && e.target in g.Types()
  {
    hide Graph.Edges;
    assert g.Targets(g.Edges(t));
    EdgeKinds(g, t, e);
    if a :| a in g.Attributes(t) && a.checker == ContainerOf(e.target) && e.part == a.name + "/[i]" {
      assert IsContainerPart(e.part, a.name);
    } else if e.part == "$" + e.target.name {
      assert e.part[0] == '$';
    }
  }

  lemma {:induction false} LabelsAreComponents(g: Graph, t: TypeId, path: seq<nat>)
    requires g.WellFormed() && WellNamed(g) && t in g.Types()
    ensures forall c | c in g.Labels(t, path) :: IsComponent(c)
    decreases |path|
  {
    hide IsComponent, Graph.Edges, WellNamed, Graph.Types;
    if path != [] && path[0] < |g.Edges(t)| {
      var e := g.Edges(t)[path[0]];
      assert e in g.Edges(t);
      EdgeIsComponent(g, t, e);
      LabelsAreComponents(g, e.target, path[1..]);
    }
  }

  predicate FollowedAs(a: Attribute, e: Edge) {
    || (a.checker == PointerTo(e.target) && e.part == a.name)
    || (a.checker == ContainerOf(e.target) && e.part == a.name + "/[i]")
  }

  /** The components of children and aggregations. */
  predicate IsTypePart(part: string) {
    part != [] && part[0] == '$' && '/' !in part
  }

  lemma AttributePart(a: Attribute, e: Edge)
    requires IsPlainName(a.name) && FollowedAs(a, e)
    ensures !IsTypePart(e.part) && ('/' in e.part <==> a.checker.ContainerOf?)
    ensures a.checker.ContainerOf? ==> |a.name| + 4 == |e.part| && e.part[..|a.name|] == a.name
  {
    if a.checker.ContainerOf? {
      assert e.part[|a.name|] == '/';
    }
  }

  /** What the component of an edge says about it. */
  lemma EdgeByPart(g: Graph, t: TypeId, e: Edge)
    requires g.WellFormed() && WellNamed(g) && t in g.Types() && e in g.Edges(t)
    ensures if IsTypePart(e.part) then e.part == "$" + e.target.name
            else exists a :: a in g.Attributes(t) && FollowedAs(a, e)
  {
    hide Graph.Edges;
    assert g.Targets(g.Edges(t));
    EdgeKinds(g, t, e);
    if a :| a in g.Attributes(t) && FollowedAs(a, e) {
      AttributePart(a, e);
    } else {
      assert e.part == "$" + e.target.name && e.target in g.Types();
    }
  }

  /** Two edges of a type with the same component are equal. */
  lemma SamePartSameEdge(g: Graph, t: TypeId, d: Edge, e: Edge)
    requires g.WellFormed() && WellNamed(g) && t in g.Types()
    requires d in g.Edges(t) && e in g.Edges(t) && d.part == e.part
    ensures d == e
  {
    hide Graph.Edges, Graph.WellFormed, Graph.Types;
    EdgeByPart(g, t, d);
    EdgeByPart(g, t, e);
    if IsTypePart(d.part) {
      assert d.part[1..] == d.target.name && e.part[1..] == e.target.name;
    } else {
      var a :| a in g.Attributes(t) && FollowedAs(a, d);
      var b :| b in g.Attributes(t) && FollowedAs(b, e);
      AttributePart(a, d);
      AttributePart(b, e);
      assert a.name == b.name;
    }
  }

  // ---- When entries repeat ----

  /** Two simple paths with the same components part at a fork. */
  lemma {:induction false} SameLabelsFork(g: Graph, t: TypeId, seen: set<TypeId>, p: seq<nat>, q: seq<nat>)
    returns (path: seq<nat>, k: nat, l: nat)
    requires g.WellFormed() && WellNamed(g) && t in g.Types()
    requires g.IsSimple(t, seen, p) && g.IsSimple(t, seen, q) && g.Labels(t, p) == g.Labels(t, q) && p != q
    ensures IsFork(g, t, seen, path, k, l)
    decreases |p|
  {
    LabelsSize(g, t, p);
    LabelsSize(g, t, q);
    hide Graph.WellFormed, WellNamed, Graph.Types, Graph.Edges, Graph.IsSimple;
    HeadNotSeen(g, t, seen, p);
    SimpleStep(g, t, seen, p);
    SimpleStep(g, t, seen, q);
    var d, e := g.Edges(t)[p[0]], g.Edges(t)[q[0]];
    assert d in g.Edges(t) && e in g.Edges(t);
    assert g.Labels(t, p)[0] == d.part && g.Labels(t, q)[0] == e.part;
    SamePartSameEdge(g, t, d, e);
    EdgeIsComponent(g, t, d);
    if p[0] == q[0] {
      assert g.Labels(t, p)[1..] == g.Labels(d.target, p[1..]) && g.Labels(t, q)[1..] == g.Labels(d.target, q[1..]);
      assert p == [p[0]] + p[1..] && q == [q[0]] + q[1..];
      var rest;
      rest, k, l := SameLabelsFork(g, d.target, seen + {t}, p[1..], q[1..]);
      path := [p[0]] + rest;
      ForkBelow(g, t, seen, p[0], rest, k, l);
    } else {
      HeadNotSeen(g, d.target, seen + {t}, p[1..]);
      path, k, l := [], (if p[0] < q[0] then p[0] else q[0]), (if p[0] < q[0] then q[0] else p[0]);
      EmptyIsSimple(g, t, seen);
    }
  }

  lemma {:induction false} LabelsSize(g: Graph, t: TypeId, path: seq<nat>)
    requires |g.Nodes(t, path)| == |path| + 1
    ensures |g.Labels(t, path)| == |path|
    decreases |path|
  {
    hide Graph.Edges;
    if path != [] {
      LabelsSize(g, g.Edges(t)[path[0]].target, path[1..]);
    }
  }

  lemma HeadNotSeen(g: Graph, t: TypeId, seen: set<TypeId>, path: seq<nat>)
    requires g.IsSimple(t, seen, path)
    ensures t !in seen
  {
    assert g.Nodes(t, path)[0] == t;
  }

  lemma EmptyIsSimple(g: Graph, t: TypeId, seen: set<TypeId>)
    requires t !in seen
    ensures g.IsSimple(t, seen, []) && g.Nodes(t, []) == [t] && g.End(t, []) == t
  {
  }

  lemma ForkBelow(g: Graph, t: TypeId, seen: set<TypeId>, i: nat, rest: seq<nat>, k: nat, l: nat)
    requires t !in seen && i < |g.Edges(t)|
    requires IsFork(g, g.Edges(t)[i].target, seen + {t}, rest, k, l)
    ensures IsFork(g, t, seen, [i] + rest, k, l)
  {
    hide Graph.Edges, Graph.IsSimple;
    var path := [i] + rest;
    assert path[1..] == rest;
    SimpleStep(g, t, seen, path);
  }

  /** With the names of a registry, a gathering has no repeated entry if and only if, at the end of every simple
      path from the root, the edges to types off the path are pairwise different. */
  lemma EntriesDistinctIff(g: Graph, root: TypeId)
    requires g.WellFormed() && WellNamed(g) && root in g.Types()
    ensures Distinct(Entries(g, root)) <==> !HasFork(g, root)
  {
    if HasFork(g, root) {
      var path, k, l :| IsFork(g, root, {}, path, k, l);
      ForkRepeatsEntries(g, root, path, k, l);
    }
    if !Distinct(Entries(g, root)) {
      hide Graph.WellFormed, WellNamed, Graph.Types, Graph.Paths, Graph.IsSimple, IsFork, Render;
      var paths := g.Paths(root, {});
      var i, j :| 0 <= i < j < |Entries(g, root)| && Entries(g, root)[i] == Entries(g, root)[j];
      GatherReportsEverySimplePathOnce(g, root);
      var p, q := paths[i], paths[j];
      assert p in paths && q in paths && p != q;
      assert [] + g.Labels(root, p) == g.Labels(root, p) && [] + g.Labels(root, q) == g.Labels(root, q);
      LabelsAreComponents(g, root, p);
      LabelsAreComponents(g, root, q);
      RenderInjective(g.Labels(root, p), g.Labels(root, q));
      var path, k, l := SameLabelsFork(g, root, {}, p, q);
    }
  }

  /** Simple paths from two roots lead to the same type by the same components. */
  ghost predicate MeetAlike(g: Graph, a: TypeId, b: TypeId, p: seq<nat>, q: seq<nat>) {
    && g.IsSimple(a, {}, p) && g.IsSimple(b, {}, q)
    && g.End(a, p) == g.End(b, q) && g.Labels(a, p) == g.Labels(b, q)
  }

  ghost predicate Meet(g: Graph, a: TypeId, b: TypeId) {
    exists p, q :: MeetAlike(g, a, b, p, q)
  }

  ghost predicate NoneMeet(g: Graph, roots: seq<TypeId>) {
    forall i, j | 0 <= i < j < |roots| :: !Meet(g, roots[i], roots[j])
  }

  /** Two roots share an entry exactly when they meet: the text of a path determines its components. */
  lemma MeetIffShare(g: Graph, a: TypeId, b: TypeId)
    requires g.WellFormed() && WellNamed(g) && a in g.Types() && b in g.Types()
    ensures Meet(g, a, b) <==> exists tid, text :: g.Leads(a, tid, text) && g.Leads(b, tid, text)
  {
    hide Graph.WellFormed, WellNamed, Graph.Types, Graph.IsSimple, Graph.Labels, Graph.End, Graph.Leads;
    hide Render, IsComponent;
    if p, q :| MeetAlike(g, a, b, p, q) {
      var tid, text := g.End(a, p), Render(g.Labels(a, p));
      LeadsIff(g, a, tid, text);
      LeadsIff(g, b, tid, text);
      assert g.Leads(a, tid, text) && g.Leads(b, tid, text);
    }
    if tid, text :| g.Leads(a, tid, text) && g.Leads(b, tid, text) {
      LeadsIff(g, a, tid, text);
      LeadsIff(g, b, tid, text);
      var p :| g.IsSimple(a, {}, p) && tid == g.End(a, p) && text == Render(g.Labels(a, p));
      var q :| g.IsSimple(b, {}, q) && tid == g.End(b, q) && text == Render(g.Labels(b, q));
      LabelsAreComponents(g, a, p);
      LabelsAreComponents(g, b, q);
      RenderInjective(g.Labels(a, p), g.Labels(b, q));
      assert MeetAlike(g, a, b, p, q);
    }
  }

  /** The whole output, gathered from several roots, has no repeated entry if and only if no root has a fork and no
      simple paths from two roots lead to the same type by the same components. */
  lemma {:induction false} OutputDistinctIff(g: Graph, roots: seq<TypeId>)
    requires g.WellFormed() && WellNamed(g) && forall r | r in roots :: r in g.Types()
    ensures Distinct(g.RecordsOfRoots(roots)) <==> (forall r | r in roots :: !HasFork(g, r)) && NoneMeet(g, roots)
  {
    hide Graph.WellFormed, WellNamed, Graph.Types, Graph.Records, Graph.Paths, Graph.Leads, HasFork, Meet;
    if roots != [] {
      hide Distinct;
      var k := |roots| - 1;
      var before, last := roots[..k], roots[k];
      assert roots == before + [last];
      OutputDistinctIff(g, before);
      EntriesDistinctIff(g, last);
      DistinctConcat(g.RecordsOfRoots(before), Entries(g, last));
      LastMeetsIff(g, before, last);
      assert NoneMeet(g, roots) <==> NoneMeet(g, before) && forall i | 0 <= i < k :: !Meet(g, roots[i], last);
    }
  }

  lemma LastMeetsIff(g: Graph, before: seq<TypeId>, last: TypeId)
    requires g.WellFormed() && WellNamed(g) && last in g.Types() && forall r | r in before :: r in g.Types()
    ensures (exists e :: e in g.RecordsOfRoots(before) && e in Entries(g, last)) <==>
            exists r :: r in before && Meet(g, r, last)
  {
    hide Graph.WellFormed, WellNamed, Graph.Types, Graph.Records, Graph.RecordsOfRoots, Graph.Paths, Graph.Leads, Meet;
    GatherReportsEverySimplePathOnce(g, last);
    forall tid, text
      ensures (tid, text) in g.RecordsOfRoots(before) <==> exists r :: r in before && g.Leads(r, tid, text)
    {
      RecordsOfRootsMembers(g, before, tid, text);
    }
    if e :| e in g.RecordsOfRoots(before) && e in Entries(g, last) {
      assert g.Leads(last, e.0, e.1);
      var r :| r in before && g.Leads(r, e.0, e.1);
      MeetIffShare(g, r, last);
    }
    if r :| r in before && Meet(g, r, last) {
      MeetIffShare(g, r, last);
      var tid, text :| g.Leads(r, tid, text) && g.Leads(last, tid, text);
      assert (tid, text) in g.RecordsOfRoots(before) && (tid, text) in Entries(g, last);
    }
  }

  // ---- What makes forks ----

  /** An edge stands after the edges of the same kind recorded before it. */
  lemma AggregateEdgeAt(g: Graph, a: TypeId, i: nat) returns (k: nat)
    requires i < |g.aggregates| && g.aggregates[i].0 == a && g.aggregates[i].1 != a
    ensures var own := g.AttributeEdges(g.Attributes(a)) + g.ChildEdges(a, g.registered);
            k == |own| + |g.AggregateEdges(a, g.aggregates[..i])|
    ensures k < |g.Edges(a)| && g.Edges(a)[k] == Edge("$" + g.aggregates[i].1.name, g.aggregates[i].1)
  {
    hide Graph.Edges;
    AggregateStep(g, a, i);
    k := |g.AttributeEdges(g.Attributes(a)) + g.ChildEdges(a, g.registered) + g.AggregateEdges(a, g.aggregates[..i])|;
  }

  /** Wherever a simple path reaches a type, an aggregation recorded twice there repeats entries, unless its other
      type lies on the path. */
  lemma RepeatedAggregationRepeatsEntries(g: Graph, root: TypeId, path: seq<nat>, b: TypeId, i: nat, j: nat)
    requires g.WellFormed() && root in g.Types() && g.IsSimple(root, {}, path)
    requires i < j < |g.aggregates| && g.aggregates[i] == g.aggregates[j] == (g.End(root, path), b)
    requires b !in g.Nodes(root, path)
    ensures !Distinct(Entries(g, root))
  {
    hide Graph.Edges, Graph.WellFormed, Graph.Types, Graph.IsSimple, Entries;
    var a := g.End(root, path);
    EndInNodes(g, root, path);
    var k := AggregateEdgeAt(g, a, i);
    var l := AggregateEdgeAt(g, a, j);
    AggregateStep(g, a, i);
    AggregatePrefix(g, a, g.aggregates[..j], i + 1);
    assert g.aggregates[..j][..i + 1] == g.aggregates[..i + 1];
    assert k < l;
    ForkRepeatsEntries(g, root, path, k, l);
  }

  lemma {:induction false} EndInNodes(g: Graph, root: TypeId, path: seq<nat>)
    ensures g.End(root, path) in g.Nodes(root, path)
    decreases |path|
  {
    if path != [] && path[0] < |g.Edges(root)| {
      EndInNodes(g, g.Edges(root)[path[0]].target, path[1..]);
    }
  }

  /** The case of the source: a root whose container attribute leads to the node type, for which the aggregation
      with the ICMPv4 protocol is recorded twice. */
  lemma TwiceAggregatedThroughContainer(g: Graph, root: TypeId, list: Attribute, node: TypeId, b: TypeId,
                                        i: nat, j: nat)
    requires g.WellFormed() && root in g.Types()
    requires list in g.Attributes(root) && list.checker == ContainerOf(node)
    requires i < j < |g.aggregates| && g.aggregates[i] == g.aggregates[j] == (node, b)
    requires node != root && b != root && b != node
    ensures !Distinct(Entries(g, root))
  {
    hide Graph.Edges, Graph.WellFormed, Graph.Types, Entries;
    var e := Edge(list.name + "/[i]", node);
    EdgeKinds(g, root, e);
    var k :| 0 <= k < |g.Edges(root)| && g.Edges(root)[k] == e;
    assert [k][1..] == [] && g.Nodes(node, []) == [node] && g.End(node, []) == node;
    assert g.Nodes(root, [k]) == [root, node] && g.End(root, [k]) == node;
    RepeatedAggregationRepeatsEntries(g, root, [k], b, i, j);
  }

  /** An aggregation recorded once, with a type that is also a child, is a fork as well. */
  lemma AggregatedChildRepeatsEntries(g: Graph, root: TypeId, path: seq<nat>, b: TypeId, i: nat)
    requires g.WellFormed() && root in g.Types() && g.IsSimple(root, {}, path)
    requires i < |g.aggregates| && g.aggregates[i] == (g.End(root, path), b)
    requires b in g.registered && (b, g.End(root, path)) in g.childOf && b !in g.Nodes(root, path)
    ensures !Distinct(Entries(g, root))
  {
    hide Graph.WellFormed, Graph.Types, Graph.IsSimple, Entries, Graph.ChildEdges;
    var a := g.End(root, path);
    EndInNodes(g, root, path);
    ChildEdgesMembers(g, a, g.registered, Edge("$" + b.name, b));
    var c :| 0 <= c < |g.ChildEdges(a, g.registered)| && g.ChildEdges(a, g.registered)[c] == Edge("$" + b.name, b);
    var k := |g.AttributeEdges(g.Attributes(a))| + c;
    var l := AggregateEdgeAt(g, a, i);
    assert k < l && g.Edges(a)[k] == g.Edges(a)[l];
    hide Graph.Edges;
    ForkRepeatsEntries(g, root, path, k, l);
  }
}
