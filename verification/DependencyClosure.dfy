/** The packages an executable is built from (`scripts/ggctl_release.py`, `dependency_graph`). */
module DependencyClosure {
  import opened Results
  import opened Ordering

  type Id = string

  /** A dependency's kind; cargo writes a normal one as null. */
  datatype Kind = Normal | Build | Dev

  datatype Dependency = Dependency(pkg: Id, kinds: seq<Kind>)

  /** `cargo metadata`: package names, resolved nodes and workspace members. */
  datatype Metadata = Metadata(packages: map<Id, string>, nodes: map<Id, seq<Dependency>>, members: seq<Id>)

  datatype Edge = DependsOn(dependent: Id, dependency: Id) | BuildDependencyOf(dependency: Id, dependent: Id)

  datatype Graph = Graph(root: Id, reached: set<Id>, edges: set<Edge>)

  /** A key that is not there, or not exactly one ggctl package. */
  datatype GraphError = MissingPackage(id: Id) | MissingNode(id: Id) | NoSingleRoot

  /** Not a dev-dependency only. */
  predicate IsLive(d: Dependency) { exists kind <- d.kinds :: kind != Dev }

  function Targets(deps: seq<Dependency>): set<Id> {
    set d <- deps | IsLive(d) :: d.pkg
  }

  function EdgesFrom(current: Id, deps: seq<Dependency>): set<Edge> {
    (set d <- deps | Normal in d.kinds :: DependsOn(current, d.pkg))
    + (set d <- deps | Build in d.kinds :: BuildDependencyOf(d.pkg, current))
  }

  // Reachability, independently of any worklist.

  predicate IsArc(nodes: map<Id, seq<Dependency>>, a: Id, b: Id) {
    a in nodes && b in Targets(nodes[a])
  }

  predicate IsPath(nodes: map<Id, seq<Dependency>>, path: seq<Id>) {
    |path| > 0 && forall i :: 0 <= i < |path| - 1 ==> IsArc(nodes, path[i], path[i + 1])
  }

  ghost predicate Reaches(nodes: map<Id, seq<Dependency>>, from: Id, to: Id) {
    exists path :: IsPath(nodes, path) && path[0] == from && path[|path| - 1] == to
  }

  lemma ReachesItself(nodes: map<Id, seq<Dependency>>, a: Id)
    ensures Reaches(nodes, a, a)
  {
    assert IsPath(nodes, [a]);
  }

  lemma ReachesFurther(nodes: map<Id, seq<Dependency>>, a: Id, b: Id, c: Id)
    requires Reaches(nodes, a, b) && IsArc(nodes, b, c)
    ensures Reaches(nodes, a, c)
  {
    var path :| IsPath(nodes, path) && path[0] == a && path[|path| - 1] == b;
    var longer := path + [c];
    forall i | 0 <= i < |longer| - 1 ensures IsArc(nodes, longer[i], longer[i + 1]) {
      if i < |path| - 1 {
        assert IsArc(nodes, path[i], path[i + 1]);
      }
    }
    assert IsPath(nodes, longer);
  }

  ghost predicate IsClosed(nodes: map<Id, seq<Dependency>>, s: set<Id>) {
    forall a <- s :: a in nodes && Targets(nodes[a]) <= s
  }

  /** A closed set holds everything its members reach. */
  lemma {:induction false} ClosedHoldsPath(nodes: map<Id, seq<Dependency>>, s: set<Id>, path: seq<Id>)
    requires IsClosed(nodes, s) && IsPath(nodes, path) && path[0] in s
    ensures path[|path| - 1] in s
    decreases |path|
  {
    if |path| > 1 {
      assert IsArc(nodes, path[0], path[1]);
      var rest := path[1..];
      forall i | 0 <= i < |rest| - 1 ensures IsArc(nodes, rest[i], rest[i + 1]) {
        assert IsArc(nodes, path[i + 1], path[i + 2]);
      }
      ClosedHoldsPath(nodes, s, rest);
    }
  }

  lemma ClosedHoldsReached(nodes: map<Id, seq<Dependency>>, s: set<Id>, from: Id, to: Id)
    requires IsClosed(nodes, s) && from in s && Reaches(nodes, from, to)
    ensures to in s
  {
    var path :| IsPath(nodes, path) && path[0] == from && path[|path| - 1] == to;
    ClosedHoldsPath(nodes, s, path);
  }

  // The worklist.

  /** The dependencies of one popped package. */
  method Visit(current: Id, deps: seq<Dependency>, reached: set<Id>, pending: seq<Id>, edges: set<Edge>)
    returns (reached': set<Id>, pending': seq<Id>, edges': set<Edge>)
    ensures reached' == reached + Targets(deps)
    ensures forall id :: id in pending' <==> id in pending || id in reached' - reached
    ensures reached' == reached ==> pending' == pending
    ensures edges' == edges + EdgesFrom(current, deps)
  {
    reached', pending', edges' := reached, pending, edges;
    assert Targets(deps[..0]) == {} && EdgesFrom(current, deps[..0]) == {};
    hide Targets, EdgesFrom;
    for i := 0 to |deps|
      invariant reached' == reached + Targets(deps[..i])
      invariant forall id :: id in pending' <==> id in pending || id in reached' - reached
      invariant reached' == reached ==> pending' == pending
      invariant edges' == edges + EdgesFrom(current, deps[..i])
    {
      var dependency := deps[i];
      VisitOne(current, deps, i);
      if IsLive(dependency) {
        var target := dependency.pkg;
        if Normal in dependency.kinds {
          edges' := edges' + {DependsOn(current, target)};
        }
        if Build in dependency.kinds {
          edges' := edges' + {BuildDependencyOf(target, current)};
        }
        if target !in reached' {
          ghost var before := pending';
          reached' := reached' + {target};
          pending' := pending' + [target];
          assert forall id :: id in pending' <==> id in before || id == target;
        }
      }
    }
    assert deps[..|deps|] == deps;
  }

  lemma VisitOne(current: Id, deps: seq<Dependency>, i: nat)
    requires i < |deps|
    ensures Targets(deps[..i + 1]) == Targets(deps[..i]) + if IsLive(deps[i]) then {deps[i].pkg} else {}
    ensures EdgesFrom(current, deps[..i + 1])
            == EdgesFrom(current, deps[..i])
               + (if Normal in deps[i].kinds then {DependsOn(current, deps[i].pkg)} else {})
               + (if Build in deps[i].kinds then {BuildDependencyOf(deps[i].pkg, current)} else {})
    ensures !IsLive(deps[i]) ==> Normal !in deps[i].kinds && Build !in deps[i].kinds
  {
    assert forall d :: d in deps[..i + 1] <==> d in deps[..i] || d == deps[i];
  }

  /** Everything a package could be: the root and every dependency named. */
  ghost function Universe(nodes: map<Id, seq<Dependency>>, root: Id): set<Id> {
    {root} + set id <- nodes, target <- Targets(nodes[id]) :: target
  }

  ghost predicate IsEdgeOf(nodes: map<Id, seq<Dependency>>, id: Id, edge: Edge) {
    id in nodes && edge in EdgesFrom(id, nodes[id])
  }

  /** The edges are those leaving the given packages, labelled by kind. */
  ghost predicate AreEdgesOf(nodes: map<Id, seq<Dependency>>, ids: set<Id>, edges: set<Edge>) {
    forall edge :: edge in edges <==> exists id :: id in ids && IsEdgeOf(nodes, id, edge)
  }

  /** What a finished closure is. */
  ghost predicate IsClosure(nodes: map<Id, seq<Dependency>>, graph: Graph) {
    && (forall id :: id in graph.reached <==> Reaches(nodes, graph.root, id))
    && (forall id <- graph.reached :: id in nodes)
    && AreEdgesOf(nodes, graph.reached, graph.edges)
  }

  /** Partway: every package reached is waiting, or done and followed in full. */
  ghost predicate IsPartial(
    nodes: map<Id, seq<Dependency>>, root: Id, reached: set<Id>, pending: seq<Id>, done: set<Id>, edges: set<Edge>)
  {
    && root in reached && reached <= Universe(nodes, root) && done <= reached
    && (forall id <- pending :: id in reached)
    && (forall id <- reached :: Reaches(nodes, root, id))
    && (forall id <- reached :: id in pending || id in done)
    && (forall id <- done :: id in nodes && Targets(nodes[id]) <= reached)
    && AreEdgesOf(nodes, done, edges)
  }

  lemma StartsPartial(nodes: map<Id, seq<Dependency>>, root: Id)
    ensures IsPartial(nodes, root, {root}, [root], {}, {})
  {
    ReachesItself(nodes, root);
  }

  /** Visiting one waiting package keeps the loop's invariant and makes progress. */
  lemma VisitKeepsPartial(
    nodes: map<Id, seq<Dependency>>, root: Id, reached: set<Id>, pending: seq<Id>, done: set<Id>, edges: set<Edge>,
    reached': set<Id>, pending': seq<Id>)
    requires IsPartial(nodes, root, reached, pending, done, edges)
    requires pending != [] && pending[|pending| - 1] in nodes
    requires var current := pending[|pending| - 1];
             && reached' == reached + Targets(nodes[current])
             && forall id :: id in pending' <==> id in pending[..|pending| - 1] || id in reached' - reached
    ensures var current := pending[|pending| - 1];
            IsPartial(nodes, root, reached', pending', done + {current}, edges + EdgesFrom(current, nodes[current]))
  {
    hide Targets, EdgesFrom, Reaches;
    var current := pending[|pending| - 1];
    assert current in pending;
    forall id | id in reached' ensures Reaches(nodes, root, id) && id in Universe(nodes, root) {
      if id !in reached {
        assert IsArc(nodes, current, id);
        ReachesFurther(nodes, root, current, id);
      }
    }
    forall id | id in reached' ensures id in pending' || id in done + {current} {
      if id in reached && id in pending && id != current {
        var i :| 0 <= i < |pending| && pending[i] == id;
        assert pending[..|pending| - 1][i] == id;
      }
    }
    forall edge
      ensures edge in edges + EdgesFrom(current, nodes[current])
              <==> exists id :: id in done + {current} && IsEdgeOf(nodes, id, edge)
    {
      if edge in EdgesFrom(current, nodes[current]) {
        assert IsEdgeOf(nodes, current, edge);
      } else if edge in edges {
        var id :| id in done && IsEdgeOf(nodes, id, edge);
        assert id in done + {current};
      }
    }
  }

  lemma FinishedIsClosure(nodes: map<Id, seq<Dependency>>, root: Id, reached: set<Id>, done: set<Id>, edges: set<Edge>)
    requires IsPartial(nodes, root, reached, [], done, edges)
    ensures IsClosure(nodes, Graph(root, reached, edges))
  {
    hide Targets, EdgesFrom, Reaches;
    assert done == reached;
    assert IsClosed(nodes, reached);
    forall id | Reaches(nodes, root, id) ensures id in reached {
      ClosedHoldsReached(nodes, reached, root, id);
    }
  }

  /** The loop of `dependency_graph`: it ends, with exactly the packages
      reachable by normal or build dependencies and the edges leaving them,
      unless a reachable package has no node. */
  method Close(nodes: map<Id, seq<Dependency>>, root: Id) returns (r: Result<Graph, GraphError>)
    ensures r.Ok? ==> r.value.root == root && IsClosure(nodes, r.value)
    ensures r.Err? ==> r.error.MissingNode? && r.error.id !in nodes && Reaches(nodes, root, r.error.id)
  {
    var reached, pending, edges: set<Edge> := {root}, [root], {};
    ghost var done: set<Id> := {};
    StartsPartial(nodes, root);
    hide Targets, EdgesFrom, Reaches, IsClosure, AreEdgesOf, Universe;
    while pending != []
      invariant IsPartial(nodes, root, reached, pending, done, edges)
      decreases |Universe(nodes, root) - reached|, |pending|
    {
      ghost var before, waiting := reached, pending;
      var current := pending[|pending| - 1];
      pending := pending[..|pending| - 1];
      if current !in nodes {
        assert current in waiting;
        return Err(MissingNode(current));
      }
      ghost var known := edges;
      reached, pending, edges := Visit(current, nodes[current], reached, pending, edges);
      VisitKeepsPartial(nodes, root, before, waiting, done, known, reached, pending);
      done := done + {current};
      Progress(Universe(nodes, root), before, reached);
    }
    FinishedIsClosure(nodes, root, reached, done, edges);
    r := Ok(Graph(root, reached, edges));
  }

  lemma Progress(universe: set<Id>, before: set<Id>, after: set<Id>)
    requires before <= after <= universe
    ensures after == before || |universe - after| < |universe - before|
  {
    if after != before {
      var id :| id in after && id !in before;
      Smaller(universe - after, universe - before, id);
    }
  }

  lemma Smaller(a: set<Id>, b: set<Id>, extra: Id)
    requires a <= b && extra in b && extra !in a
    ensures |a| < |b|
  {
    assert |b| == |a| + |b - a| && extra in b - a;
  }

  /** Packages of the workspace named ggctl. */
  function Roots(metadata: Metadata, members: seq<Id>): seq<Id>
    requires forall id <- members :: id in metadata.packages
  {
    if members == [] then []
    else (if metadata.packages[members[0]] == "ggctl" then [members[0]] else []) + Roots(metadata, members[1..])
  }

  /** Each listed as often as the workspace lists it under that name. */
  lemma {:induction false} RootsAre(metadata: Metadata, members: seq<Id>, id: Id)
    requires forall id <- members :: id in metadata.packages
    ensures multiset(Roots(metadata, members))[id] ==
            if id in members && metadata.packages[id] == "ggctl" then multiset(members)[id] else 0
  {
    if members != [] {
      RootsAre(metadata, members[1..], id);
      assert members == [members[0]] + members[1..];
    }
  }

  /** Live is normal or build. */
  lemma LiveKinds(d: Dependency)
    ensures IsLive(d) <==> Normal in d.kinds || Build in d.kinds
  {
  }

  // The order of the results.

  function CodePoints(s: string): seq<int> {
    seq(|s|, i requires 0 <= i < |s| => s[i] as int)
  }

  /** Python's order of strings, by code points. */
  predicate Precedes(a: string, b: string) { LexLess(CodePoints(a), CodePoints(b)) }

  /** An edge as the tuple that is sorted. */
  function Key(edge: Edge): (string, string, string) {
    match edge
    case DependsOn(dependent, dependency) => (dependent, "DEPENDS_ON", dependency)
    case BuildDependencyOf(dependency, dependent) => (dependency, "BUILD_DEPENDENCY_OF", dependent)
  }

  predicate EdgePrecedes(x: Edge, y: Edge) {
    var a, b := Key(x), Key(y);
    Precedes(a.0, b.0) || (a.0 == b.0 && (Precedes(a.1, b.1) || (a.1 == b.1 && Precedes(a.2, b.2))))
  }

  /** Edges are compared as Python compares tuples: the first column that differs decides. */
  lemma EdgeOrderByColumns(x: Edge, y: Edge)
    ensures EdgePrecedes(x, y) <==>
            exists k | 0 <= k < 3 :: Columns(x)[..k] == Columns(y)[..k] && Precedes(Columns(x)[k], Columns(y)[k])
  {
    hide Precedes;
    var a, b := Columns(x), Columns(y);
    assert a[..0] == b[..0];
    assert a[..1] == b[..1] <==> a[0] == b[0];
    assert a[..2] == b[..2] <==> a[0] == b[0] && a[1] == b[1];
    if EdgePrecedes(x, y) {
      var k := if a[0] != b[0] then 0 else if a[1] != b[1] then 1 else 2;
      assert a[..k] == b[..k] && (Precedes(a[k], b[k]) || Precedes(a[0], b[0]) || Precedes(a[1], b[1]));
    }
  }

  function Columns(edge: Edge): (r: seq<string>)
    ensures |r| == 3
  {
    match edge
    case DependsOn(dependent, dependency) => [dependent, "DEPENDS_ON", dependency]
    case BuildDependencyOf(dependency, dependent) => [dependency, "BUILD_DEPENDENCY_OF", dependent]
  }

  lemma PrecedesCases(a: string, b: string)
    ensures !Precedes(a, a)
    ensures a == b || Precedes(a, b) || Precedes(b, a)
  {
    LexLessTotal(CodePoints(a), CodePoints(b));
    if CodePoints(a) == CodePoints(b) {
      assert |CodePoints(a)| == |a| && |CodePoints(b)| == |b|;
      forall i | 0 <= i < |a| ensures a[i] == b[i] {
        assert CodePoints(a)[i] == CodePoints(b)[i];
        assert a[i] == CodePoints(a)[i] as char && b[i] == CodePoints(b)[i] as char;
      }
    }
  }

  lemma PrecedesTransitive(a: string, b: string, c: string)
    requires Precedes(a, b) && Precedes(b, c)
    ensures Precedes(a, c)
  {
    LexLessTransitive(CodePoints(a), CodePoints(b), CodePoints(c));
  }

  lemma PrecedesIsTotal()
    ensures IsStrictTotal(Precedes)
  {
    hide Precedes;
    forall a, b ensures !Precedes(a, a) && (a == b || Precedes(a, b) || Precedes(b, a)) {
      PrecedesCases(a, b);
    }
    forall a, b, c | Precedes(a, b) && Precedes(b, c) ensures Precedes(a, c) {
      PrecedesTransitive(a, b, c);
    }
  }

  lemma KeyIsInjective(x: Edge, y: Edge)
    requires Key(x) == Key(y)
    ensures x == y
  {
    assert "DEPENDS_ON"[0] != "BUILD_DEPENDENCY_OF"[0];
  }

  lemma EdgePrecedesIsTotal()
    ensures IsStrictTotal(EdgePrecedes)
  {
    hide Precedes, Key;
    forall x ensures !EdgePrecedes(x, x) {
      var a := Key(x);
      PrecedesCases(a.0, a.0);
      PrecedesCases(a.1, a.1);
      PrecedesCases(a.2, a.2);
    }
    forall x, y ensures x == y || EdgePrecedes(x, y) || EdgePrecedes(y, x) {
      var a, b := Key(x), Key(y);
      PrecedesCases(a.0, b.0);
      PrecedesCases(a.1, b.1);
      PrecedesCases(a.2, b.2);
      if a == b {
        KeyIsInjective(x, y);
      }
    }
    forall x, y, z | EdgePrecedes(x, y) && EdgePrecedes(y, z) ensures EdgePrecedes(x, z) {
      EdgesTransitive(x, y, z);
    }
  }

  lemma EdgesTransitive(x: Edge, y: Edge, z: Edge)
    requires EdgePrecedes(x, y) && EdgePrecedes(y, z)
    ensures EdgePrecedes(x, z)
  {
    hide Precedes, Key;
    var a, b, c := Key(x), Key(y), Key(z);
    if Precedes(a.0, b.0) && Precedes(b.0, c.0) {
      PrecedesTransitive(a.0, b.0, c.0);
    }
    if Precedes(a.1, b.1) && Precedes(b.1, c.1) {
      PrecedesTransitive(a.1, b.1, c.1);
    }
    if Precedes(a.2, b.2) && Precedes(b.2, c.2) {
      PrecedesTransitive(a.2, b.2, c.2);
    }
  }

  /** `sorted` of a set: its elements in increasing order. */
  method SortedSet<T(==, !new)>(s: set<T>, less: (T, T) -> bool) returns (r: seq<T>)
    requires IsStrictTotal(less)
    ensures IsSorted(r, less) && forall x :: x in r <==> x in s
  {
    hide *;
    var listed := Listed(s);
    r := Ordering.Sorted(listed, less);
  }

  /** The packages and edges in the order they are listed. */
  datatype Listing = Listing(root: Id, packages: seq<Id>, edges: seq<Edge>)

  ghost function GraphOf(listing: Listing): Graph {
    Graph(listing.root, set id <- listing.packages, set edge <- listing.edges)
  }

  /** The first package reached, in the order they are listed, that is not described. */
  ghost predicate IsFirstMissing(metadata: Metadata, root: Id, id: Id) {
    && id !in metadata.packages && Reaches(metadata.nodes, root, id)
    && forall other :: other !in metadata.packages && Reaches(metadata.nodes, root, other) ==>
         other == id || Precedes(id, other)
  }

  /** `dependency_graph`: the closure from the one ggctl package, every package
      of which is described. */
  method DependencyGraph(metadata: Metadata) returns (r: Result<Listing, GraphError>)
    ensures r.Ok? ==>
              && (forall id <- metadata.members :: id in metadata.packages)
              && Roots(metadata, metadata.members) == [r.value.root]
              && IsClosure(metadata.nodes, GraphOf(r.value))
              && IsSorted(r.value.packages, Precedes) && IsSorted(r.value.edges, EdgePrecedes)
              && forall id <- r.value.packages :: id in metadata.packages
    ensures r == Err(NoSingleRoot) ==>
              (forall id <- metadata.members :: id in metadata.packages) && |Roots(metadata, metadata.members)| != 1
    ensures r.Err? && r.error.MissingNode? ==>
              && (forall id <- metadata.members :: id in metadata.packages)
              && |Roots(metadata, metadata.members)| == 1 && r.error.id !in metadata.nodes
              && Reaches(metadata.nodes, Roots(metadata, metadata.members)[0], r.error.id)
    ensures r.Err? && r.error.MissingPackage? ==>
              || (r.error.id in metadata.members && r.error.id !in metadata.packages)
              || (&& (forall id <- metadata.members :: id in metadata.packages)
                  && |Roots(metadata, metadata.members)| == 1
                  && IsFirstMissing(metadata, Roots(metadata, metadata.members)[0], r.error.id))
  {
    hide Reaches, AreEdgesOf, IsSorted, Precedes, EdgePrecedes, IsStrictTotal;
    for i := 0 to |metadata.members|
      invariant forall j :: 0 <= j < i ==> metadata.members[j] in metadata.packages
    {
      if metadata.members[i] !in metadata.packages {
        return Err(MissingPackage(metadata.members[i]));
      }
    }
    var roots := Roots(metadata, metadata.members);
    if |roots| != 1 {
      return Err(NoSingleRoot);
    }
    assert roots == [roots[0]];
    var closed := Close(metadata.nodes, roots[0]);
    if closed.Err? {
      return Err(closed.error);
    }
    var graph := closed.value;
    PrecedesIsTotal();
    var packages := SortedSet(graph.reached, Precedes);
    for i := 0 to |packages|
      invariant forall j :: 0 <= j < i ==> packages[j] in metadata.packages
    {
      if packages[i] !in metadata.packages {
        FirstMissing(metadata, graph, packages, i);
        return Err(MissingPackage(packages[i]));
      }
    }
    EdgePrecedesIsTotal();
    var edges := SortedSet(graph.edges, EdgePrecedes);
    r := Ok(Listing(roots[0], packages, edges));
    assert GraphOf(r.value) == graph;
  }

  lemma FirstMissing(metadata: Metadata, graph: Graph, packages: seq<Id>, i: nat)
    requires IsClosure(metadata.nodes, graph) && IsSorted(packages, Precedes)
    requires forall id :: id in packages <==> id in graph.reached
    requires i < |packages| && packages[i] !in metadata.packages
    requires forall j :: 0 <= j < i ==> packages[j] in metadata.packages
    ensures IsFirstMissing(metadata, graph.root, packages[i])
  {
    hide Reaches, AreEdgesOf, Precedes;
    assert packages[i] in packages;
    forall other | other !in metadata.packages && Reaches(metadata.nodes, graph.root, other)
      ensures other == packages[i] || Precedes(packages[i], other)
    {
      assert other in packages;
      var k :| 0 <= k < |packages| && packages[k] == other;
    }
  }
}
