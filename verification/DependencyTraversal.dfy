/**
 The forward-dependency listing: a bounded worklist over schema snapshots, following resolved imports through a graph
 that may have cycles, while the bookmarks behind unpinned imports may move.
 */
module DependencyTraversal {
  import opened Wrappers
  import opened ImportPaths

  const MAX_SCAN := 10_000

  datatype Import = Import(path: string, pin: string, declName: string)

  /** A schema at a commit. */
  datatype Node = Node(schema: SchemaPath, commit: string)

  datatype CoreError = ResourceExhausted | ReadFailed | BadPath

  /**
   Why an import has no commit: the target is unavailable, which is reported on its edge, or a failure of the listing.
   */
  datatype ResolveError = Unavailable | Fatal(error: CoreError)

  datatype Presence = Found | Missing | Broken(error: CoreError)

  /**
   What the store answers. Reads at a commit are functions of that commit; the commit behind a repository's default
   bookmark is a function of the time it is asked for.
   */
  datatype World = World(
    present: Node -> Presence,
    imports: Node -> Result<seq<Import>, CoreError>,
    names: Node -> Result<set<string>, CoreError>,
    pinned: (SchemaPath, string) -> Result<string, ResolveError>,
    live: (nat, string, string) -> Result<string, ResolveError>)

  /** Commit ids are not empty. */
  ghost predicate Sane(w: World) {
    && (forall s, p :: w.pinned(s, p).Success? ==> w.pinned(s, p).value != "")
    && (forall t, p, r :: w.live(t, p, r).Success? ==> w.live(t, p, r).value != "")
  }

  /** A normalized edge; an unavailable target has an empty commit. */
  datatype Edge = Edge(from: Node, imported: SchemaPath, target: string, resolved: bool, import_: Import)

  /** What makes two edges the same edge: everything but the flag. */
  function KeyOf(e: Edge): Edge { e.(resolved := false) }

  function TargetOf(e: Edge): Node { Node(e.imported, e.target) }

  type Repo = (string, string)

  function RepoOf(s: SchemaPath): Repo { (s.project, s.repo) }

  predicate IsLive(e: Edge) { e.import_.pin == "" && RepoOf(e.imported) != RepoOf(e.from.schema) }

  // ----- resolving one import -----

  /** The default bookmark of the repository gave this answer when it was asked at some time. */
  ghost predicate Answered(w: World, repo: Repo, r: Result<string, ResolveError>) {
    exists t :: w.live(t, repo.0, repo.1) == r
  }

  /** What an import may resolve to: its pin, the importer's own commit, or an answer for the other repository. */
  ghost predicate Resolves(w: World, from: Node, target: SchemaPath, imp: Import, r: Result<string, ResolveError>) {
    if imp.pin != "" then r == w.pinned(target, imp.pin)
    else if RepoOf(target) == RepoOf(from.schema) then r == Success(from.commit)
    else Answered(w, RepoOf(target), r)
  }

  ghost predicate CacheOk(w: World, cache: map<Repo, string>) {
    forall repo :: repo in cache ==> cache[repo] != "" && Answered(w, repo, Success(cache[repo]))
  }

  /** `resolve_import_commit`: a pin, the importer's own commit, or the repository's commit for this listing. */
  method ResolveImport(w: World, from: Node, target: SchemaPath, imp: Import, cache: map<Repo, string>, clock: nat)
    returns (r: Result<string, ResolveError>, cache': map<Repo, string>, clock': nat)
    requires Sane(w) && CacheOk(w, cache)
    ensures Resolves(w, from, target, imp, r) && CacheOk(w, cache')
    ensures imp.pin != "" || RepoOf(target) == RepoOf(from.schema) ==> cache' == cache
    ensures imp.pin == "" && RepoOf(target) != RepoOf(from.schema) ==>
              && (RepoOf(target) in cache ==> r == Success(cache[RepoOf(target)]) && cache' == cache)
              && (RepoOf(target) !in cache ==>
                    && r == w.live(clock, target.project, target.repo)
                    && cache' == if r.Success? then cache[RepoOf(target) := r.value] else cache)
  {
    r, cache', clock' := Success(from.commit), cache, clock;
    if imp.pin != "" {
      r := w.pinned(target, imp.pin);
    } else if RepoOf(target) != RepoOf(from.schema) {
      if RepoOf(target) in cache {
        r := Success(cache[RepoOf(target)]);
      } else {
        r := w.live(clock, target.project, target.repo);
        clock' := clock + 1;
        if r.Success? {
          cache' := cache[RepoOf(target) := r.value];
        }
      }
    }
  }

  // ----- what an edge says -----

  /** What an edge with this target was resolved to. */
  function Resolution(target: string): Result<string, ResolveError> {
    if target == "" then Failure(Unavailable) else Success(target)
  }

  /** The edge is an import of its importer, normalized, and its commit is one the rules give. */
  ghost predicate Genuine(w: World, e: Edge) {
    && w.imports(e.from).Success? && e.import_ in w.imports(e.from).value
    && w.names(e.from).Success?
    && Names(e.from.schema, e.import_.path, w.names(e.from).value, e.imported)
    && (e.resolved <==> e.target != "" && w.present(TargetOf(e)).Found?)
    && Resolves(w, e.from, e.imported, e.import_, Resolution(e.target))
  }

  predicate Settled(e: Edge) { IsLive(e) && e.target != "" }

  /** An edge into another repository carries the commit this listing has for it. */
  predicate Cached(e: Edge, cache: map<Repo, string>) {
    Settled(e) ==> RepoOf(e.imported) in cache && cache[RepoOf(e.imported)] == e.target
  }

  ghost predicate AllGenuine(w: World, edges: seq<Edge>, cache: map<Repo, string>) {
    forall i :: 0 <= i < |edges| ==> Genuine(w, edges[i]) && Cached(edges[i], cache)
  }

  /** Each edge is listed once. */
  ghost predicate Once(edges: seq<Edge>) {
    forall i, j :: 0 <= i < j < |edges| ==> KeyOf(edges[i]) != KeyOf(edges[j])
  }

  /** The listing has an edge for this import of this node. */
  ghost predicate Listed(edges: seq<Edge>, from: Node, imp: Import) {
    exists e :: e in edges && e.from == from && e.import_ == imp
  }

  ghost predicate ListedAll(w: World, edges: seq<Edge>, from: Node) {
    w.imports(from).Success? && forall imp :: imp in w.imports(from).value ==> Listed(edges, from, imp)
  }

  // ----- reachability through resolved edges -----

  ghost predicate Linked(edges: seq<Edge>, a: Node, b: Node) {
    exists e :: e in edges && e.resolved && e.from == a && TargetOf(e) == b
  }

  ghost predicate IsPath(edges: seq<Edge>, root: Node, path: seq<Node>) {
    && path != [] && path[0] == root
    && forall i :: 0 <= i < |path| - 1 ==> Linked(edges, path[i], path[i + 1])
  }

  ghost predicate Reachable(edges: seq<Edge>, root: Node, n: Node) {
    exists path :: IsPath(edges, root, path) && path[|path| - 1] == n
  }

  lemma ReachRoot(edges: seq<Edge>, root: Node)
    ensures Reachable(edges, root, root)
  {
    assert IsPath(edges, root, [root]);
  }

  lemma ReachStep(edges: seq<Edge>, root: Node, e: Edge)
    requires e in edges && e.resolved && Reachable(edges, root, e.from)
    ensures Reachable(edges, root, TargetOf(e))
  {
    var path :| IsPath(edges, root, path) && path[|path| - 1] == e.from;
    var longer := path + [TargetOf(e)];
    forall i | 0 <= i < |longer| - 1 ensures Linked(edges, longer[i], longer[i + 1]) {
      if i < |path| - 1 {
        assert Linked(edges, path[i], path[i + 1]);
      } else {
        assert longer[i] == e.from && longer[i + 1] == TargetOf(e);
      }
    }
    assert IsPath(edges, root, longer);
  }

  lemma ReachGrows(edges: seq<Edge>, more: seq<Edge>, root: Node, n: Node)
    requires Reachable(edges, root, n) && forall e :: e in edges ==> e in more
    ensures Reachable(more, root, n)
  {}

  // ----- the worklist -----

  datatype Progress = Progress(
    visited: set<Node>, queue: seq<Node>, seen: set<Edge>, edges: seq<Edge>, cache: map<Repo, string>)

  ghost predicate SeenIs(seen: set<Edge>, edges: seq<Edge>) {
    forall k :: k in seen <==> exists i :: 0 <= i < |edges| && KeyOf(edges[i]) == k
  }

  ghost predicate EdgesOk(w: World, p: Progress) {
    AllGenuine(w, p.edges, p.cache) && Once(p.edges) && SeenIs(p.seen, p.edges) && CacheOk(w, p.cache)
  }

  /** Every node at hand was reached through resolved edges. */
  ghost predicate NodesOk(root: Node, p: Progress) {
    && (forall n :: n in p.visited ==> n.commit != "" && Reachable(p.edges, root, n))
    && (forall i :: 0 <= i < |p.queue| ==> p.queue[i].commit != "" && Reachable(p.edges, root, p.queue[i]))
  }

  /** Edges start at visited nodes, and a resolved one leads to a node that is visited or waiting. */
  ghost predicate ClosedUnder(transitive: bool, p: Progress) {
    && (forall e :: e in p.edges ==> e.from in p.visited)
    && (transitive ==> forall e :: e in p.edges && e.resolved ==> TargetOf(e) in p.visited || TargetOf(e) in p.queue)
  }

  /** The visited nodes other than the one being read have all their imports listed. */
  ghost predicate Complete(w: World, p: Progress, reading: Option<Node>) {
    forall n :: n in p.visited && reading != Some(n) ==> ListedAll(w, p.edges, n)
  }

  ghost predicate Ok(w: World, root: Node, transitive: bool, p: Progress, reading: Option<Node>) {
    EdgesOk(w, p) && NodesOk(root, p) && ClosedUnder(transitive, p) && Complete(w, p, reading)
  }

  /** The progress after one more edge has been found. */
  function Noted(p: Progress, e: Edge, transitive: bool, cache: map<Repo, string>): Progress {
    Progress(p.visited,
             if transitive && e.resolved then p.queue + [TargetOf(e)] else p.queue,
             p.seen + {KeyOf(e)},
             if KeyOf(e) in p.seen then p.edges else p.edges + [e],
             cache)
  }

  ghost predicate Extends(a: map<Repo, string>, b: map<Repo, string>) {
    forall r :: r in a ==> r in b && b[r] == a[r]
  }

  /** An edge with a key already listed is the listed edge. */
  lemma SameKeySameEdge(w: World, a: Edge, b: Edge)
    requires Genuine(w, a) && Genuine(w, b) && KeyOf(a) == KeyOf(b)
    ensures a == b
  {}

  lemma GenuineStay(w: World, edges: seq<Edge>, cache: map<Repo, string>, more: map<Repo, string>)
    requires AllGenuine(w, edges, cache) && Extends(cache, more)
    ensures AllGenuine(w, edges, more)
  {
    forall i | 0 <= i < |edges| ensures Genuine(w, edges[i]) && Cached(edges[i], more) {
      assert Cached(edges[i], cache);
    }
  }

  lemma SeenEdge(w: World, p: Progress, e: Edge)
    requires AllGenuine(w, p.edges, p.cache) && SeenIs(p.seen, p.edges) && Genuine(w, e) && KeyOf(e) in p.seen
    ensures e in p.edges && p.seen + {KeyOf(e)} == p.seen
  {
    var i :| 0 <= i < |p.edges| && KeyOf(p.edges[i]) == KeyOf(e);
    SameKeySameEdge(w, p.edges[i], e);
  }

  lemma NotedEdges(w: World, p: Progress, e: Edge, transitive: bool, cache: map<Repo, string>)
    requires EdgesOk(w, p) && Extends(p.cache, cache) && Genuine(w, e) && Cached(e, cache) && CacheOk(w, cache)
    ensures EdgesOk(w, Noted(p, e, transitive, cache))
    ensures e in Noted(p, e, transitive, cache).edges && p.edges <= Noted(p, e, transitive, cache).edges
  {
    GenuineStay(w, p.edges, p.cache, cache);
    if KeyOf(e) in p.seen {
      SeenEdge(w, p, e);
    } else {
      NewKey(p.seen, p.edges, e);
    }
  }

  lemma NewKey(seen: set<Edge>, edges: seq<Edge>, e: Edge)
    requires SeenIs(seen, edges) && KeyOf(e) !in seen && Once(edges)
    ensures Once(edges + [e]) && SeenIs(seen + {KeyOf(e)}, edges + [e])
  {
    var all := edges + [e];
    forall k ensures k in seen + {KeyOf(e)} <==> exists i :: 0 <= i < |all| && KeyOf(all[i]) == k {
      if k in seen {
        var i :| 0 <= i < |edges| && KeyOf(edges[i]) == k;
        assert KeyOf(all[i]) == k;
      }
      if k == KeyOf(e) {
        assert KeyOf(all[|edges|]) == k;
      }
      if i :| 0 <= i < |all| && KeyOf(all[i]) == k {
        assert i < |edges| ==> KeyOf(edges[i]) == k;
      }
    }
  }

  lemma NotedNodes(root: Node, p: Progress, e: Edge, transitive: bool, cache: map<Repo, string>)
    requires NodesOk(root, p) && e.from in p.visited && (e.resolved ==> e.target != "")
    requires var q := Noted(p, e, transitive, cache); e in q.edges && p.edges <= q.edges
    ensures NodesOk(root, Noted(p, e, transitive, cache))
  {
    var q := Noted(p, e, transitive, cache);
    forall x | x in p.edges ensures x in q.edges {
      var i :| 0 <= i < |p.edges| && p.edges[i] == x;
      assert q.edges[i] == x;
    }
    forall n | n in p.visited ensures Reachable(q.edges, root, n) {
      ReachGrows(p.edges, q.edges, root, n);
    }
    forall i | 0 <= i < |q.queue| ensures q.queue[i].commit != "" && Reachable(q.edges, root, q.queue[i]) {
      if i < |p.queue| {
        ReachGrows(p.edges, q.edges, root, p.queue[i]);
      } else {
        ReachStep(q.edges, root, e);
      }
    }
  }

  lemma ListedGrows(w: World, edges: seq<Edge>, more: seq<Edge>, n: Node)
    requires ListedAll(w, edges, n) && edges <= more
    ensures ListedAll(w, more, n)
  {}

  lemma NotedClosed(transitive: bool, p: Progress, e: Edge, cache: map<Repo, string>)
    requires ClosedUnder(transitive, p) && e.from in p.visited && (KeyOf(e) in p.seen ==> e in p.edges)
    ensures ClosedUnder(transitive, Noted(p, e, transitive, cache))
  {}

  lemma NotedComplete(w: World, p: Progress, q: Progress, node: Node)
    requires Complete(w, p, Some(node)) && q.visited == p.visited && p.edges <= q.edges
    ensures Complete(w, q, Some(node))
  {
    forall n | n in q.visited && n != node ensures ListedAll(w, q.edges, n) {
      ListedGrows(w, p.edges, q.edges, n);
    }
  }

  lemma NotedOk(w: World, root: Node, transitive: bool, p: Progress, e: Edge, cache: map<Repo, string>)
    requires Ok(w, root, transitive, p, Some(e.from)) && e.from in p.visited
    requires Extends(p.cache, cache) && Genuine(w, e) && Cached(e, cache) && CacheOk(w, cache)
    ensures Ok(w, root, transitive, Noted(p, e, transitive, cache), Some(e.from))
    ensures e in Noted(p, e, transitive, cache).edges && p.edges <= Noted(p, e, transitive, cache).edges
  {
    NotedEdges(w, p, e, transitive, cache);
    NotedNodes(root, p, e, transitive, cache);
    NotedClosed(transitive, p, e, cache);
    NotedComplete(w, p, Noted(p, e, transitive, cache), e.from);
  }

  // ----- what stops the listing -----

  /** This import stops the listing: a bad path, a failure to resolve it, or a target that cannot be read. */
  ghost predicate ImportFails(w: World, n: Node, names: set<string>, imp: Import, error: CoreError) {
    || (error == BadPath && !exists target :: Names(n.schema, imp.path, names, target))
    || exists target ::
         && Names(n.schema, imp.path, names, target)
         && (|| Resolves(w, n, target, imp, Failure(Fatal(error)))
             || exists commit :: Resolves(w, n, target, imp, Success(commit))
                                 && w.present(Node(target, commit)) == Broken(error))
  }

  /** Reading this snapshot stops the listing. */
  ghost predicate NodeFails(w: World, n: Node, error: CoreError) {
    || w.imports(n) == Failure(error)
    || w.names(n) == Failure(error)
    || (&& w.imports(n).Success? && w.names(n).Success?
        && exists imp :: imp in w.imports(n).value && ImportFails(w, n, w.names(n).value, imp, error))
  }

  /** One import of the node being read: normalize, resolve, look for the target, note the edge. */
  method ProcessImport(w: World, ghost root: Node, transitive: bool, p: Progress, clock: nat, node: Node,
                       names: set<string>, imp: Import)
    returns (r: Result<Progress, CoreError>, clock': nat)
    requires Sane(w) && Ok(w, root, transitive, p, Some(node)) && node in p.visited
    requires w.imports(node).Success? && imp in w.imports(node).value && w.names(node) == Success(names)
    ensures r.Success? ==>
              && Ok(w, root, transitive, r.value, Some(node)) && r.value.visited == p.visited
              && p.edges <= r.value.edges && Listed(r.value.edges, node, imp)
              && (!transitive ==> r.value.queue == p.queue)
    ensures r.Failure? ==> ImportFails(w, node, names, imp, r.error)
  {
    clock' := clock;
    NormalizeExactly(node.schema, imp.path, names);
    var target := Normalize(node.schema, imp.path, names);
    if target.Failure? {
      return Failure(BadPath), clock';
    }
    var resolution, cache;
    resolution, cache, clock' := ResolveImport(w, node, target.value, imp, p.cache, clock);
    var commit, resolved := "", false;
    if resolution.Success? {
      commit := resolution.value;
      var presence := w.present(Node(target.value, commit));
      if presence.Broken? {
        return Failure(presence.error), clock';
      }
      resolved := presence.Found?;
    } else if resolution.error.Fatal? {
      return Failure(resolution.error.error), clock';
    }
    var e := Edge(node, target.value, commit, resolved, imp);
    assert node.commit != "";
    NotedOk(w, root, transitive, p, e, cache);
    return Success(Noted(p, e, transitive, cache)), clock';
  }

  /** Taking a node off the queue and starting to read it. */
  lemma StartReading(w: World, root: Node, transitive: bool, p: Progress)
    requires Ok(w, root, transitive, p, None) && p.queue != []
    ensures Ok(w, root, transitive, p.(queue := p.queue[1..], visited := p.visited + {p.queue[0]}), Some(p.queue[0]))
    ensures p.queue[0] in p.visited ==> Ok(w, root, transitive, p.(queue := p.queue[1..]), None)
  {}

  /** The first `k` imports of the node being read have their edges. */
  ghost predicate ListedUpTo(edges: seq<Edge>, node: Node, imports: seq<Import>, k: nat) {
    k <= |imports| && forall i :: 0 <= i < k ==> Listed(edges, node, imports[i])
  }

  lemma ListedNext(edges: seq<Edge>, more: seq<Edge>, node: Node, imports: seq<Import>, k: nat)
    requires ListedUpTo(edges, node, imports, k) && edges <= more && k < |imports| && Listed(more, node, imports[k])
    ensures ListedUpTo(more, node, imports, k + 1)
  {}

  lemma DoneReading(w: World, root: Node, transitive: bool, p: Progress, node: Node, imports: seq<Import>)
    requires Ok(w, root, transitive, p, Some(node))
    requires w.imports(node) == Success(imports) && ListedUpTo(p.edges, node, imports, |imports|)
    ensures Ok(w, root, transitive, p, None)
  {}

  /** Read one snapshot and note all its imports. */
  method ProcessNode(w: World, ghost root: Node, transitive: bool, p: Progress, clock: nat, node: Node)
    returns (r: Result<Progress, CoreError>, clock': nat)
    requires Sane(w) && Ok(w, root, transitive, p, Some(node)) && node in p.visited
    ensures r.Success? ==>
              && Ok(w, root, transitive, r.value, None) && r.value.visited == p.visited
              && (!transitive ==> r.value.queue == p.queue)
    ensures r.Failure? ==> NodeFails(w, node, r.error)
  {
    clock' := clock;
    var imports := w.imports(node);
    if imports.Failure? {
      return Failure(imports.error), clock';
    }
    var names := w.names(node);
    if names.Failure? {
      return Failure(names.error), clock';
    }
    var q, i := p, 0;
    while i < |imports.value|
      invariant 0 <= i <= |imports.value|
      invariant Ok(w, root, transitive, q, Some(node)) && q.visited == p.visited && (!transitive ==> q.queue == p.queue)
      invariant ListedUpTo(q.edges, node, imports.value, i)
    {
      var next;
      next, clock' := ProcessImport(w, root, transitive, q, clock', node, names.value, imports.value[i]);
      if next.Failure? {
        return Failure(next.error), clock';
      }
      ListedNext(q.edges, next.value.edges, node, imports.value, i);
      q := next.value;
      i := i + 1;
    }
    DoneReading(w, root, transitive, q, node, imports.value);
    return Success(q), clock';
  }

  // ----- the listing -----

  /** What the listing says, whatever the bookmarks did meanwhile. */
  ghost predicate Exact(w: World, root: Node, transitive: bool, edges: seq<Edge>, visited: set<Node>) {
    && root in visited && |visited| <= MAX_SCAN
    && Once(edges)
    && (forall n :: n in visited ==> Reachable(edges, root, n) && ListedAll(w, edges, n))
    && (forall e :: e in edges ==> e.from in visited && Genuine(w, e))
    && (if transitive then forall e :: e in edges && e.resolved ==> TargetOf(e) in visited else visited == {root})
  }

  /** Unpinned edges into another repository agree on its commit. */
  ghost predicate OneSnapshotPerRepo(edges: seq<Edge>) {
    forall e, f :: e in edges && f in edges && Settled(e) && Settled(f) && RepoOf(e.imported) == RepoOf(f.imported) ==>
      e.target == f.target
  }

  /** Unpinned edges inside a repository stay at the importer's commit. */
  ghost predicate StaysAtCommit(edges: seq<Edge>) {
    forall e :: e in edges && e.import_.pin == "" && RepoOf(e.imported) == RepoOf(e.from.schema) ==>
      e.target == e.from.commit
  }

  lemma Finished(w: World, root: Node, transitive: bool, p: Progress)
    requires Ok(w, root, transitive, p, None) && root in p.visited && |p.visited| <= MAX_SCAN
    requires if transitive then p.queue == [] else p.visited == {root}
    ensures Exact(w, root, transitive, p.edges, p.visited) && OneSnapshotPerRepo(p.edges) && StaysAtCommit(p.edges)
  {}

  /** The snapshots read so far were reached through genuine edges. */
  ghost predicate Explored(w: World, root: Node, edges: seq<Edge>, visited: set<Node>) {
    (forall e :: e in edges ==> Genuine(w, e)) && (forall n :: n in visited ==> Reachable(edges, root, n))
  }

  /** Why a listing may fail: too many snapshots, or one of those reached cannot be read. */
  ghost predicate Stopped(w: World, visited: set<Node>, error: CoreError) {
    || (error == ResourceExhausted && |visited| > MAX_SCAN)
    || exists n :: n in visited && NodeFails(w, n, error)
  }

  /**
   `list_dependencies_detailed`. It ends on every graph. On success its edges are exactly the imports of the snapshots
   reachable from the root through resolved edges, each once, and one repository is seen at one commit. It fails only
   when more snapshots than allowed are reachable, or a reachable one cannot be read or resolved.
   */
  method ListDependencies(w: World, root: Node, transitive: bool)
    returns (r: Result<seq<Edge>, CoreError>, ghost visited: set<Node>, ghost found: seq<Edge>)
    requires Sane(w) && root.commit != ""
    ensures r.Success? ==> found == r.value && Exact(w, root, transitive, r.value, visited)
    ensures r.Success? ==> OneSnapshotPerRepo(r.value) && StaysAtCommit(r.value)
    ensures r.Failure? ==> Explored(w, root, found, visited) && Stopped(w, visited, r.error)
  {
    var p, clock := Progress({}, [root], {}, [], map[]), 0;
    ReachRoot([], root);
    while p.queue != []
      invariant Ok(w, root, transitive, p, None) && |p.visited| <= MAX_SCAN
      invariant if p.visited == {} then p.queue == [root] else transitive && root in p.visited
      decreases MAX_SCAN + 1 - |p.visited|, |p.queue|
    {
      var node := p.queue[0];
      StartReading(w, root, transitive, p);
      if node in p.visited {
        p := p.(queue := p.queue[1..]);
      } else {
        p := p.(queue := p.queue[1..], visited := p.visited + {node});
        if |p.visited| > MAX_SCAN {
          return Failure(ResourceExhausted), p.visited, p.edges;
        }
        var next;
        next, clock := ProcessNode(w, root, transitive, p, clock, node);
        if next.Failure? {
          return Failure(next.error), p.visited, p.edges;
        }
        p := next.value;
        if !transitive {
          assert p.visited == {root};
          break;
        }
      }
    }
    Finished(w, root, transitive, p);
    return Success(p.edges), p.visited, p.edges;
  }
}
