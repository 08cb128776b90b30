/**
  The licence notices' dependency closure: from `cargo metadata` to the packages that
  are linked into what is shipped.
 */
module LicenseClosure {
  import opened Json
  import opened Wrappers

  datatype Error =
    | Omitted(field: string)
    | NoKinds(pkg: string)
    | NotMember(name: string)
    | Ambiguous(name: string)
    | UnknownPackage(id: string)

  type Outcome<T> = Result<T, Error>

  datatype Package = Package(
    id: string, name: string, version: string,
    license: Option<string>, licenseFile: Option<string>,
    manifestPath: string, source: Option<string>)
  {
    function StableKey(): (key: string) {
      name + "\0" + version + "\0" + if source.Some? then source.value else manifestPath
    }
  }

  // ------------------------------------------------------------------
  // Reading fields.
  // ------------------------------------------------------------------

  predicate Has(v: Json, field: string) {
    v.Object? && field in v.fields
  }

  predicate HasString(v: Json, field: string) {
    Has(v, field) && v.fields[field].String?
  }

  predicate HasArray(v: Json, field: string) {
    Has(v, field) && v.fields[field].Array?
  }

  function RequiredStr(v: Json, field: string): (r: Outcome<string>) {
    if HasString(v, field) then Ok(v.fields[field].s) else Err(Omitted(field))
  }

  function RequiredArray(v: Json, field: string): (r: Outcome<seq<Json>>) {
    if HasArray(v, field) then Ok(v.fields[field].items) else Err(Omitted(field))
  }

  function OptionalStr(v: Json, field: string): (r: Option<string>) {
    if HasString(v, field) then Some(v.fields[field].s) else None
  }

  // ------------------------------------------------------------------
  // Dependencies.
  // ------------------------------------------------------------------

  /** Cargo writes a normal dependency's kind as null. */
  predicate IsNormalKind(kind: Json) {
    Has(kind, "kind") && kind.fields["kind"].Null?
  }

  /** The package a dependency points at when at least one of its kinds is normal. */
  function RuntimeDependencyId(dependency: Json): (r: Outcome<Option<string>>)
    ensures r.Ok? <==> WellFormedDependency(dependency)
    ensures forall id :: r == Ok(Some(id)) <==> WellFormedDependency(dependency) && IsNormal(dependency, id)
  {
    if !HasString(dependency, "pkg") then Err(Omitted("pkg"))
    else if !HasArray(dependency, "dep_kinds") then Err(Omitted("dep_kinds"))
    else
      var pkg, kinds := dependency.fields["pkg"].s, dependency.fields["dep_kinds"].items;
      if kinds == [] then Err(NoKinds(pkg))
      else Ok(if exists kind :: kind in kinds && IsNormalKind(kind) then Some(pkg) else None)
  }

  /** A dependency as cargo writes it: a kind is null, or "dev", "build" and the like. */
  function Dependency(pkg: string, kinds: seq<Option<string>>): (d: Json) {
    Object(map["pkg" := String(pkg), "dep_kinds" := Array(KindsJson(kinds))])
  }

  function KindsJson(kinds: seq<Option<string>>): (items: seq<Json>)
    ensures |items| == |kinds|
    ensures forall k :: 0 <= k < |kinds| ==>
      items[k] == Object(map["kind" := if kinds[k].None? then Null else String(kinds[k].value)])
  {
    seq(|kinds|, k requires 0 <= k < |kinds| =>
      Object(map["kind" := if kinds[k].None? then Null else String(kinds[k].value)]))
  }

  /** A package is linked in when one of its kinds is null, whatever the others are; a
      package that is only a dev or build dependency is not, and no kind at all is an
      error. */
  lemma {:induction false} NullKindIsRuntime(pkg: string, kinds: seq<Option<string>>)
    ensures RuntimeDependencyId(Dependency(pkg, kinds))
            == if kinds == [] then Err(NoKinds(pkg)) else if None in kinds then Ok(Some(pkg)) else Ok(None)
  {
    var items := KindsJson(kinds);
    assert forall k :: 0 <= k < |kinds| ==> (IsNormalKind(items[k]) <==> kinds[k].None?);
    if None in kinds {
      var k :| 0 <= k < |kinds| && kinds[k] == None;
      assert items[k] in items && IsNormalKind(items[k]);
    }
  }

  predicate WellFormedDependency(d: Json) {
    HasString(d, "pkg") && HasArray(d, "dep_kinds") && d.fields["dep_kinds"].items != []
  }

  predicate IsNormal(d: Json, id: string) {
    && HasString(d, "pkg") && d.fields["pkg"].s == id
    && HasArray(d, "dep_kinds")
    && exists kind :: kind in d.fields["dep_kinds"].items && IsNormalKind(kind)
  }

  predicate WellFormedNode(node: Json) {
    && HasString(node, "id") && HasArray(node, "deps")
    && forall d :: d in node.fields["deps"].items ==> WellFormedDependency(d)
  }

  /** The runtime dependencies of one node, in order; the first malformed one is an error. */
  method RuntimeDependencies(deps: seq<Json>) returns (r: Outcome<seq<string>>)
    ensures r.Ok? <==> forall d :: d in deps ==> WellFormedDependency(d)
    ensures r.Ok? ==> forall id :: id in r.value <==> exists d :: d in deps && IsNormal(d, id)
  {
    var ids: seq<string> := [];
    for k := 0 to |deps|
      invariant forall j :: 0 <= j < k ==> WellFormedDependency(deps[j])
      invariant forall id :: id in ids <==> exists j :: 0 <= j < k && IsNormal(deps[j], id)
    {
      var one := RuntimeDependencyId(deps[k]);
      if one.Err? {
        return Err(one.error);
      }
      if one.value.Some? {
        ids := ids + [one.value.value];
      }
    }
    r := Ok(ids);
  }

  type Graph = map<string, seq<string>>

  /** The last node with an id speaks for it. */
  ghost predicate Speaks(nodes: seq<Json>, n: int, id: string) {
    && 0 <= n < |nodes| && HasString(nodes[n], "id") && nodes[n].fields["id"].s == id
    && forall m :: n < m < |nodes| && HasString(nodes[m], "id") ==> nodes[m].fields["id"].s != id
  }

  /** The metadata has a runtime edge between two packages: the node that speaks for the
      first lists a dependency on the second with at least one normal kind. */
  ghost predicate RuntimeEdge(nodes: seq<Json>, a: string, b: string) {
    exists n :: Speaks(nodes, n, a) && HasArray(nodes[n], "deps")
                && exists d :: d in nodes[n].fields["deps"].items && IsNormal(d, b)
  }

  predicate Edge(graph: Graph, a: string, b: string) {
    a in graph && b in graph[a]
  }

  method BuildGraph(nodes: seq<Json>) returns (r: Outcome<Graph>)
    ensures r.Ok? <==> forall n :: 0 <= n < |nodes| ==> WellFormedNode(nodes[n])
    ensures r.Ok? ==> forall a, b :: Edge(r.value, a, b) <==> RuntimeEdge(nodes, a, b)
  {
    var graph: Graph := map[];
    for k := 0 to |nodes|
      invariant forall n :: 0 <= n < k ==> WellFormedNode(nodes[n])
      invariant forall a, b :: Edge(graph, a, b) <==> RuntimeEdge(nodes[..k], a, b)
    {
      var id := RequiredStr(nodes[k], "id");
      if id.Err? {
        return Err(id.error);
      }
      var deps := RequiredArray(nodes[k], "deps");
      if deps.Err? {
        return Err(deps.error);
      }
      var ids := RuntimeDependencies(deps.value);
      if ids.Err? {
        return Err(ids.error);
      }
      ghost var before := graph;
      graph := graph[id.value := ids.value];
      forall a, b ensures Edge(graph, a, b) <==> RuntimeEdge(nodes[..k + 1], a, b) {
        NextNode(nodes, k, a, b);
        assert Edge(before, a, b) <==> RuntimeEdge(nodes[..k], a, b);
      }
    }
    assert nodes[..|nodes|] == nodes;
    r := Ok(graph);
  }

  lemma {:induction false} NextNode(nodes: seq<Json>, k: nat, a: string, b: string)
    requires k < |nodes| && WellFormedNode(nodes[k])
    ensures RuntimeEdge(nodes[..k + 1], a, b)
            <==> if nodes[k].fields["id"].s == a
                 then exists d :: d in nodes[k].fields["deps"].items && IsNormal(d, b)
                 else RuntimeEdge(nodes[..k], a, b)
  {
    hide IsNormal, WellFormedDependency;
    var more, fewer := nodes[..k + 1], nodes[..k];
    assert more[k] == nodes[k];
    if nodes[k].fields["id"].s == a {
      assert Speaks(more, k, a);
      assert forall n :: Speaks(more, n, a) ==> n == k;
    } else {
      assert forall n :: 0 <= n < k ==> more[n] == fewer[n];
      assert forall n :: Speaks(more, n, a) <==> Speaks(fewer, n, a);
    }
  }

  // ------------------------------------------------------------------
  // Reachability.
  // ------------------------------------------------------------------

  ghost predicate IsPath(graph: Graph, roots: seq<string>, path: seq<string>) {
    && path != [] && path[0] in roots
    && forall i :: 0 <= i < |path| - 1 ==> Edge(graph, path[i], path[i + 1])
  }

  ghost predicate Reaches(graph: Graph, roots: seq<string>, id: string) {
    exists path :: IsPath(graph, roots, path) && path[|path| - 1] == id
  }

  /** A set that holds the roots and follows every edge holds whatever is reachable. */
  lemma {:induction false} ClosedHoldsPath(graph: Graph, roots: seq<string>, path: seq<string>, closed: set<string>)
    requires IsPath(graph, roots, path)
    requires forall id :: id in roots ==> id in closed
    requires forall a, b :: a in closed && Edge(graph, a, b) ==> b in closed
    ensures path[|path| - 1] in closed
    decreases |path|
  {
    if |path| > 1 {
      var init := path[..|path| - 1];
      ClosedHoldsPath(graph, roots, init, closed);
      assert Edge(graph, path[|path| - 2], path[|path| - 1]);
    }
  }

  lemma {:induction false} RootReached(graph: Graph, roots: seq<string>, id: string)
    requires id in roots
    ensures Reaches(graph, roots, id)
  {
    assert IsPath(graph, roots, [id]);
  }

  lemma {:induction false} StepReached(graph: Graph, roots: seq<string>, a: string, b: string)
    requires Reaches(graph, roots, a) && Edge(graph, a, b)
    ensures Reaches(graph, roots, b)
  {
    var path :| IsPath(graph, roots, path) && path[|path| - 1] == a;
    assert IsPath(graph, roots, path + [b]);
  }

  // ------------------------------------------------------------------
  // The worklist.
  // ------------------------------------------------------------------

  type Collected = map<string, Package>

  predicate Keeps(before: Collected, after: Collected) {
    forall key :: key in before ==> key in after && after[key] == before[key]
  }

  /** Nothing collected earlier is disturbed, and whatever is new is the package of one
      of `ids`. */
  ghost predicate Extends(before: Collected, after: Collected, byId: map<string, Package>, ids: set<string>) {
    && Keeps(before, after)
    && forall key :: key in after && key !in before ==>
        exists id :: id in ids && id in byId && byId[id].StableKey() == key && after[key] == byId[id]
  }

  /** After it, exactly the keys of the packages of `ids` have been added. */
  ghost predicate Gathers(before: Collected, after: Collected, byId: map<string, Package>, ids: set<string>) {
    && Extends(before, after, byId, ids)
    && forall id :: id in ids && id in byId ==> byId[id].StableKey() in after
  }

  /** What is visited or pending is reachable; the roots and every successor of a visited
      package are visited or pending. */
  ghost predicate Frontier(graph: Graph, roots: seq<string>, visited: set<string>, pending: seq<string>) {
    && (forall id :: id in visited || id in pending ==> Reaches(graph, roots, id))
    && (forall id :: id in roots ==> id in visited || id in pending)
    && (forall a, b :: a in visited && Edge(graph, a, b) ==> b in visited || b in pending)
  }

  method Worklist(byId: map<string, Package>, members: set<string>, graph: Graph, roots: seq<string>,
                  collected: Collected)
    returns (r: Outcome<set<string>>, after: Collected)
    ensures r.Ok? <==> forall id :: Reaches(graph, roots, id) ==> id in byId
    ensures r.Ok? ==> forall id :: id in r.value <==> Reaches(graph, roots, id)
    ensures r.Ok? ==> Gathers(collected, after, byId, r.value - members)
    ensures r.Err? ==> r.error.UnknownPackage? && Reaches(graph, roots, r.error.id) && r.error.id !in byId
    ensures Keeps(collected, after)
  {
    var pending := roots;
    var visited: set<string> := {};
    after := collected;
    ghost var shipped := {};
    FrontierStarts(graph, roots);
    GathersNothing(collected, byId);
    hide Gathers, Keeps, Reaches, Edge;
    while pending != []
      invariant visited <= byId.Keys
      invariant Frontier(graph, roots, visited, pending)
      invariant forall id :: id in shipped <==> id in visited && id !in members
      invariant Gathers(collected, after, byId, shipped)
      decreases byId.Keys - visited, |pending|
    {
      GathersKeeps(collected, after, byId, shipped);
      var last := |pending| - 1;
      var id := pending[last];
      if id in visited {
        FrontierSkips(graph, roots, visited, pending);
        pending := pending[..last];
      } else {
        if id !in byId {
          return Err(UnknownPackage(id)), after;
        }
        FrontierVisits(graph, roots, visited, pending);
        hide Frontier;
        if id !in members {
          after := Collect(collected, after, byId, shipped, id);
          shipped := shipped + {id};
        }
        visited := visited + {id};
        pending := pending[..last];
        if id in graph {
          pending := pending + graph[id];
        }
      }
    }
    FrontierEnds(graph, roots, visited);
    assert shipped == visited - members;
    GathersKeeps(collected, after, byId, shipped);
    r := Ok(visited);
  }

  lemma {:induction false} GathersNothing(collected: Collected, byId: map<string, Package>)
    ensures Gathers(collected, collected, byId, {})
  {
  }

  lemma {:induction false} GathersKeeps(before: Collected, after: Collected, byId: map<string, Package>, ids: set<string>)
    requires Gathers(before, after, byId, ids)
    ensures Keeps(before, after)
  {
  }

  /** Insert a package under its stable key unless the key is taken. */
  method Collect(ghost before: Collected, after: Collected, byId: map<string, Package>, ghost ids: set<string>,
                 id: string)
    returns (longer: Collected)
    requires id in byId && Gathers(before, after, byId, ids)
    ensures Gathers(before, longer, byId, ids + {id})
    ensures longer == if byId[id].StableKey() in after then after else after[byId[id].StableKey() := byId[id]]
  {
    longer := after;
    if byId[id].StableKey() !in after {
      longer := after[byId[id].StableKey() := byId[id]];
    }
  }

  lemma {:induction false} FrontierStarts(graph: Graph, roots: seq<string>)
    ensures Frontier(graph, roots, {}, roots)
  {
    forall id | id in roots ensures Reaches(graph, roots, id) {
      RootReached(graph, roots, id);
    }
  }

  lemma {:induction false} FrontierSkips(graph: Graph, roots: seq<string>, visited: set<string>, pending: seq<string>)
    requires pending != [] && Frontier(graph, roots, visited, pending)
    requires pending[|pending| - 1] in visited
    ensures Frontier(graph, roots, visited, pending[..|pending| - 1])
  {
    hide Reaches, Edge;
    var last := |pending| - 1;
    assert forall x :: x in pending <==> x in pending[..last] || x == pending[last];
  }

  lemma {:induction false} FrontierVisits(graph: Graph, roots: seq<string>, visited: set<string>, pending: seq<string>)
    requires pending != [] && Frontier(graph, roots, visited, pending)
    ensures
      var id, rest := pending[|pending| - 1], pending[..|pending| - 1];
      Frontier(graph, roots, visited + {id}, if id in graph then rest + graph[id] else rest)
  {
    var id, rest := pending[|pending| - 1], pending[..|pending| - 1];
    assert forall x :: x in pending <==> x in rest || x == id;
    if id in graph {
      forall b | b in graph[id] ensures Reaches(graph, roots, b) {
        StepReached(graph, roots, id, b);
      }
    }
    hide Reaches;
  }

  lemma {:induction false} FrontierEnds(graph: Graph, roots: seq<string>, visited: set<string>)
    requires Frontier(graph, roots, visited, [])
    ensures forall id :: id in visited <==> Reaches(graph, roots, id)
  {
    forall id | Reaches(graph, roots, id) ensures id in visited {
      var path :| IsPath(graph, roots, path) && path[|path| - 1] == id;
      ClosedHoldsPath(graph, roots, path, visited);
    }
  }

  // ------------------------------------------------------------------
  // Packages and roots.
  // ------------------------------------------------------------------

  predicate WellFormedPackage(v: Json) {
    HasString(v, "name") && HasString(v, "version") && HasString(v, "id") && HasString(v, "manifest_path")
  }

  /** The field is there exactly when it is a string, and then it is that string. */
  ghost predicate IsOptional(o: Option<string>, v: Json, field: string) {
    forall s :: o == Some(s) <==> Has(v, field) && v.fields[field] == String(s)
  }

  function PackageFromJson(v: Json): (r: Outcome<Package>)
    ensures r.Ok? <==> WellFormedPackage(v)
    ensures r.Ok? ==>
      && v.fields["id"] == String(r.value.id)
      && v.fields["name"] == String(r.value.name)
      && v.fields["version"] == String(r.value.version)
      && v.fields["manifest_path"] == String(r.value.manifestPath)
      && IsOptional(r.value.license, v, "license")
      && IsOptional(r.value.licenseFile, v, "license_file")
      && IsOptional(r.value.source, v, "source")
  {
    if !HasString(v, "name") then Err(Omitted("name"))
    else if !HasString(v, "version") then Err(Omitted("version"))
    else if !HasString(v, "id") then Err(Omitted("id"))
    else if !HasString(v, "manifest_path") then Err(Omitted("manifest_path"))
    else Ok(Package(v.fields["id"].s, v.fields["name"].s, v.fields["version"].s,
                    OptionalStr(v, "license"), OptionalStr(v, "license_file"),
                    v.fields["manifest_path"].s, OptionalStr(v, "source")))
  }

  /** All packages, in order, or the first error. */
  function Packages(items: seq<Json>): (r: Outcome<seq<Package>>)
    ensures r.Ok? <==> forall v :: v in items ==> WellFormedPackage(v)
    ensures r.Ok? ==> |r.value| == |items|
    ensures r.Ok? ==> forall k :: 0 <= k < |items| ==> Ok(r.value[k]) == PackageFromJson(items[k])
  {
    if items == [] then Ok([])
    else
      var first := PackageFromJson(items[0]);
      if first.Err? then Err(first.error)
      else
        var rest := Packages(items[1..]);
        assert forall v :: v in items <==> v == items[0] || v in items[1..];
        if rest.Err? then rest else Ok([first.value] + rest.value)
  }

  /** Packages by id; of two with one id the later is found. */
  function ById(packages: seq<Package>): (byId: map<string, Package>) {
    if packages == [] then map[]
    else
      var last := packages[|packages| - 1];
      ById(packages[..|packages| - 1])[last.id := last]
  }

  /** The last package with an id. */
  predicate IsLastWith(packages: seq<Package>, id: string, n: int) {
    && 0 <= n < |packages| && packages[n].id == id
    && forall m :: n < m < |packages| ==> packages[m].id != id
  }

  lemma {:induction false} ByIdFindsLast(packages: seq<Package>, id: string)
    ensures id in ById(packages) <==> exists n :: IsLastWith(packages, id, n)
    ensures forall n :: IsLastWith(packages, id, n) ==> id in ById(packages) && ById(packages)[id] == packages[n]
    decreases |packages|
  {
    if packages != [] {
      var init, last := packages[..|packages| - 1], |packages| - 1;
      ByIdFindsLast(init, id);
      if packages[last].id == id {
        assert IsLastWith(packages, id, last);
        assert forall n :: IsLastWith(packages, id, n) ==> n == last;
      } else {
        assert forall n :: 0 <= n < last ==> init[n] == packages[n];
        assert forall n :: IsLastWith(packages, id, n) <==> IsLastWith(init, id, n);
      }
    }
  }

  function Members(items: seq<Json>): (ids: set<string>) {
    set v | v in items && v.String? :: v.s
  }

  predicate IsMatch(packages: seq<Package>, members: set<string>, name: string, n: int) {
    0 <= n < |packages| && packages[n].name == name && packages[n].id in members
  }

  ghost predicate OneMatch(packages: seq<Package>, members: set<string>, name: string) {
    exists n :: IsMatch(packages, members, name, n)
                && forall m :: IsMatch(packages, members, name, m) ==> m == n
  }

  method MatchesOf(packages: seq<Package>, members: set<string>, name: string) returns (matches: seq<nat>)
    ensures forall n: nat :: n in matches <==> IsMatch(packages, members, name, n)
    ensures forall i, j :: 0 <= i < j < |matches| ==> matches[i] < matches[j]
  {
    matches := [];
    for n := 0 to |packages|
      invariant forall m: nat :: m in matches <==> m < n && IsMatch(packages, members, name, m)
      invariant forall i, j :: 0 <= i < j < |matches| ==> matches[i] < matches[j]
    {
      if packages[n].name == name && packages[n].id in members {
        assert forall k :: 0 <= k < |matches| ==> matches[k] in matches;
        assert forall m: nat :: m in matches + [n] <==> m in matches || m == n;
        matches := matches + [n];
      }
    }
  }

  /** One root per requested name; a name that no member has, or that several have, is an
      error. */
  method SelectRoots(packages: seq<Package>, members: set<string>, requested: seq<string>)
    returns (r: Outcome<seq<string>>)
    ensures r.Ok? <==> forall name :: name in requested ==> OneMatch(packages, members, name)
    ensures r.Ok? ==> forall id :: id in r.value <==> IsRoot(packages, members, requested, id)
    ensures r.Err? && r.error.NotMember? ==>
      r.error.name in requested && forall n :: !IsMatch(packages, members, r.error.name, n)
    ensures r.Err? && r.error.Ambiguous? ==>
      r.error.name in requested
      && exists m, n :: m < n && IsMatch(packages, members, r.error.name, m) && IsMatch(packages, members, r.error.name, n)
    ensures r.Err? ==> r.error.NotMember? || r.error.Ambiguous?
  {
    hide OneMatch;
    var roots: seq<string> := [];
    for k := 0 to |requested|
      invariant forall j :: 0 <= j < k ==> OneMatch(packages, members, requested[j])
      invariant forall id :: id in roots
                             <==> exists j, n :: 0 <= j < k && IsMatch(packages, members, requested[j], n)
                                                 && packages[n].id == id
    {
      var matches := MatchesOf(packages, members, requested[k]);
      MatchCount(packages, members, requested[k], matches);
      if |matches| == 0 {
        return Err(NotMember(requested[k]));
      }
      if |matches| > 1 {
        return Err(Ambiguous(requested[k]));
      }
      var id := packages[matches[0]].id;
      assert forall n :: IsMatch(packages, members, requested[k], n) <==> n == matches[0];
      roots := roots + [id];
    }
    r := Ok(roots);
  }

  lemma {:induction false} MatchCount(packages: seq<Package>, members: set<string>, name: string, matches: seq<nat>)
    requires forall n: nat :: n in matches <==> IsMatch(packages, members, name, n)
    requires forall i, j :: 0 <= i < j < |matches| ==> matches[i] < matches[j]
    ensures |matches| == 1 <==> OneMatch(packages, members, name)
    ensures |matches| == 1 ==> IsMatch(packages, members, name, matches[0])
    ensures |matches| == 1 ==> forall n :: IsMatch(packages, members, name, n) ==> n == matches[0]
    ensures |matches| == 0 ==> forall n :: !IsMatch(packages, members, name, n)
    ensures |matches| > 1 ==> matches[0] < matches[1]
    ensures |matches| > 1 ==> IsMatch(packages, members, name, matches[0]) && IsMatch(packages, members, name, matches[1])
  {
    forall n | IsMatch(packages, members, name, n) ensures n in matches {
      var index: nat := n;
      assert index in matches;
    }
    if |matches| > 0 {
      assert matches[0] in matches;
    }
    if |matches| > 1 {
      assert matches[1] in matches;
    }
  }

  ghost predicate IsRoot(packages: seq<Package>, members: set<string>, requested: seq<string>, id: string) {
    exists name, n :: name in requested && IsMatch(packages, members, name, n) && packages[n].id == id
  }

  // ------------------------------------------------------------------
  // collect_metadata
  // ------------------------------------------------------------------

  predicate HasNodes(metadata: Json) {
    Has(metadata, "resolve") && HasArray(metadata.fields["resolve"], "nodes")
  }

  function Nodes(metadata: Json): (nodes: seq<Json>)
    requires HasNodes(metadata)
  {
    metadata.fields["resolve"].fields["nodes"].items
  }

  predicate WellFormedMetadata(metadata: Json) {
    && HasArray(metadata, "packages") && HasArray(metadata, "workspace_members") && HasNodes(metadata)
    && (forall v :: v in metadata.fields["packages"].items ==> WellFormedPackage(v))
    && forall n :: 0 <= n < |Nodes(metadata)| ==> WellFormedNode(Nodes(metadata)[n])
  }

  function AllPackages(metadata: Json): (packages: seq<Package>)
    requires WellFormedMetadata(metadata)
  {
    Packages(metadata.fields["packages"].items).value
  }

  function AllMembers(metadata: Json): (ids: set<string>)
    requires WellFormedMetadata(metadata)
  {
    Members(metadata.fields["workspace_members"].items)
  }

  /** A walk along runtime edges from a requested workspace member. */
  ghost predicate IsRuntimePath(metadata: Json, requested: seq<string>, path: seq<string>)
    requires WellFormedMetadata(metadata)
  {
    && path != []
    && IsRoot(AllPackages(metadata), AllMembers(metadata), requested, path[0])
    && forall i :: 0 <= i < |path| - 1 ==> RuntimeEdge(Nodes(metadata), path[i], path[i + 1])
  }

  ghost predicate IsLinked(metadata: Json, requested: seq<string>, id: string)
    requires WellFormedMetadata(metadata)
  {
    exists path :: IsRuntimePath(metadata, requested, path) && path[|path| - 1] == id
  }

  /** The request can be answered: each name has one workspace member, and everything
      linked in is a known package. */
  ghost predicate Answerable(metadata: Json, requested: seq<string>)
    requires WellFormedMetadata(metadata)
  {
    && (forall name :: name in requested ==> OneMatch(AllPackages(metadata), AllMembers(metadata), name))
    && forall id :: IsLinked(metadata, requested, id) ==> id in ById(AllPackages(metadata))
  }

  lemma {:induction false} LinkedIsReached(metadata: Json, requested: seq<string>, graph: Graph, roots: seq<string>)
    requires WellFormedMetadata(metadata)
    requires forall a, b :: Edge(graph, a, b) <==> RuntimeEdge(Nodes(metadata), a, b)
    requires forall id :: id in roots <==> IsRoot(AllPackages(metadata), AllMembers(metadata), requested, id)
    ensures forall id :: IsLinked(metadata, requested, id) <==> Reaches(graph, roots, id)
  {
    hide Edge, RuntimeEdge, IsRoot, WellFormedMetadata, AllPackages, AllMembers, Nodes;
    assert forall path :: IsRuntimePath(metadata, requested, path) <==> IsPath(graph, roots, path);
  }

  method CollectMetadata(metadata: Json, requested: seq<string>, collected: Collected)
    returns (r: Outcome<()>, after: Collected, ghost linked: set<string>)
    ensures r.Ok? <==> WellFormedMetadata(metadata) && Answerable(metadata, requested)
    ensures r.Ok? ==> forall id :: id in linked <==> IsLinked(metadata, requested, id)
    ensures r.Ok? ==> Gathers(collected, after, ById(AllPackages(metadata)), linked - AllMembers(metadata))
    ensures Keeps(collected, after)
  {
    after, linked := collected, {};
    var items := RequiredArray(metadata, "packages");
    if items.Err? {
      return Err(items.error), after, linked;
    }
    var packages := Packages(items.value);
    if packages.Err? {
      return Err(packages.error), after, linked;
    }
    var byId := ById(packages.value);
    var memberItems := RequiredArray(metadata, "workspace_members");
    if memberItems.Err? {
      return Err(memberItems.error), after, linked;
    }
    var members := Members(memberItems.value);
    if !HasNodes(metadata) {
      return Err(Omitted("resolve.nodes")), after, linked;
    }
    var graph := BuildGraph(Nodes(metadata));
    if graph.Err? {
      return Err(graph.error), after, linked;
    }
    var roots := SelectRoots(packages.value, members, requested);
    if roots.Err? {
      return Err(roots.error), after, linked;
    }
    LinkedIsReached(metadata, requested, graph.value, roots.value);
    hide IsLinked, Reaches, Edge, RuntimeEdge, WellFormedNode, WellFormedPackage, ById, Packages, Members, OneMatch;
    var visited;
    visited, after := Worklist(byId, members, graph.value, roots.value, collected);
    if visited.Err? {
      return Err(visited.error), after, linked;
    }
    r, linked := Ok(()), visited.value;
  }
}
