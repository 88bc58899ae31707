/** The `$ref` closure of the schemas an authority decision can evaluate. */
module SchemaClosure {
  import opened Results

  // ---------------------------------------------------------------- schema documents

  /** A JSON document; the members of an object keep their order and their keys differ. */
  datatype Node = Text(text: string) | Scalar | Array(items: seq<Node>) | Object(members: seq<Member>)

  datatype Member = Member(key: string, value: Node)

  function Get(members: seq<Member>, key: string): Option<Node> {
    if members == [] then None
    else if members[0].key == key then Some(members[0].value)
    else Get(members[1..], key)
  }

  /** Every `$ref` text in a document, in document order. */
  function References(node: Node): seq<string>
    decreases node, 0
  {
    match node
    case Object(members) =>
      var target := Get(members, "$ref");
      (if target.Some? && target.value.Text? then [target.value.text] else []) + ReferencesBelow(node, |members|)
    case Array(items) => ReferencesBelow(node, |items|)
    case _ => []
  }

  /** The references of the first n children. */
  function ReferencesBelow(node: Node, n: nat): seq<string>
    requires match node case Object(members) => n <= |members| case Array(items) => n <= |items| case _ => n == 0
    decreases node, 0, n
  {
    if n == 0 then []
    else
      var before := ReferencesBelow(node, n - 1);
      match node
      case Object(members) => before + References(members[n - 1].value)
      case Array(items) => before + References(items[n - 1])
  }

  function Child(node: Node, i: nat): Node
    requires match node case Object(members) => i < |members| case Array(items) => i < |items| case _ => false
    ensures Child(node, i) < node
  {
    match node
    case Object(members) => members[i].value
    case Array(items) => items[i]
  }

  function Children(node: Node): nat {
    match node case Object(members) => |members| case Array(items) => |items| case _ => 0
  }

  /** n is the document or stands inside it, at any depth. */
  ghost predicate Within(n: Node, node: Node)
    decreases node
  {
    n == node || exists i :: 0 <= i < Children(node) && Within(n, Child(node, i))
  }

  /** n is an object whose own `$ref` is that text. */
  predicate Cites(n: Node, reference: string) { n.Object? && Get(n.members, "$ref") == Some(Text(reference)) }

  ghost predicate CitesWithin(node: Node, reference: string) { exists n :: Within(n, node) && Cites(n, reference) }

  /** The first member named `$ref` is that text. */
  ghost predicate Refs(members: seq<Member>, reference: string) {
    exists i :: 0 <= i < |members| && members[i] == Member("$ref", Text(reference))
                && forall j :: 0 <= j < i ==> members[j].key != "$ref"
  }

  lemma {:induction false} GetsFirst(members: seq<Member>, key: string, value: Node)
    ensures Get(members, key) == Some(value) <==>
            exists i :: 0 <= i < |members| && members[i] == Member(key, value)
                        && forall j :: 0 <= j < i ==> members[j].key != key
  {
    if members != [] {
      var rest := members[1..];
      GetsFirst(rest, key, value);
      if i :| 0 <= i < |rest| && rest[i] == Member(key, value) && forall j :: 0 <= j < i ==> rest[j].key != key {
        assert members[i + 1] == rest[i];
        assert members[0].key != key ==> forall j :: 0 <= j < i + 1 ==> members[j].key != key;
      }
      if i :| 0 <= i < |members| && members[i] == Member(key, value)
              && forall j :: 0 <= j < i ==> members[j].key != key {
        if i > 0 { assert rest[i - 1] == members[i] && forall j :: 0 <= j < i - 1 ==> rest[j] == members[j + 1]; }
      }
    }
  }

  lemma CitesExactly(n: Node, reference: string)
    ensures Cites(n, reference) <==> n.Object? && Refs(n.members, reference)
  {
    if n.Object? { GetsFirst(n.members, "$ref", Text(reference)); }
  }

  lemma CitesSomewhere(node: Node, reference: string)
    ensures CitesWithin(node, reference) <==>
            Cites(node, reference) || exists i :: 0 <= i < Children(node) && CitesWithin(Child(node, i), reference)
  {
    if n :| Within(n, node) && Cites(n, reference) {
      if n != node {
        var i :| 0 <= i < Children(node) && Within(n, Child(node, i));
        assert CitesWithin(Child(node, i), reference);
      }
    }
    if Cites(node, reference) { assert Within(node, node); }
    if i :| 0 <= i < Children(node) && CitesWithin(Child(node, i), reference) {
      var n :| Within(n, Child(node, i)) && Cites(n, reference);
      assert Within(n, node);
    }
  }

  /** The listed references are exactly the `$ref` texts of the objects anywhere
      in the document. */
  lemma {:induction false} ReferencesExactly(node: Node, reference: string)
    ensures reference in References(node) <==> CitesWithin(node, reference)
    decreases node, 1
  {
    ReferencesBelowExactly(node, Children(node), reference);
    CitesSomewhere(node, reference);
  }

  lemma {:induction false} ReferencesBelowExactly(node: Node, n: nat, reference: string)
    requires n <= Children(node)
    ensures reference in ReferencesBelow(node, n) <==> exists i :: 0 <= i < n && CitesWithin(Child(node, i), reference)
    decreases node, 0, n
  {
    if n > 0 {
      ReferencesBelowExactly(node, n - 1, reference);
      ReferencesExactly(Child(node, n - 1), reference);
    }
  }

  // ---------------------------------------------------------------- edges and reachability

  function PathPart(reference: string): string {
    if reference == "" || reference[0] == '#' then "" else [reference[0]] + PathPart(reference[1..])
  }

  /** How a reference resolves against the id of the schema it stands in. */
  type Join = (string, string) -> string

  function Target(id: string, reference: string, join: Join): string {
    var path := PathPart(reference);
    if path == "" then id else join(id, path)
  }

  datatype Registry = Registry(documents: map<string, Node>, join: Join)

  predicate Refers(g: Registry, from: string, to: string) {
    from in g.documents &&
    exists i :: 0 <= i < |References(g.documents[from])| && Target(from, References(g.documents[from])[i], g.join) == to
  }

  lemma {:induction false} PathIsRead(reference: string, path: string)
    ensures PathPart(reference) == path <==>
            && '#' !in path && path <= reference
            && (|path| == |reference| || reference[|path|] == '#')
  {
    if reference != "" && reference[0] != '#' {
      var rest := reference[1..];
      if path != "" {
        PathIsRead(rest, path[1..]);
        assert path == [path[0]] + path[1..] && reference == [reference[0]] + rest;
        assert path[0] == reference[0] && path[1..] <= rest ==> path <= reference;
        assert path <= reference ==> path[0] == reference[0] && path[1..] <= rest;
        assert '#' !in path <==> path[0] != '#' && '#' !in path[1..];
      }
    } else if path != "" && path <= reference {
      assert path[0] == reference[0];
    }
  }

  /** A schema refers to another exactly when some object inside it has a `$ref` text
      whose part before any number sign is empty, the other being itself, or is joined
      to its id to give the other's. */
  lemma RefersExactly(g: Registry, from: string, to: string)
    ensures Refers(g, from, to) <==>
            from in g.documents &&
            exists n, reference, path :: Points(g, from, to, n, reference, path)
  {
    if Refers(g, from, to) {
      var i :| 0 <= i < |References(g.documents[from])| &&
               Target(from, References(g.documents[from])[i], g.join) == to;
      var reference := References(g.documents[from])[i];
      ReferencesExactly(g.documents[from], reference);
      var n :| Within(n, g.documents[from]) && Cites(n, reference);
      CitesExactly(n, reference);
      PathIsRead(reference, PathPart(reference));
      assert Points(g, from, to, n, reference, PathPart(reference));
    }
    if n, reference, path :| from in g.documents && Points(g, from, to, n, reference, path) {
      CitesExactly(n, reference);
      PathIsRead(reference, path);
      assert CitesWithin(g.documents[from], reference);
      ReferencesExactly(g.documents[from], reference);
      var i :| 0 <= i < |References(g.documents[from])| && References(g.documents[from])[i] == reference;
      assert Target(from, References(g.documents[from])[i], g.join) == to;
    }
  }

  ghost predicate Points(g: Registry, from: string, to: string, n: Node, reference: string, path: string)
    requires from in g.documents
  {
    && Within(n, g.documents[from]) && n.Object? && Refs(n.members, reference)
    && '#' !in path && path <= reference && (|path| == |reference| || reference[|path|] == '#')
    && to == if path == "" then from else g.join(from, path)
  }

  /** Each schema refers to the next. */
  ghost predicate IsPath(g: Registry, p: seq<string>) {
    p != [] && forall k :: 0 <= k < |p| - 1 ==> Refers(g, p[k], p[k + 1])
  }

  ghost predicate Reachable(g: Registry, seeds: seq<string>, id: string) {
    exists p :: IsPath(g, p) && p[0] in seeds && p[|p| - 1] == id
  }

  lemma SeedsAreReachable(g: Registry, seeds: seq<string>, id: string)
    requires id in seeds
    ensures Reachable(g, seeds, id)
  {
    assert IsPath(g, [id]) && [id][0] in seeds;
  }

  lemma ReferencesAreReachable(g: Registry, seeds: seq<string>, from: string, to: string)
    requires Reachable(g, seeds, from) && Refers(g, from, to)
    ensures Reachable(g, seeds, to)
  {
    var p :| IsPath(g, p) && p[0] in seeds && p[|p| - 1] == from;
    var q := p + [to];
    assert IsPath(g, q) && q[0] in seeds && q[|q| - 1] == to;
  }

  ghost predicate Closed(g: Registry, seeds: seq<string>, s: set<string>) {
    && (forall id :: id in seeds ==> id in s)
    && (forall from, to :: from in s && Refers(g, from, to) ==> to in s)
  }

  lemma {:induction false} PathsStayInside(g: Registry, seeds: seq<string>, s: set<string>, p: seq<string>)
    requires Closed(g, seeds, s) && IsPath(g, p) && p[0] in seeds
    ensures p[|p| - 1] in s
  {
    if |p| > 1 {
      var n := |p| - 1;
      assert IsPath(g, p[..n]);
      PathsStayInside(g, seeds, s, p[..n]);
      assert Refers(g, p[n - 1], p[n]);
    }
  }

  // ---------------------------------------------------------------- the worklist

  datatype ClosureError = Unregistered(id: string) | NotAnObject(id: string)

  ghost predicate Proper(g: Registry, id: string) { id in g.documents && g.documents[id].Object? }

  /** What the loop keeps: everything reached or pending is reachable, and whatever
      a reached schema refers to is reached or pending. */
  ghost predicate Exploring(g: Registry, seeds: seq<string>, reached: map<string, Node>, pending: seq<string>) {
    && (forall id :: id in reached ==> Proper(g, id) && reached[id] == g.documents[id] && Reachable(g, seeds, id))
    && (forall id :: id in pending ==> Reachable(g, seeds, id))
    && (forall id :: id in seeds ==> id in reached || id in pending)
    && (forall from, to :: from in reached && Refers(g, from, to) ==> to in reached || to in pending)
  }

  function RequireObject(g: Registry, id: string): (refusal: Option<ClosureError>)
    ensures refusal.None? <==> Proper(g, id)
    ensures refusal.Some? ==> refusal.value.id == id && (refusal.value.Unregistered? <==> id !in g.documents)
  {
    if id !in g.documents then Some(Unregistered(id))
    else if !g.documents[id].Object? then Some(NotAnObject(id))
    else None
  }

  method ReachableSchemas(g: Registry, seeds: seq<string>) returns (r: Result<map<string, Node>, ClosureError>)
    ensures r.Ok? <==> forall id :: Reachable(g, seeds, id) ==> Proper(g, id)
    ensures r.Ok? ==> forall id :: id in r.value <==> Reachable(g, seeds, id)
    ensures r.Ok? ==> forall id :: id in r.value ==> id in g.documents && r.value[id] == g.documents[id]
    ensures r.Err? ==> Reachable(g, seeds, r.error.id) && !Proper(g, r.error.id)
    ensures r.Err? ==> (r.error.Unregistered? <==> r.error.id !in g.documents)
  {
    var reached: map<string, Node> := map[];
    var pending := seeds;
    StartsExploring(g, seeds);
    while pending != []
      invariant Exploring(g, seeds, reached, pending)
      decreases |g.documents.Keys - reached.Keys|, |pending|
    {
      var id := pending[|pending| - 1];
      LastIsReachable(g, seeds, reached, pending);
      if id in reached {
        DropReached(g, seeds, reached, pending);
        pending := pending[..|pending| - 1];
      } else {
        var refusal := RequireObject(g, id);
        if refusal.Some? {
          return Err(refusal.value);
        }
        FewerLeft(g.documents.Keys, reached.Keys, id);
        reached, pending := Expand(g, seeds, reached, pending);
      }
    }
    EverythingReached(g, seeds, reached);
    return Ok(reached);
  }

  /** Reaches the last pending schema and appends what it refers to. */
  method Expand(g: Registry, seeds: seq<string>, reached: map<string, Node>, pending: seq<string>)
    returns (wider: map<string, Node>, more: seq<string>)
    requires Exploring(g, seeds, reached, pending) && pending != []
    requires pending[|pending| - 1] !in reached && Proper(g, pending[|pending| - 1])
    ensures Exploring(g, seeds, wider, more)
    ensures wider.Keys == reached.Keys + {pending[|pending| - 1]}
  {
    var id := pending[|pending| - 1];
    wider := reached[id := g.documents[id]];
    more := Push(g, seeds, id, wider, pending[..|pending| - 1]);
    OneMoreExplored(g, seeds, reached, pending, id, more);
  }

  lemma StartsExploring(g: Registry, seeds: seq<string>)
    ensures Exploring(g, seeds, map[], seeds)
  {
    forall id | id in seeds ensures Reachable(g, seeds, id) { SeedsAreReachable(g, seeds, id); }
  }

  lemma LastIsReachable(g: Registry, seeds: seq<string>, reached: map<string, Node>, pending: seq<string>)
    requires Exploring(g, seeds, reached, pending) && pending != []
    ensures Reachable(g, seeds, pending[|pending| - 1])
  {
  }

  lemma DropReached(g: Registry, seeds: seq<string>, reached: map<string, Node>, pending: seq<string>)
    requires Exploring(g, seeds, reached, pending) && pending != [] && pending[|pending| - 1] in reached
    ensures Exploring(g, seeds, reached, pending[..|pending| - 1])
  {
    assert pending == pending[..|pending| - 1] + [pending[|pending| - 1]];
  }

  lemma EverythingReached(g: Registry, seeds: seq<string>, reached: map<string, Node>)
    requires Exploring(g, seeds, reached, [])
    ensures forall id :: id in reached <==> Reachable(g, seeds, id)
    ensures forall id :: Reachable(g, seeds, id) ==> Proper(g, id)
    ensures forall id :: id in reached ==> id in g.documents && reached[id] == g.documents[id]
  {
    forall id | Reachable(g, seeds, id) ensures id in reached {
      var p :| IsPath(g, p) && p[0] in seeds && p[|p| - 1] == id;
      PathsStayInside(g, seeds, reached.Keys, p);
    }
  }

  /** Appends the unreached targets of the schema just reached. */
  method Push(g: Registry, seeds: seq<string>, id: string, reached: map<string, Node>, pending: seq<string>)
    returns (more: seq<string>)
    requires id in g.documents && id in reached
    ensures pending <= more
    ensures forall x :: x in more ==> x in pending || Refers(g, id, x)
    ensures forall x :: Refers(g, id, x) ==> x in reached || x in more
  {
    var references := References(g.documents[id]);
    more := pending;
    for k := 0 to |references|
      invariant pending <= more
      invariant forall x :: x in more ==> x in pending || Refers(g, id, x)
      invariant forall i :: 0 <= i < k ==>
                Target(id, references[i], g.join) in reached || Target(id, references[i], g.join) in more
    {
      var target := Target(id, references[k], g.join);
      assert Refers(g, id, target);
      if target !in reached {
        more := more + [target];
      }
    }
  }

  lemma OneMoreExplored(
      g: Registry, seeds: seq<string>, reached: map<string, Node>, before: seq<string>, id: string, more: seq<string>)
    requires Exploring(g, seeds, reached, before) && before != [] && before[|before| - 1] == id && Proper(g, id)
    requires before[..|before| - 1] <= more
    requires forall x :: x in more ==> x in before[..|before| - 1] || Refers(g, id, x)
    requires forall x :: Refers(g, id, x) ==> x in reached[id := g.documents[id]] || x in more
    ensures Exploring(g, seeds, reached[id := g.documents[id]], more)
  {
    var rest := before[..|before| - 1];
    assert before == rest + [id];
    assert Reachable(g, seeds, id);
    PendingIsReachable(g, seeds, rest, id, more);
    forall x | x in rest ensures x in more {}
  }

  lemma PendingIsReachable(g: Registry, seeds: seq<string>, rest: seq<string>, id: string, more: seq<string>)
    requires Reachable(g, seeds, id) && forall x :: x in rest ==> Reachable(g, seeds, x)
    requires forall x :: x in more ==> x in rest || Refers(g, id, x)
    ensures forall x :: x in more ==> Reachable(g, seeds, x)
  {
    forall x | x in more ensures Reachable(g, seeds, x) { if x !in rest { ReferencesAreReachable(g, seeds, id, x); } }
  }

  lemma FewerLeft(all: set<string>, reached: set<string>, id: string)
    requires id in all && id !in reached
    ensures |all - (reached + {id})| < |all - reached|
  {
    assert all - reached == (all - (reached + {id})) + {id};
  }
}
