/** The discrimination network of terms/factset.py as a table of nodes
    (the `factnodes` table): node `i` is row `i`, its children are row
    numbers, and row 0 is the root. The specification functions here are
    what the `FactSet` methods are proved against. */
module Network {
  import opened Text
  import opened Facts

  /** A row of the node table: its category and discriminant (`value`), its
      children in insertion order, the persisted `child_path_str`, the
      in-memory `_path` cache, and the fact of its terminal, if any. */
  datatype Node = Node(
    category: Category,
    value: Option<NodeValue>,
    children: seq<nat>,
    pathStr: Option<string>,
    pathCache: Option<Path>,
    terminal: Option<Obj>)

  type Table = seq<Node>

  /** A node as its constructor builds it. */
  function NewNode(c: Category, v: Option<NodeValue>): Node {
    Node(c, v, [], None, None, None)
  }

  // ---------------------------------------------------------------------
  // The child_path property

  /** `_get_path`: the cached tuple, else the stored string split at '.',
      else `()` when nothing was ever stored. (The getter also fills the
      cache; that write does not change what later reads return.) */
  function ChildPath(n: Node): (r: Path)
    ensures n.pathCache.Some? ==> r == n.pathCache.value
    ensures r == [] <==> n.pathCache == Some([]) || (n.pathCache.None? && n.pathStr.None?)
  {
    if n.pathCache.Some? then n.pathCache.value
    else if n.pathStr.None? then []
    else Split(n.pathStr.value, '.')
  }

  /** `_set_path` */
  function SetChildPath(n: Node, p: Path): (r: Node)
    ensures r.category == n.category && r.value == n.value
    ensures r.children == n.children && r.terminal == n.terminal
  {
    n.(pathStr := Some(Join(p, ".")), pathCache := Some(p))
  }

  /** The node as it is loaded again from storage: no cache. */
  function Reload(n: Node): Node {
    n.(pathCache := None)
  }

  /** Setting a path and reading it back gives that path, both from the
      cache and, when the path is non-empty and no segment contains '.',
      after the node is loaded again from storage; a node whose path was
      never set reads as the empty path. */
  lemma ChildPathRoundTrip(n: Node, p: Path)
    ensures ChildPath(SetChildPath(n, p)) == p
    ensures |p| >= 1 && NoSep(p, '.') ==> ChildPath(Reload(SetChildPath(n, p))) == p
    ensures ChildPath(NewNode(n.category, n.value)) == []
  {
    if |p| >= 1 && NoSep(p, '.') {
      SplitJoin(p, '.');
    }
  }

  /** The round trip needs a non-empty path: `'.'.join(())` is the empty
      string, which loads back as the one-segment path `('',)`. */
  lemma EmptyChildPathReloads(n: Node)
    ensures ChildPath(Reload(SetChildPath(n, []))) == [""]
  {
    assert Join([], ".") == "";
  }

  // ---------------------------------------------------------------------
  // Table invariants

  /** Every child comes after its parent and exists. */
  predicate Linked(t: Table) {
    forall i, c :: 0 <= i < |t| && c in t[i].children ==> i < c < |t|
  }

  /** No two children of a node carry the same category and value, so the
      `.one()` lookups never meet two candidates. */
  predicate NoTwins(t: Table) {
    forall i, a, b :: 0 <= i < |t| && 0 <= a < b < |t[i].children| ==>
      Key(t, t[i].children[a]) != Key(t, t[i].children[b])
  }

  /** What the lookup of a child compares: its category and value. */
  function Key(t: Table, k: nat): Option<(Category, Option<NodeValue>)> {
    if k < |t| then Some((t[k].category, t[k].value)) else None
  }

  /** A node with children records the path its children test, and every
      recorded path is one a node can test. */
  predicate PathsRecorded(t: Table) {
    forall i :: 0 <= i < |t| ==>
      (t[i].children != [] ==> ChildPath(t[i]) != []) &&
      (ChildPath(t[i]) != [] ==> PathShape(ChildPath(t[i])))
  }

  /** Label nodes carry a label. */
  predicate LabelsCarried(t: Table) {
    forall i :: 0 <= i < |t| && t[i].category == LabelCat ==>
      t[i].value.Some? && t[i].value.value.VLabel?
  }

  predicate Valid(t: Table) {
    |t| > 0 && t[0].category == Root && Linked(t) && NoTwins(t) &&
    PathsRecorded(t) && LabelsCarried(t)
  }

  // ---------------------------------------------------------------------
  // get_or_create_node and add_fact

  /** The first of `kids` whose category and value are `c` and `v`. */
  function FindChild(t: Table, kids: seq<nat>, c: Category, v: Option<NodeValue>): (r: Option<nat>)
    requires forall k :: k in kids ==> k < |t|
    ensures r.Some? ==> r.value in kids && t[r.value].category == c && t[r.value].value == v
    ensures r.None? ==> forall k :: k in kids ==> t[k].category != c || t[k].value != v
  {
    if kids == [] then None
    else
      assert kids[0] in kids;
      assert forall k :: k in kids[1..] ==> k in kids;
      if t[kids[0]].category == c && t[kids[0]].value == v then Some(kids[0])
      else FindChild(t, kids[1..], c, v)
  }

  /** `get_or_create_node(parent, term, path)`: the new table and the node
      reached. */
  function GetOrCreate(env: Env, t: Table, parent: nat, term: Obj, path: Path): (r: (Table, nat))
    requires Linked(t) && parent < |t| && PathShape(path)
    ensures |r.0| >= |t| && r.1 < |r.0|
  {
    var c := CategoryOf(Last(path)).value;
    var v := Resolve(env, term, path);
    match FindChild(t, t[parent].children, c, v)
    case Some(k) => (t, k)
    case None =>
      var p := t[parent].(children := t[parent].children + [|t|]);
      var p' := if ChildPath(p) == [] then SetChildPath(p, path) else p;
      (t[parent := p'] + [NewNode(c, v)], |t|)
  }

  /** What one `get_or_create_node` step does to the table: an existing child
      with the resolved value is returned and nothing changes; otherwise the
      parent gains exactly one new child, the new last row, which carries the
      resolved value, and the parent's `child_path` is set only if it was
      empty. No other row changes, and the node reached comes after the
      parent. */
  lemma GetOrCreateSpec(env: Env, t: Table, parent: nat, term: Obj, path: Path)
    requires Linked(t) && parent < |t| && PathShape(path)
    ensures var (t', k) := GetOrCreate(env, t, parent, term, path);
      var c := CategoryOf(Last(path)).value;
      var v := Resolve(env, term, path);
      && parent < k
      && t'[k].category == c && t'[k].value == v
      && (k < |t| ==> t' == t && k in t[parent].children)
      && (k == |t| ==>
          && (forall j :: j in t[parent].children ==> t[j].category != c || t[j].value != v)
          && |t'| == |t| + 1 && t'[k] == NewNode(c, v)
          && t'[parent].children == t[parent].children + [k]
          && ChildPath(t'[parent]) == (if ChildPath(t[parent]) == [] then path else ChildPath(t[parent]))
          && t'[parent].terminal == t[parent].terminal
          && (forall j :: 0 <= j < |t| && j != parent ==> t'[j] == t[j]))
  {
  }

  /** The steps of `add_fact`: `get_or_create_node` for each path in turn,
      from `cur`; the new table and the last node reached. */
  function WalkPaths(env: Env, t: Table, cur: nat, term: Obj, paths: seq<Path>): (r: (Table, nat))
    requires Linked(t) && cur < |t| && forall q :: q in paths ==> PathShape(q)
    ensures Linked(r.0) && |r.0| >= |t| && r.1 < |r.0|
    decreases |paths|
  {
    if paths == [] then (t, cur)
    else
      var step := GetOrCreate(env, t, cur, term, paths[0]);
      GetOrCreateLinked(env, t, cur, term, paths[0]);
      WalkPaths(env, step.0, step.1, term, paths[1..])
  }

  lemma GetOrCreateLinked(env: Env, t: Table, parent: nat, term: Obj, path: Path)
    requires Linked(t) && parent < |t| && PathShape(path)
    ensures Linked(GetOrCreate(env, t, parent, term, path).0)
  {
    GetOrCreateSpec(env, t, parent, term, path);
    var (t', k) := GetOrCreate(env, t, parent, term, path);
    if k == |t| {
      forall i, c | 0 <= i < |t'| && c in t'[i].children ensures i < c < |t'| {
        if i != parent && i < |t| {
          assert t'[i] == t[i];
        } else if i == parent {
          assert c in t[parent].children || c == k;
        }
      }
    }
  }

  /** The loop of `add_fact`: the fact's paths walked from the root. */
  function WalkFact(env: Env, t: Table, fact: Obj): (r: (Table, nat))
    requires Linked(t) && |t| > 0 && fact.Pred?
    ensures Linked(r.0) && |r.0| >= |t| && r.1 < |r.0|
  {
    GetPathsShape(fact);
    WalkPaths(env, t, 0, fact, GetPaths(fact))
  }

  /** `add_fact(fact)`: walk the fact's paths from the root, then attach the
      fact as a terminal to the node reached if it has none. */
  function AddFactOn(env: Env, t: Table, fact: Obj): (r: Table)
    requires Linked(t) && |t| > 0 && fact.Pred?
    ensures Linked(r) && |r| >= |t|
  {
    var (t1, last) := WalkFact(env, t, fact);
    if t1[last].terminal.None? then t1[last := t1[last].(terminal := Some(fact))] else t1
  }

  // ---------------------------------------------------------------------
  // Idempotence of add_fact

  /** Two tables that agree on everything a found-child lookup reads. */
  predicate SameShape(a: Table, b: Table) {
    |a| == |b| &&
    forall i :: 0 <= i < |a| ==>
      a[i].category == b[i].category && a[i].value == b[i].value && a[i].children == b[i].children
  }

  /** Rows before `cur` are untouched by a walk from `cur`, and no existing
      row changes its category or value. */
  lemma {:induction false} WalkFrame(env: Env, t: Table, cur: nat, term: Obj, paths: seq<Path>)
    requires Linked(t) && cur < |t| && forall q :: q in paths ==> PathShape(q)
    ensures var (t', e) := WalkPaths(env, t, cur, term, paths);
      && cur <= e
      && (forall i :: 0 <= i < cur ==> t'[i] == t[i])
      && (forall i :: 0 <= i < |t| ==> t'[i].category == t[i].category && t'[i].value == t[i].value)
    decreases |paths|
  {
    if paths != [] {
      GetOrCreateSpec(env, t, cur, term, paths[0]);
      GetOrCreateLinked(env, t, cur, term, paths[0]);
      var (t1, k) := GetOrCreate(env, t, cur, term, paths[0]);
      WalkFrame(env, t1, k, term, paths[1..]);
    }
  }

  lemma {:induction false} FindChildSameShape(a: Table, b: Table, kids: seq<nat>, c: Category, v: Option<NodeValue>)
    requires forall k :: k in kids ==> k < |a| && k < |b|
    requires forall k :: k in kids ==> a[k].category == b[k].category && a[k].value == b[k].value
    ensures FindChild(a, kids, c, v) == FindChild(b, kids, c, v)
  {
    if kids != [] {
      assert kids[0] in kids;
      assert forall k :: k in kids[1..] ==> k in kids;
      FindChildSameShape(a, b, kids[1..], c, v);
    }
  }

  /** Walking the same paths again over a table shaped like the result of
      the first walk finds every node and changes nothing. */
  lemma {:induction false} WalkAgain(env: Env, t: Table, cur: nat, term: Obj, paths: seq<Path>, t2: Table)
    requires Linked(t) && cur < |t| && forall q :: q in paths ==> PathShape(q)
    requires Linked(t2) && SameShape(WalkPaths(env, t, cur, term, paths).0, t2)
    ensures WalkPaths(env, t2, cur, term, paths) == (t2, WalkPaths(env, t, cur, term, paths).1)
    decreases |paths|
  {
    if paths != [] {
      var path := paths[0];
      GetOrCreateSpec(env, t, cur, term, path);
      GetOrCreateLinked(env, t, cur, term, path);
      var (t1, k) := GetOrCreate(env, t, cur, term, path);
      var (t3, e) := WalkPaths(env, t1, k, term, paths[1..]);
      WalkFrame(env, t1, k, term, paths[1..]);
      WalkAgain(env, t1, k, term, paths[1..], t2);
      var c := CategoryOf(Last(path)).value;
      var v := Resolve(env, term, path);
      assert t3[cur] == t1[cur];
      assert t2[cur].children == t1[cur].children;
      assert k in t1[cur].children;
      FindChildSameShape(t1, t2, t1[cur].children, c, v);
      assert FindChild(t1, t1[cur].children, c, v) == Some(k) by {
        if k < |t| {
          assert FindChild(t, t[cur].children, c, v) == Some(k);
        } else {
          FindChildAppended(t1, t[cur].children, k, c, v);
        }
      }
      assert GetOrCreate(env, t2, cur, term, path) == (t2, k);
    }
  }

  /** A child appended after kids none of which matches is the first match. */
  lemma {:induction false} FindChildAppended(t: Table, kids: seq<nat>, k: nat, c: Category, v: Option<NodeValue>)
    requires forall j :: j in kids ==> j < |t| && (t[j].category != c || t[j].value != v)
    requires k < |t| && t[k].category == c && t[k].value == v
    ensures FindChild(t, kids + [k], c, v) == Some(k)
  {
    if kids == [] {
      assert kids + [k] == [k];
    } else {
      assert (kids + [k])[1..] == kids[1..] + [k];
      assert forall j :: j in kids[1..] ==> j in kids;
      FindChildAppended(t, kids[1..], k, c, v);
    }
  }

  /** Adding the same fact twice leaves the table as adding it once: every
      node is found again and the terminal is not replaced. */
  lemma AddFactIdempotent(env: Env, t: Table, fact: Obj)
    requires Linked(t) && |t| > 0 && fact.Pred?
    ensures AddFactOn(env, AddFactOn(env, t, fact), fact) == AddFactOn(env, t, fact)
  {
    GetPathsShape(fact);
    var paths := GetPaths(fact);
    var (t1, e) := WalkPaths(env, t, 0, fact, paths);
    var t2 := AddFactOn(env, t, fact);
    assert SameShape(t1, t2);
    WalkAgain(env, t, 0, fact, paths, t2);
  }

  /** `add_fact` attaches a terminal only to a node that had none: every
      existing terminal is kept, and afterwards the node the fact's paths
      lead to carries a terminal. */
  lemma AddFactKeepsTerminals(env: Env, t: Table, fact: Obj)
    requires Linked(t) && |t| > 0 && fact.Pred?
    ensures var t' := AddFactOn(env, t, fact);
      forall i :: 0 <= i < |t| && t[i].terminal.Some? ==> t'[i].terminal == t[i].terminal
    ensures var (t1, e) := WalkFact(env, t, fact);
      AddFactOn(env, t, fact)[e].terminal ==
        (if t1[e].terminal.Some? then t1[e].terminal else Some(fact))
  {
    GetPathsShape(fact);
    WalkTerminals(env, t, 0, fact, GetPaths(fact));
  }

  /** A walk does not touch terminals. */
  lemma {:induction false} WalkTerminals(env: Env, t: Table, cur: nat, term: Obj, paths: seq<Path>)
    requires Linked(t) && cur < |t| && forall q :: q in paths ==> PathShape(q)
    ensures var t' := WalkPaths(env, t, cur, term, paths).0;
      (forall i :: 0 <= i < |t| ==> t'[i].terminal == t[i].terminal) &&
      (forall i :: |t| <= i < |t'| ==> t'[i].terminal.None?)
    decreases |paths|
  {
    if paths != [] {
      GetOrCreateSpec(env, t, cur, term, paths[0]);
      GetOrCreateLinked(env, t, cur, term, paths[0]);
      var (t1, k) := GetOrCreate(env, t, cur, term, paths[0]);
      WalkTerminals(env, t1, k, term, paths[1..]);
    }
  }

  // ---------------------------------------------------------------------
  // The table invariant is kept

  /** `get_or_create_node` keeps the table valid: a node is created only
      when no child carries its category and value, a parent with children
      records the path they test, and a label node carries its label. */
  lemma {:induction false} GetOrCreateValid(env: Env, t: Table, parent: nat, term: Obj, path: Path)
    requires Valid(t) && parent < |t| && PathShape(path)
    ensures Valid(GetOrCreate(env, t, parent, term, path).0)
  {
    GetOrCreateSpec(env, t, parent, term, path);
    GetOrCreateLinked(env, t, parent, term, path);
    var (t', k) := GetOrCreate(env, t, parent, term, path);
    if k == |t| {
      assert forall j :: 0 <= j < |t| ==> Key(t', j) == Key(t, j);
      assert t'[0].category == Root;
      forall i, a, b | 0 <= i < |t'| && 0 <= a < b < |t'[i].children|
        ensures Key(t', t'[i].children[a]) != Key(t', t'[i].children[b])
      {
        var ch := t'[i].children;
        if i == parent {
          assert ch == t[parent].children + [k];
          if b == |ch| - 1 {
            var j := ch[a];
            assert j in t[parent].children;
            assert j < |t| && Key(t', j) == Key(t, j);
            assert Key(t', k) == Some((t'[k].category, t'[k].value));
          } else {
            assert ch[a] == t[parent].children[a] && ch[b] == t[parent].children[b];
            assert ch[a] in t[parent].children && ch[b] in t[parent].children;
          }
        } else if i < |t| {
          assert t'[i] == t[i];
          assert ch[a] in t[i].children && ch[b] in t[i].children;
        }
      }
      forall i | 0 <= i < |t'|
        ensures (t'[i].children != [] ==> ChildPath(t'[i]) != [])
        ensures (ChildPath(t'[i]) != [] ==> PathShape(ChildPath(t'[i])))
      {
        if i < |t| && i != parent {
          assert t'[i] == t[i];
        }
      }
      forall i | 0 <= i < |t'| && t'[i].category == LabelCat
        ensures t'[i].value.Some? && t'[i].value.value.VLabel?
      {
        if i < |t| && i != parent {
          assert t'[i] == t[i];
        }
      }
    }
  }

  lemma {:induction false} WalkValid(env: Env, t: Table, cur: nat, term: Obj, paths: seq<Path>)
    requires Valid(t) && cur < |t| && forall q :: q in paths ==> PathShape(q)
    ensures Valid(WalkPaths(env, t, cur, term, paths).0)
    decreases |paths|
  {
    if paths != [] {
      GetOrCreateValid(env, t, cur, term, paths[0]);
      GetOrCreateLinked(env, t, cur, term, paths[0]);
      var (t1, k) := GetOrCreate(env, t, cur, term, paths[0]);
      WalkValid(env, t1, k, term, paths[1..]);
    }
  }

  /** Setting a node's terminal changes nothing the invariant reads. */
  lemma TerminalValid(t: Table, e: nat, f: Option<Obj>)
    requires Valid(t) && e < |t|
    ensures Valid(t[e := t[e].(terminal := f)])
  {
    var t2 := t[e := t[e].(terminal := f)];
    assert forall j :: 0 <= j < |t| ==> Key(t2, j) == Key(t, j);
    assert forall j :: 0 <= j < |t| ==> t2[j].children == t[j].children && ChildPath(t2[j]) == ChildPath(t[j]);
  }

  /** `add_fact` keeps the table valid. */
  lemma AddFactValid(env: Env, t: Table, fact: Obj)
    requires Valid(t) && fact.Pred?
    ensures Valid(AddFactOn(env, t, fact))
  {
    GetPathsShape(fact);
    WalkValid(env, t, 0, fact, GetPaths(fact));
    var (t1, e) := WalkFact(env, t, fact);
    TerminalValid(t1, e, Some(fact));
  }

  // ---------------------------------------------------------------------
  // dispatch

  /** The per-query state: the query predicate, the paths still to be
      tested, the variable bindings, and the fact once one is reached. */
  datatype Match = Match(
    query: Obj,
    paths: seq<Path>,
    bindings: map<string, Option<NodeValue>>,
    fact: Option<Obj>)

  /** `list.remove(p)`: drop the first occurrence of `p`. */
  function RemoveFirst(ps: seq<Path>, p: Path): (r: seq<Path>)
    ensures p in ps ==> |r| == |ps| - 1
    ensures p !in ps ==> r == ps
    ensures multiset(r) == multiset(ps) - multiset{p}
  {
    if ps == [] then []
    else
      assert ps == [ps[0]] + ps[1..];
      if ps[0] == p then ps[1..]
      else [ps[0]] + RemoveFirst(ps[1..], p)
  }

  /** `if path in match.paths: match.paths.remove(path)` */
  function Consume(m: Match, p: Path): (r: Match)
    ensures r.query == m.query && r.bindings == m.bindings && r.fact == m.fact
    ensures multiset(r.paths) == multiset(m.paths) - multiset{p}
  {
    if p in m.paths then m.(paths := RemoveFirst(m.paths, p)) else m
  }

  /** `getattr(value, 'name', '')` */
  function ValueName(v: Option<NodeValue>): string {
    match v
    case Some(VTerm(x)) => x.name
    case _ => ""
  }

  function Filter(kids: seq<nat>, keep: nat -> bool): (r: seq<nat>)
    ensures forall k :: k in r <==> k in kids && keep(k)
    ensures |r| <= |kids|
  {
    if kids == [] then []
    else if keep(kids[0]) then [kids[0]] + Filter(kids[1..], keep)
    else Filter(kids[1..], keep)
  }

  /** The names of the types an unbound term variable ranges over: the
      subterms of its first base, or else its type and that type's
      subterms. */
  function TermCandidates(env: Env, x: Term): (r: set<string>)
    ensures |x.bases| > 0 ==> r == env.subterms(x.bases[0].name)
    ensures |x.bases| == 0 && x.termType.Some? ==>
      r == {x.termType.value.name} + env.subterms(x.termType.value.name)
    ensures |x.bases| == 0 && x.termType.None? ==> r == {}
  {
    if |x.bases| > 0 then env.subterms(x.bases[0].name)
    else if x.termType.Some? then {x.termType.value.name} + env.subterms(x.termType.value.name)
    else {}
  }

  /** The names of the verbs an unbound verb variable ranges over: for a
      verb variable the subterms of its first base, for a predicate variable
      the subterms of its type. */
  function VerbCandidates(env: Env, x: Term): (r: set<string>)
    ensures r != {} ==> env.isa(x, "verb") || env.isa(x, "exists")
    ensures env.isa(x, "verb") && |x.bases| > 0 ==> r == env.subterms(x.bases[0].name)
    ensures !env.isa(x, "verb") && env.isa(x, "exists") && x.termType.Some? ==>
      r == env.subterms(x.termType.value.name)
  {
    if env.isa(x, "verb") then
      (if |x.bases| > 0 then env.subterms(x.bases[0].name) else {})
    else if env.isa(x, "exists") then
      (if x.termType.Some? then env.subterms(x.termType.value.name) else {})
    else {}
  }

  predicate TypedIn(v: Option<NodeValue>, names: set<string>) {
    v.Some? && v.value.VTerm? && v.value.t.termType.Some? && v.value.t.termType.value.name in names
  }

  predicate NamedIn(v: Option<NodeValue>, names: set<string>) {
    v.Some? && v.value.VTerm? && v.value.t.name in names
  }

  /** The value is a term whose name is a variable name. */
  predicate IsVar(env: Env, v: NodeValue) {
    v.VTerm? && env.isVarName(v.t.name)
  }

  /** `get_children(parent, match, value)` of category `c`: the children of
      that category with that value, except that a variable bound in the
      match selects the children with its (term) or its bound (verb) value
      whatever their category, and an unbound variable selects the children
      of that category whose term has one of its candidate types (term) or
      is one of its candidate verbs (verb); a label node's children are all
      selected, and the root class selects none. */
  function Selected(env: Env, t: Table, parent: nat, c: Category, v: NodeValue, m: Match): (r: seq<nat>)
    requires parent < |t|
    ensures forall k :: k in r ==> k in t[parent].children
    ensures |r| <= |t[parent].children|
    ensures c == Neg ==> forall k :: k in r <==>
      k in t[parent].children && k < |t| && t[k].category == Neg && t[k].value == Some(v)
    ensures c == TermCat && !IsVar(env, v) ==> forall k :: k in r <==>
      k in t[parent].children && k < |t| && t[k].category == TermCat && t[k].value == Some(v)
    ensures c == TermCat && IsVar(env, v) && v.t.name in m.bindings ==> forall k :: k in r <==>
      k in t[parent].children && k < |t| && t[k].value == Some(v)
    ensures c == TermCat && IsVar(env, v) && v.t.name !in m.bindings ==> forall k :: k in r <==>
      k in t[parent].children && k < |t| && t[k].category == TermCat &&
      TypedIn(t[k].value, TermCandidates(env, v.t))
    ensures c == Verb && !IsVar(env, v) ==> forall k :: k in r <==>
      k in t[parent].children && k < |t| && t[k].category == Verb && t[k].value == Some(v)
    ensures c == Verb && IsVar(env, v) && v.t.name in m.bindings ==> forall k :: k in r <==>
      k in t[parent].children && k < |t| && t[k].value == m.bindings[v.t.name]
    ensures c == Verb && IsVar(env, v) && v.t.name !in m.bindings ==> forall k :: k in r <==>
      k in t[parent].children && k < |t| && t[k].category == Verb &&
      NamedIn(t[k].value, VerbCandidates(env, v.t))
    ensures c == LabelCat ==> r == t[parent].children
    ensures c == Root ==> r == []
  {
    var kids := t[parent].children;
    match c
    case Neg => Filter(kids, (k: nat) => k < |t| && t[k].category == Neg && t[k].value == Some(v))
    case TermCat =>
      if v.VTerm? && env.isVarName(v.t.name) then
        if v.t.name in m.bindings then Filter(kids, (k: nat) => k < |t| && t[k].value == Some(v))
        else
          var names := TermCandidates(env, v.t);
          Filter(kids, (k: nat) => k < |t| && t[k].category == TermCat && TypedIn(t[k].value, names))
      else Filter(kids, (k: nat) => k < |t| && t[k].category == TermCat && t[k].value == Some(v))
    case Verb =>
      if v.VTerm? && env.isVarName(v.t.name) then
        if v.t.name in m.bindings then
          var bound := m.bindings[v.t.name];
          Filter(kids, (k: nat) => k < |t| && t[k].value == bound)
        else
          var names := VerbCandidates(env, v.t);
          Filter(kids, (k: nat) => k < |t| && t[k].category == Verb && NamedIn(t[k].value, names))
      else Filter(kids, (k: nat) => k < |t| && t[k].category == Verb && t[k].value == Some(v))
    case LabelCat => kids
    case Root => []
  }

  /** What `dispatch` needs of the table. */
  predicate Traversable(t: Table) {
    Linked(t) && PathsRecorded(t) && LabelsCarried(t)
  }

  /** `path[:-2]`, empty for a shorter path as in Python. */
  function DropTwo(p: Path): Path {
    if |p| >= 2 then p[..|p| - 2] else []
  }

  /** The state the loop over the selected children threads: the (possibly
      reassigned) `path`, the node's `match` object, and the matches found. */
  datatype LoopState = LoopState(path: Path, current: Match, found: seq<Match>)

  /** `dispatch(parent, match, matches)`: the matches it appends. */
  function DispatchOn(env: Env, t: Table, parent: nat, m: Match): (r: seq<Match>)
    requires Traversable(t) && parent < |t|
    decreases |t| - parent, 1
  {
    var path := ChildPath(t[parent]);
    var s :=
      if path == [] then LoopState(path, m, [])
      else
        var m1 := Consume(m, path);
        var v := Resolve(env, m1.query, path);
        var kids := if v.None? then t[parent].children
          else Selected(env, t, parent, CategoryOf(Last(path)).value, v.value, m1);
        Sweep(env, t, parent, ValueName(v), kids, LoopState(path, m1, []));
    if t[parent].terminal.Some? && s.current.paths == [] then
      s.found + [s.current.(fact := t[parent].terminal)]
    else s.found
  }

  /** What one pass of the loop of `dispatch` keeps: the path keeps its
      tag, the node's match keeps its query, bindings and fact, and matches
      are only appended. */
  predicate LoopKeeps(t: Table, parent: nat, s: LoopState, r: LoopState) {
    |s.path| > 0 && |r.path| > 0 && Last(r.path) == Last(s.path) &&
    r.current.query == s.current.query && r.current.bindings == s.current.bindings &&
    r.current.fact == s.current.fact && |s.found| <= |r.found| && r.found[..|s.found|] == s.found
  }

  /** The loop of `dispatch` over the selected children `kids`. */
  function Sweep(env: Env, t: Table, parent: nat, name: string, kids: seq<nat>, s0: LoopState): (r: LoopState)
    requires Traversable(t) && parent < |t| && |s0.path| > 0
    requires forall k :: k in kids ==> k in t[parent].children
    ensures LoopKeeps(t, parent, s0, r)
    decreases |t| - parent, 0, |kids|
  {
    if kids == [] then s0
    else
      var s := Sweep(env, t, parent, name, kids[..|kids| - 1], s0);
      Visit(env, t, parent, name, kids[|kids| - 1], s)
  }

  /** One iteration: a label child re-targets `path` at its own label and
      consumes that path from the node's match, which later siblings see;
      the copy passed down binds the variable `name` to the child's value if
      it is not bound yet. */
  function Visit(env: Env, t: Table, parent: nat, name: string, child: nat, s: LoopState): (r: LoopState)
    requires Traversable(t) && parent < |t| && |s.path| > 0
    requires child in t[parent].children
    ensures LoopKeeps(t, parent, s, r)
    decreases |t| - parent, 0, 0
  {
    var isLabel := t[child].category == LabelCat;
    var path := if isLabel then DropTwo(s.path) + [t[child].value.value.s, Last(s.path)] else s.path;
    var m := if isLabel then Consume(s.current, path) else s.current;
    var next := if env.isVarName(name) && name !in m.bindings
      then m.(bindings := m.bindings[name := t[child].value]) else m;
    LoopState(path, m, s.found + DispatchOn(env, t, child, next))
  }

  lemma SweepStep(env: Env, t: Table, parent: nat, name: string, kids: seq<nat>, i: nat, s0: LoopState)
    requires Traversable(t) && parent < |t| && |s0.path| > 0
    requires forall k :: k in kids ==> k in t[parent].children
    requires i < |kids|
    ensures forall k :: k in kids[..i] ==> k in t[parent].children
    ensures kids[i] in t[parent].children
    ensures Sweep(env, t, parent, name, kids[..i + 1], s0)
      == Visit(env, t, parent, name, kids[i], Sweep(env, t, parent, name, kids[..i], s0))
  {
    assert kids[..i + 1][..i] == kids[..i];
    assert forall k :: k in kids[..i + 1] ==> k in kids;
    assert forall k :: k in kids[..i] ==> k in kids;
    assert kids[i] in kids;
  }

  /** `dispatch` at a node that records a path: the loop's matches, then the
      node's own match if it is a terminal and no path remains. */
  lemma DispatchUnfold(env: Env, t: Table, parent: nat, m: Match)
    requires Traversable(t) && parent < |t| && ChildPath(t[parent]) != []
    ensures var path := ChildPath(t[parent]);
      var m1 := Consume(m, path);
      var v := Resolve(env, m1.query, path);
      var kids := if v.None? then t[parent].children
        else Selected(env, t, parent, CategoryOf(Last(path)).value, v.value, m1);
      var s := Sweep(env, t, parent, ValueName(v), kids, LoopState(path, m1, []));
      DispatchOn(env, t, parent, m) ==
        if t[parent].terminal.Some? && s.current.paths == [] then
          s.found + [s.current.(fact := t[parent].terminal)]
        else s.found
  {
  }

  /** `b` keeps every binding of `a`. */
  predicate Extends(a: map<string, Option<NodeValue>>, b: map<string, Option<NodeValue>>) {
    forall k :: k in a ==> k in b && b[k] == a[k]
  }

  /** Row `n` is row `a` or lies in the subtree of one of `a`'s children. */
  predicate Below(t: Table, a: nat, n: nat)
    decreases n - a
  {
    a == n || (a < n < |t| && exists c :: c in t[a].children && a < c <= n && Below(t, c, n))
  }

  /** `f` is the fact of a terminal in the subtree rooted at `parent`. */
  predicate FromTable(t: Table, parent: nat, f: Option<Obj>) {
    exists n :: parent <= n < |t| && Below(t, parent, n) && t[n].terminal == f
  }

  /** A match `dispatch` from `parent` records for a query that started as
      `m0`. */
  predicate Answer(t: Table, parent: nat, m0: Match, r: Match) {
    r.paths == [] && r.query == m0.query && Extends(m0.bindings, r.bindings) &&
    r.fact.Some? && FromTable(t, parent, r.fact)
  }

  /** Every match `dispatch` records was reached at a node with a terminal,
      whose fact it carries, once no path of the query remained; it answers
      the same query, and keeps every binding it started with: a variable is
      bound only when it was not bound yet. */
  lemma {:induction false} DispatchAnswers(env: Env, t: Table, parent: nat, m: Match)
    requires Traversable(t) && parent < |t|
    ensures forall r :: r in DispatchOn(env, t, parent, m) ==> Answer(t, parent, m, r)
    decreases |t| - parent, 1
  {
    var path := ChildPath(t[parent]);
    var own := t[parent].terminal;
    if path != [] {
      var m1 := Consume(m, path);
      var v := Resolve(env, m1.query, path);
      var kids := if v.None? then t[parent].children
        else Selected(env, t, parent, CategoryOf(Last(path)).value, v.value, m1);
      SweepAnswers(env, t, parent, ValueName(v), kids, LoopState(path, m1, []), m);
      DispatchUnfold(env, t, parent, m);
      var s := Sweep(env, t, parent, ValueName(v), kids, LoopState(path, m1, []));
      if own.Some? && s.current.paths == [] {
        assert FromTable(t, parent, own) by {
          assert t[parent].terminal == own;
        }
        assert Answer(t, parent, m, s.current.(fact := own));
      }
    } else if own.Some? && m.paths == [] {
      assert FromTable(t, parent, own) by {
        assert t[parent].terminal == own;
      }
    }
  }

  lemma {:induction false} SweepAnswers(env: Env, t: Table, parent: nat, name: string, kids: seq<nat>, s0: LoopState, m0: Match)
    requires Traversable(t) && parent < |t| && |s0.path| > 0
    requires forall k :: k in kids ==> k in t[parent].children
    requires s0.current.query == m0.query && s0.current.bindings == m0.bindings
    requires forall r :: r in s0.found ==> Answer(t, parent, m0, r)
    ensures var s := Sweep(env, t, parent, name, kids, s0);
      s.current.query == m0.query && s.current.bindings == m0.bindings &&
      forall r :: r in s.found ==> Answer(t, parent, m0, r)
    decreases |t| - parent, 0, |kids|
  {
    if kids != [] {
      var init := kids[..|kids| - 1];
      assert forall k :: k in init ==> k in kids;
      SweepAnswers(env, t, parent, name, init, s0, m0);
      var s := Sweep(env, t, parent, name, init, s0);
      var child := kids[|kids| - 1];
      VisitAnswers(env, t, parent, name, child, s, m0);
    }
  }

  lemma {:induction false} VisitAnswers(env: Env, t: Table, parent: nat, name: string, child: nat, s: LoopState, m0: Match)
    requires Traversable(t) && parent < |t| && |s.path| > 0
    requires child in t[parent].children
    requires s.current.query == m0.query && s.current.bindings == m0.bindings
    requires forall r :: r in s.found ==> Answer(t, parent, m0, r)
    ensures var s' := Visit(env, t, parent, name, child, s);
      s'.current.query == m0.query && s'.current.bindings == m0.bindings &&
      forall r :: r in s'.found ==> Answer(t, parent, m0, r)
    decreases |t| - parent, 0, 0
  {
    var isLabel := t[child].category == LabelCat;
    var path := if isLabel then DropTwo(s.path) + [t[child].value.value.s, Last(s.path)] else s.path;
    var m := if isLabel then Consume(s.current, path) else s.current;
    var next := if env.isVarName(name) && name !in m.bindings
      then m.(bindings := m.bindings[name := t[child].value]) else m;
    DispatchAnswers(env, t, child, next);
    assert Extends(m0.bindings, next.bindings);
    forall r | r in DispatchOn(env, t, child, next) ensures Answer(t, parent, m0, r) {
      assert Answer(t, child, next, r);
      var n :| child <= n < |t| && Below(t, child, n) && t[n].terminal == r.fact;
      assert Below(t, parent, n);
    }
  }

  // ---------------------------------------------------------------------
  // query

  /** The match each pattern starts from: all of its paths to test and no
      bindings. */
  function StartMatch(q: Obj): Match
    requires q.Pred?
  {
    Match(q, GetPaths(q), map[], None)
  }

  /** The submatch list of `query`: `dispatch` from the root for each
      pattern, in order. */
  function Submatches(env: Env, t: Table, qs: seq<Obj>): (r: seq<seq<Match>>)
    requires Traversable(t) && |t| > 0 && forall q :: q in qs ==> q.Pred?
    ensures |r| == |qs|
  {
    if qs == [] then []
    else
      var init := qs[..|qs| - 1];
      assert forall q :: q in init ==> q in qs;
      Submatches(env, t, init) + [DispatchOn(env, t, 0, StartMatch(qs[|qs| - 1]))]
  }

  lemma SubmatchesStep(env: Env, t: Table, qs: seq<Obj>, i: nat)
    requires Traversable(t) && |t| > 0 && forall q :: q in qs ==> q.Pred?
    requires i < |qs|
    ensures forall q :: q in qs[..i] ==> q.Pred?
    ensures forall q :: q in qs[..i + 1] ==> q.Pred?
    ensures Submatches(env, t, qs[..i + 1]) == Submatches(env, t, qs[..i]) + [DispatchOn(env, t, 0, StartMatch(qs[i]))]
  {
    assert forall q :: q in qs[..i] ==> q in qs;
    assert forall q :: q in qs[..i + 1] ==> q in qs;
    assert qs[..i + 1][..i] == qs[..i];
  }

  /** Every submatch answers its own pattern: it carries a fact stored in
      the network, and every path of the pattern was consumed. */
  lemma {:induction false} SubmatchesAnswer(env: Env, t: Table, qs: seq<Obj>)
    requires Traversable(t) && |t| > 0 && forall q :: q in qs ==> q.Pred?
    ensures forall i, r :: 0 <= i < |qs| && r in Submatches(env, t, qs)[i] ==>
      Answer(t, 0, StartMatch(qs[i]), r)
  {
    if qs != [] {
      var init := qs[..|qs| - 1];
      assert forall q :: q in init ==> q in qs;
      SubmatchesAnswer(env, t, init);
      DispatchAnswers(env, t, 0, StartMatch(qs[|qs| - 1]));
      forall i, r | 0 <= i < |qs| && r in Submatches(env, t, qs)[i]
        ensures Answer(t, 0, StartMatch(qs[i]), r)
      {
        if i < |qs| - 1 {
          assert Submatches(env, t, qs)[i] == Submatches(env, t, init)[i];
          assert qs[i] == init[i];
        }
      }
    }
  }

  /** `query(*q)`: nothing for no pattern or an empty network, otherwise the
      join (`merge_submatches`, not part of this model) of the submatches. */
  function QueryOn(env: Env, t: Table, qs: seq<Obj>, merge: seq<seq<Match>> -> seq<Match>): seq<Match>
    requires Traversable(t) && |t| > 0 && forall q :: q in qs ==> q.Pred?
  {
    if qs == [] || ChildPath(t[0]) == [] then []
    else merge(Submatches(env, t, qs))
  }

  // ---------------------------------------------------------------------
  // Completeness on a fresh network

  /** Row `j` of `t` is no terminal, tests `q` and has the single child
      `j + 1`, which carries the category and value `q` resolves to in
      `term`. */
  predicate ChainLink(env: Env, t: Table, j: nat, term: Obj, q: Path) {
    PathShape(q) && j + 1 < |t| && t[j].terminal.None? && t[j].children == [j + 1] &&
    ChildPath(t[j]) == q && t[j + 1].category == CategoryOf(Last(q)).value &&
    t[j + 1].value == Resolve(env, term, q)
  }

  /** Rows `b` to `b + |ps|` of `t` are the chain a walk of `ps` builds from
      a childless row `b` that tests no path: one link per path, and a last
      row that has no child and tests no path. */
  predicate Chain(env: Env, t: Table, b: nat, term: Obj, ps: seq<Path>)
    decreases |ps|
  {
    if ps == [] then b < |t| && t[b].children == [] && ChildPath(t[b]) == []
    else ChainLink(env, t, b, term, ps[0]) && Chain(env, t, b + 1, term, ps[1..])
  }

  /** A walk from the last row, when it is no terminal, has no child and
      tests no path, creates one new row per path: the rows it adds form a
      chain. */
  lemma {:induction false} WalkChain(env: Env, t: Table, cur: nat, term: Obj, ps: seq<Path>)
    requires Linked(t) && cur == |t| - 1 && forall q :: q in ps ==> PathShape(q)
    requires t[cur].children == [] && ChildPath(t[cur]) == [] && t[cur].terminal.None?
    ensures var (t', e) := WalkPaths(env, t, cur, term, ps);
      e == cur + |ps| && |t'| == |t| + |ps| && Chain(env, t', cur, term, ps)
    decreases |ps|
  {
    if ps != [] {
      GetOrCreateSpec(env, t, cur, term, ps[0]);
      GetOrCreateLinked(env, t, cur, term, ps[0]);
      var (t1, k) := GetOrCreate(env, t, cur, term, ps[0]);
      assert k == |t|;
      assert forall q :: q in ps[1..] ==> q in ps;
      WalkChain(env, t1, k, term, ps[1..]);
      WalkFrame(env, t1, k, term, ps[1..]);
      var t2 := WalkPaths(env, t1, k, term, ps[1..]).0;
      assert t2[cur] == t1[cur];
      assert ChainLink(env, t2, cur, term, ps[0]);
    }
  }

  /** Setting the terminal of a chain's last row keeps the chain. */
  lemma {:induction false} ChainTerminal(env: Env, t: Table, b: nat, term: Obj, ps: seq<Path>, x: Option<Obj>)
    requires Chain(env, t, b, term, ps)
    ensures b + |ps| < |t| && Chain(env, t[b + |ps| := t[b + |ps|].(terminal := x)], b, term, ps)
    decreases |ps|
  {
    if ps != [] {
      ChainTerminal(env, t, b + 1, term, ps[1..], x);
      var t' := t[b + |ps| := t[b + |ps|].(terminal := x)];
      assert b + 1 + |ps[1..]| == b + |ps|;
      assert t'[b] == t[b] && t'[b + 1].category == t[b + 1].category && t'[b + 1].value == t[b + 1].value;
      assert ChainLink(env, t', b, term, ps[0]);
    }
  }

  /** A node whose only child carries the category and the (non-variable)
      value the node's test resolves to selects that child. */
  lemma SelectedOne(env: Env, t: Table, parent: nat, k: nat, c: Category, v: NodeValue, m: Match)
    requires parent < |t| && k < |t| && t[parent].children == [k]
    requires t[k].category == c && t[k].value == Some(v) && c != Root && !IsVar(env, v)
    ensures Selected(env, t, parent, c, v, m) == [k]
  {
    var r := Selected(env, t, parent, c, v, m);
    assert k in r;
  }

  /** The loop body for a child whose value binds nothing: the child's
      subtree is dispatched with the node's match, which a label child
      leaves alone when its re-targeted path is the node's own path and is
      no longer pending. */
  lemma VisitOwn(env: Env, t: Table, parent: nat, name: string, k: nat, s: LoopState)
    requires Traversable(t) && parent < |t| && k in t[parent].children && |s.path| > 0
    requires t[k].category == LabelCat ==>
      (|s.path| >= 2 && t[k].value == Some(VLabel(s.path[|s.path| - 2])) && s.path !in s.current.paths)
    requires !env.isVarName(name)
    ensures Visit(env, t, parent, name, k, s) ==
      LoopState(s.path, s.current, s.found + DispatchOn(env, t, k, s.current))
  {
    if t[k].category == LabelCat {
      assert DropTwo(s.path) + [t[k].value.value.s, Last(s.path)] == s.path;
    }
  }

  /** The children `dispatch` loops over at `parent` for the match `m`. */
  function KidsFor(env: Env, t: Table, parent: nat, m: Match): seq<nat>
    requires parent < |t| && PathShape(ChildPath(t[parent]))
  {
    var path := ChildPath(t[parent]);
    var m1 := Consume(m, path);
    var v := Resolve(env, m1.query, path);
    if v.None? then t[parent].children
    else Selected(env, t, parent, CategoryOf(Last(path)).value, v.value, m1)
  }

  /** `dispatch` at a node without a terminal that selects a single child
      whose value binds nothing goes on at that child with its own path
      consumed. */
  lemma DispatchSingle(env: Env, t: Table, parent: nat, k: nat, m: Match)
    requires Traversable(t) && parent < |t| && ChildPath(t[parent]) != [] && t[parent].terminal.None?
    requires PathShape(ChildPath(t[parent])) && KidsFor(env, t, parent, m) == [k] && k in t[parent].children
    requires var path := ChildPath(t[parent]);
      !env.isVarName(ValueName(Resolve(env, Consume(m, path).query, path))) &&
      (t[k].category == LabelCat ==>
        (|path| >= 2 && t[k].value == Some(VLabel(path[|path| - 2])) && path !in Consume(m, path).paths))
    ensures DispatchOn(env, t, parent, m) == DispatchOn(env, t, k, Consume(m, ChildPath(t[parent])))
  {
    var path := ChildPath(t[parent]);
    var m1 := Consume(m, path);
    var v := Resolve(env, m1.query, path);
    var name := ValueName(v);
    var s0 := LoopState(path, m1, []);
    DispatchUnfold(env, t, parent, m);
    assert [k][..0] == [];
    assert Sweep(env, t, parent, name, [k], s0) == Visit(env, t, parent, name, k, s0);
    VisitOwn(env, t, parent, name, k, s0);
  }

  /** No value the paths `ps` resolve to in `f` is a variable: neither a
      term with a variable name nor, through `getattr(value, 'name', '')`,
      a nameless value when the empty name counts as a variable. */
  predicate GroundOn(env: Env, f: Obj, ps: seq<Path>) {
    forall q :: q in ps ==> PathShape(q) && !env.isVarName(ValueName(Resolve(env, f, q)))
  }

  /** No value the fact's own paths resolve to is a variable. */
  predicate Ground(env: Env, f: Obj)
    requires f.Pred?
  {
    GroundOn(env, f, GetPaths(f))
  }

  /** The first of a list of paths without repeats is not among the
      others. */
  lemma NoRepeatsHead(ps: seq<Path>)
    requires NoRepeats(ps) && ps != []
    ensures ps[0] !in ps[1..]
  {
    forall j | 0 <= j < |ps[1..]| ensures ps[1..][j] != ps[0] {
      assert ps[1..][j] == ps[j + 1];
    }
  }

  /** The child of a link is a label node only for a label test, and then
      it carries the label the test names. */
  lemma LinkLabel(env: Env, t: Table, j: nat, term: Obj, q: Path)
    requires ChainLink(env, t, j, term, q) && t[j + 1].category == LabelCat
    ensures |q| >= 2 && t[j + 1].value == Some(VLabel(q[|q| - 2]))
  {
    assert Last(q) == LabelTag;
  }

  /** What `DispatchSingle` needs at the head of a chain built by `f`'s
      paths `ps`, for the query `f` with the paths `ps` still to test: the
      node tests `ps[0]`, selects its one child, and consuming its path
      leaves the later paths. */
  lemma ChainStepReady(env: Env, t: Table, b: nat, f: Obj, ps: seq<Path>, m: Match)
    requires Traversable(t) && ps != [] && ChainLink(env, t, b, f, ps[0])
    requires NoRepeats(ps) && GroundOn(env, f, ps) && m.query == f && m.paths == ps
    ensures b + 1 < |t| && ChildPath(t[b]) == ps[0] && PathShape(ps[0]) && t[b].terminal.None?
    ensures Consume(m, ps[0]) == m.(paths := ps[1..])
    ensures KidsFor(env, t, b, m) == [b + 1] && b + 1 in t[b].children
    ensures !env.isVarName(ValueName(Resolve(env, f, ps[0])))
    ensures t[b + 1].category == LabelCat ==>
      (|ps[0]| >= 2 && t[b + 1].value == Some(VLabel(ps[0][|ps[0]| - 2])) && ps[0] !in ps[1..])
  {
    var k := b + 1;
    var path := ps[0];
    NoRepeatsHead(ps);
    var m1 := Consume(m, path);
    var v := Resolve(env, f, path);
    var c := CategoryOf(Last(path)).value;
    if v.Some? {
      SelectedOne(env, t, b, k, c, v.value, m1);
    }
    if t[k].category == LabelCat {
      LinkLabel(env, t, b, f, path);
    }
  }

  /** The end of a chain records its terminal's match once no path is
      left. */
  lemma DispatchChainEnd(env: Env, t: Table, e: nat, m: Match)
    requires Traversable(t) && e < |t| && ChildPath(t[e]) == [] && m.paths == []
    ensures DispatchOn(env, t, e, m) ==
      if t[e].terminal.Some? then [m.(fact := t[e].terminal)] else []
  {
  }

  /** The rest of a path list without repeats and without variable values
      has neither. */
  lemma RestGround(env: Env, f: Obj, ps: seq<Path>)
    requires ps != [] && NoRepeats(ps) && GroundOn(env, f, ps)
    ensures NoRepeats(ps[1..]) && GroundOn(env, f, ps[1..])
  {
    assert forall q :: q in ps[1..] ==> q in ps;
    forall i, j | 0 <= i < j < |ps[1..]| ensures ps[1..][i] != ps[1..][j] {
      assert ps[1..][i] == ps[i + 1] && ps[1..][j] == ps[j + 1];
    }
  }

  /** A chain ends inside the table. */
  lemma {:induction false} ChainBound(env: Env, t: Table, b: nat, term: Obj, ps: seq<Path>)
    requires Chain(env, t, b, term, ps)
    ensures b + |ps| < |t|
    decreases |ps|
  {
    if ps != [] {
      ChainBound(env, t, b + 1, term, ps[1..]);
    }
  }

  /** What `dispatch` records at the end row `e` of a chain for the match
      `m` once every path is consumed. */
  function EndMatches(t: Table, e: nat, m: Match): seq<Match>
    requires e < |t|
  {
    if t[e].terminal.Some? then [m.(paths := [], fact := t[e].terminal)] else []
  }

  /** `dispatch` from row `b` for `m` records exactly what the end row `e`
      of a chain records. */
  predicate ReachesEnd(env: Env, t: Table, b: nat, e: nat, m: Match)
    requires Traversable(t) && b < |t|
  {
    e < |t| && DispatchOn(env, t, b, m) == EndMatches(t, e, m)
  }

  /** A node that selects only the next row, binds nothing and has no
      terminal records what the next row records for the match with its
      path consumed. */
  lemma HandOn(env: Env, t: Table, b: nat, e: nat, m: Match, ps: seq<Path>)
    requires Traversable(t) && b + 1 < |t| && ps != []
    requires ChildPath(t[b]) == ps[0] && PathShape(ps[0]) && t[b].terminal.None?
    requires Consume(m, ps[0]) == m.(paths := ps[1..])
    requires KidsFor(env, t, b, m) == [b + 1] && b + 1 in t[b].children
    requires !env.isVarName(ValueName(Resolve(env, m.query, ps[0])))
    requires t[b + 1].category == LabelCat ==>
      (|ps[0]| >= 2 && t[b + 1].value == Some(VLabel(ps[0][|ps[0]| - 2])) && ps[0] !in ps[1..])
    requires ReachesEnd(env, t, b + 1, e, m.(paths := ps[1..]))
    ensures ReachesEnd(env, t, b, e, m)
  {
    DispatchSingle(env, t, b, b + 1, m);
    assert EndMatches(t, e, m.(paths := ps[1..])) == EndMatches(t, e, m);
  }

  /** `dispatch` along a whole chain: the only match recorded is the one at
      the end of the chain, if that row is a terminal. */
  lemma {:induction false} DispatchChain(env: Env, t: Table, b: nat, f: Obj, ps: seq<Path>, m: Match)
    requires Traversable(t) && Chain(env, t, b, f, ps) && NoRepeats(ps) && GroundOn(env, f, ps)
    requires m.query == f && m.paths == ps
    ensures b < |t| && ReachesEnd(env, t, b, b + |ps|, m)
    decreases |ps|
  {
    ChainBound(env, t, b, f, ps);
    if ps == [] {
      DispatchChainEnd(env, t, b, m);
    } else {
      ChainStepReady(env, t, b, f, ps, m);
      RestGround(env, f, ps);
      DispatchChain(env, t, b + 1, f, ps[1..], m.(paths := ps[1..]));
      assert b + 1 + |ps[1..]| == b + |ps|;
      HandOn(env, t, b, b + |ps|, m, ps);
    }
  }

  /** The network after adding `f` to an empty one is a chain of `f`'s paths
      whose last row alone is a terminal, holding `f`. */
  lemma FreshChain(env: Env, f: Obj)
    requires f.Pred?
    ensures var t := AddFactOn(env, [NewNode(Root, None)], f);
      var ps := GetPaths(f);
      Chain(env, t, 0, f, ps) && |ps| < |t| && t[|ps|].terminal == Some(f)
  {
    var t0 := [NewNode(Root, None)];
    GetPathsShape(f);
    var ps := GetPaths(f);
    WalkChain(env, t0, 0, f, ps);
    WalkTerminals(env, t0, 0, f, ps);
    var (t1, e) := WalkFact(env, t0, f);
    ChainTerminal(env, t1, 0, f, ps, Some(f));
  }

  /** A fact added to an empty network is found again by the query for that
      very fact when none of its values is a variable: the one match
      recorded has consumed every path, bound nothing, and carries the
      fact. */
  lemma StoredFactFound(env: Env, f: Obj)
    requires f.Pred? && WellFormed(f) && Ground(env, f)
    ensures var t := AddFactOn(env, [NewNode(Root, None)], f);
      Traversable(t) && DispatchOn(env, t, 0, StartMatch(f)) == [Match(f, [], map[], Some(f))]
  {
    AddFactValid(env, [NewNode(Root, None)], f);
    FreshChain(env, f);
    ChainFound(env, AddFactOn(env, [NewNode(Root, None)], f), f);
  }

  /** On a network that is `f`'s chain ending in `f`, the query for `f`
      records exactly the match carrying `f`. */
  lemma ChainFound(env: Env, t: Table, f: Obj)
    requires f.Pred? && WellFormed(f) && Ground(env, f) && Traversable(t)
    requires Chain(env, t, 0, f, GetPaths(f)) && |GetPaths(f)| < |t| && t[|GetPaths(f)|].terminal == Some(f)
    ensures DispatchOn(env, t, 0, StartMatch(f)) == [Match(f, [], map[], Some(f))]
  {
    var ps := GetPaths(f);
    GetPathsDistinct(f);
    DispatchChain(env, t, 0, f, ps, StartMatch(f));
    assert ReachesEnd(env, t, 0, |ps|, StartMatch(f));
    assert EndMatches(t, |ps|, StartMatch(f)) == [Match(f, [], map[], Some(f))];
  }

  // ---------------------------------------------------------------------
  // Completeness on any network

  /** A node that tests `have` routes a fact whose next path is `want`: the
      same path, or for a label test a label test at the same position,
      since `dispatch` re-targets a label test at each label child's own
      label. */
  predicate PathAgrees(have: Path, want: Path) {
    if |want| > 0 && Last(want) == LabelTag then
      |have| > 0 && Last(have) == LabelTag && DropTwo(have) == DropTwo(want)
    else have == want
  }

  /** The child of `cur` that `get_or_create_node` finds for the path `q`
      of `term`, if there is one. */
  function Step(env: Env, t: Table, cur: nat, term: Obj, q: Path): Option<nat>
    requires Linked(t) && cur < |t| && PathShape(q)
  {
    FindChild(t, t[cur].children, CategoryOf(Last(q)).value, Resolve(env, term, q))
  }

  /** From `cur`, each path of `ps` in turn is tested by a node whose own
      path agrees with it and that has a child carrying the path's value. */
  predicate Route(env: Env, t: Table, cur: nat, term: Obj, ps: seq<Path>)
    requires Linked(t)
    decreases |ps|
  {
    cur < |t| &&
    (ps != [] ==>
      PathShape(ps[0]) && PathAgrees(ChildPath(t[cur]), ps[0]) &&
      Step(env, t, cur, term, ps[0]).Some? &&
      Route(env, t, Step(env, t, cur, term, ps[0]).value, term, ps[1..]))
  }

  /** The node a route ends at. */
  function RouteEnd(env: Env, t: Table, cur: nat, term: Obj, ps: seq<Path>): (r: nat)
    requires Linked(t) && Route(env, t, cur, term, ps)
    ensures cur <= r < |t|
    decreases |ps|
  {
    if ps == [] then cur
    else
      var k := Step(env, t, cur, term, ps[0]).value;
      assert k in t[cur].children;
      RouteEnd(env, t, k, term, ps[1..])
  }

  /** Walking `ps` for `term` from `cur` meets no node that already tests a
      path disagreeing with the one the walk brings: the network's shape
      admits the fact. */
  predicate Agrees(env: Env, t: Table, cur: nat, term: Obj, ps: seq<Path>)
    requires Linked(t) && cur < |t|
    decreases |ps|
  {
    ps != [] ==>
      PathShape(ps[0]) && (ChildPath(t[cur]) == [] || PathAgrees(ChildPath(t[cur]), ps[0])) &&
      (Step(env, t, cur, term, ps[0]).Some? ==>
        Agrees(env, t, Step(env, t, cur, term, ps[0]).value, term, ps[1..]))
  }

  /** A node without children or path admits any walk. */
  lemma FreshAgrees(env: Env, t: Table, cur: nat, term: Obj, ps: seq<Path>)
    requires Linked(t) && cur < |t| && t[cur].children == [] && ChildPath(t[cur]) == []
    requires forall q :: q in ps ==> PathShape(q)
    ensures Agrees(env, t, cur, term, ps)
  {
    if ps != [] {
      assert ps[0] in ps;
    }
  }

  /** One `get_or_create_node` step of an admitted walk: the node reached
      is the child the route takes, the parent's path agrees with the
      walk's, and the rest of the walk is admitted from there. */
  lemma WalkRouteStep(env: Env, t: Table, cur: nat, term: Obj, ps: seq<Path>)
    requires Valid(t) && cur < |t| && ps != [] && (forall q :: q in ps ==> PathShape(q))
    requires Agrees(env, t, cur, term, ps)
    ensures var (t1, k) := GetOrCreate(env, t, cur, term, ps[0]);
      && Valid(t1) && cur < k < |t1| && Step(env, t1, cur, term, ps[0]) == Some(k)
      && PathAgrees(ChildPath(t1[cur]), ps[0]) && Agrees(env, t1, k, term, ps[1..])
  {
    var q := ps[0];
    var c := CategoryOf(Last(q)).value;
    var v := Resolve(env, term, q);
    GetOrCreateSpec(env, t, cur, term, q);
    GetOrCreateLinked(env, t, cur, term, q);
    GetOrCreateValid(env, t, cur, term, q);
    var (t1, k) := GetOrCreate(env, t, cur, term, q);
    if k == |t| {
      assert forall x :: x in ps[1..] ==> x in ps;
      FreshAgrees(env, t1, k, term, ps[1..]);
      FindChildAppended(t1, t[cur].children, k, c, v);
    } else {
      assert Step(env, t, cur, term, q) == Some(k);
    }
  }

  /** A route is one agreeing step followed by a route from the child it
      takes. */
  lemma RouteCons(env: Env, t: Table, cur: nat, term: Obj, ps: seq<Path>, k: nat)
    requires Linked(t) && cur < |t| && ps != [] && PathShape(ps[0])
    requires PathAgrees(ChildPath(t[cur]), ps[0]) && Step(env, t, cur, term, ps[0]) == Some(k)
    requires Route(env, t, k, term, ps[1..])
    ensures Route(env, t, cur, term, ps) && RouteEnd(env, t, cur, term, ps) == RouteEnd(env, t, k, term, ps[1..])
  {
  }

  /** A walk from a child leaves its parent's path and found child as they
      were. */
  lemma WalkKeepsStep(env: Env, t: Table, cur: nat, k: nat, term: Obj, q: Path, rest: seq<Path>)
    requires Linked(t) && cur < k < |t| && PathShape(q) && (forall x :: x in rest ==> PathShape(x))
    requires Step(env, t, cur, term, q) == Some(k)
    ensures var t' := WalkPaths(env, t, k, term, rest).0;
      ChildPath(t'[cur]) == ChildPath(t[cur]) && Step(env, t', cur, term, q) == Some(k)
  {
    WalkFrame(env, t, k, term, rest);
    var t' := WalkPaths(env, t, k, term, rest).0;
    assert t'[cur] == t[cur];
    FindChildSameShape(t, t', t[cur].children, CategoryOf(Last(q)).value, Resolve(env, term, q));
  }

  /** A walk that the network admits leaves a route from `cur` along its
      paths that ends where the walk ends. */
  lemma {:induction false} WalkRoute(env: Env, t: Table, cur: nat, term: Obj, ps: seq<Path>)
    requires Valid(t) && cur < |t| && (forall q :: q in ps ==> PathShape(q))
    requires Agrees(env, t, cur, term, ps)
    ensures var (t', e) := WalkPaths(env, t, cur, term, ps);
      Route(env, t', cur, term, ps) && RouteEnd(env, t', cur, term, ps) == e
    decreases |ps|
  {
    if ps != [] {
      var q := ps[0];
      WalkRouteStep(env, t, cur, term, ps);
      GetOrCreateLinked(env, t, cur, term, q);
      var (t1, k) := GetOrCreate(env, t, cur, term, q);
      assert forall x :: x in ps[1..] ==> x in ps;
      WalkRoute(env, t1, k, term, ps[1..]);
      WalkKeepsStep(env, t1, cur, k, term, q, ps[1..]);
      var (t2, e) := WalkPaths(env, t1, k, term, ps[1..]);
      assert WalkPaths(env, t, cur, term, ps) == (t2, e);
      RouteCons(env, t2, cur, term, ps, k);
    }
  }

  /** A route depends only on what a found-child lookup and `child_path`
      read, not on terminals. */
  lemma {:induction false} RouteSameShape(env: Env, a: Table, b: Table, cur: nat, term: Obj, ps: seq<Path>)
    requires Linked(a) && Linked(b) && SameShape(a, b)
    requires forall i :: 0 <= i < |a| ==> ChildPath(a[i]) == ChildPath(b[i])
    requires Route(env, a, cur, term, ps)
    ensures Route(env, b, cur, term, ps) && RouteEnd(env, b, cur, term, ps) == RouteEnd(env, a, cur, term, ps)
    decreases |ps|
  {
    if ps != [] {
      var q := ps[0];
      FindChildSameShape(a, b, a[cur].children, CategoryOf(Last(q)).value, Resolve(env, term, q));
      RouteSameShape(env, a, b, Step(env, a, cur, term, q).value, term, ps[1..]);
    }
  }

  /** What the loop keeps of the state the route needs: pending paths are
      only consumed, and a re-targeted label test keeps its position. */
  lemma {:induction false} SweepShrinks(env: Env, t: Table, parent: nat, name: string, kids: seq<nat>, s0: LoopState)
    requires Traversable(t) && parent < |t| && |s0.path| > 0
    requires forall k :: k in kids ==> k in t[parent].children
    ensures var s := Sweep(env, t, parent, name, kids, s0);
      multiset(s.current.paths) <= multiset(s0.current.paths) && DropTwo(s.path) == DropTwo(s0.path)
    decreases |kids|
  {
    if kids != [] {
      var init := kids[..|kids| - 1];
      assert forall k :: k in init ==> k in kids;
      SweepShrinks(env, t, parent, name, init, s0);
      var s := Sweep(env, t, parent, name, init, s0);
      var child := kids[|kids| - 1];
      assert child in t[parent].children;
      if t[child].category == LabelCat {
        var p := DropTwo(s.path) + [t[child].value.value.s, Last(s.path)];
        assert DropTwo(p) == DropTwo(s.path) by {
          assert p[..|p| - 2] == DropTwo(s.path);
        }
      }
    }
  }

  /** A match the loop has recorded after some of the children is still
      recorded after all of them. */
  lemma {:induction false} SweepKeepsFound(env: Env, t: Table, parent: nat, name: string, kids: seq<nat>, j: nat, s0: LoopState)
    requires Traversable(t) && parent < |t| && |s0.path| > 0
    requires forall k :: k in kids ==> k in t[parent].children
    requires j <= |kids|
    ensures forall k :: k in kids[..j] ==> k in t[parent].children
    ensures forall x :: x in Sweep(env, t, parent, name, kids[..j], s0).found ==>
      x in Sweep(env, t, parent, name, kids, s0).found
    decreases |kids|
  {
    assert forall k :: k in kids[..j] ==> k in kids;
    if j == |kids| {
      assert kids[..j] == kids;
    } else {
      var init := kids[..|kids| - 1];
      assert forall k :: k in init ==> k in kids;
      assert init[..j] == kids[..j];
      SweepKeepsFound(env, t, parent, name, init, j, s0);
      var a := Sweep(env, t, parent, name, init, s0).found;
      var b := Sweep(env, t, parent, name, kids, s0).found;
      forall x | x in a ensures x in b {
        assert b[..|a|] == a;
      }
    }
  }

  /** The end of a route records the query's match with the node's
      terminal once no path is pending, whatever the node's children. */
  lemma RouteEndFound(env: Env, t: Table, e: nat, m: Match)
    requires Traversable(t) && e < |t| && m.paths == [] && t[e].terminal.Some?
    ensures Match(m.query, [], m.bindings, t[e].terminal) in DispatchOn(env, t, e, m)
  {
    var path := ChildPath(t[e]);
    if path != [] {
      DispatchUnfold(env, t, e, m);
      var m1 := Consume(m, path);
      var v := Resolve(env, m1.query, path);
      var kids := KidsFor(env, t, e, m);
      var s0 := LoopState(path, m1, []);
      SweepShrinks(env, t, e, ValueName(v), kids, s0);
      var s := Sweep(env, t, e, ValueName(v), kids, s0);
      assert |multiset(s.current.paths)| == 0;
      assert s.current.(fact := t[e].terminal) == Match(m.query, [], m.bindings, t[e].terminal);
    }
  }

  /** The child a route takes is among those `dispatch` loops over for the
      same fact. */
  lemma RouteKid(env: Env, t: Table, cur: nat, f: Obj, ps: seq<Path>, m: Match)
    requires Traversable(t) && Route(env, t, cur, f, ps) && ps != [] && GroundOn(env, f, ps)
    requires m.query == f
    ensures PathShape(ChildPath(t[cur]))
    ensures Step(env, t, cur, f, ps[0]).value in KidsFor(env, t, cur, m)
  {
    var q := ps[0];
    var k := Step(env, t, cur, f, q).value;
    var path := ChildPath(t[cur]);
    assert k in t[cur].children;
    assert q in ps;
    var m1 := Consume(m, path);
    var v := Resolve(env, f, path);
    if v.Some? {
      var c := CategoryOf(Last(path)).value;
      assert c == LabelCat || (path == q && t[k].category == c && t[k].value == v);
      assert k in Selected(env, t, cur, c, v.value, m1);
    }
  }

  /** One pass of the loop for the route's child: a label child re-targets
      the test at the route's own path and consumes it; the child's subtree
      is dispatched with the node's match, which binds nothing new. */
  lemma VisitRoute(env: Env, t: Table, parent: nat, name: string, k: nat, s: LoopState, q: Path)
    requires Traversable(t) && parent < |t| && k in t[parent].children && |s.path| > 0
    requires !env.isVarName(name)
    requires t[k].category == LabelCat ==>
      |q| >= 2 && Last(q) == LabelTag && t[k].value == Some(VLabel(q[|q| - 2])) &&
      Last(s.path) == LabelTag && DropTwo(s.path) == DropTwo(q)
    ensures Visit(env, t, parent, name, k, s).found ==
      s.found + DispatchOn(env, t, k, if t[k].category == LabelCat then Consume(s.current, q) else s.current)
  {
    if t[k].category == LabelCat {
      assert DropTwo(s.path) + [t[k].value.value.s, Last(s.path)] == q;
    }
  }

  /** The route's test at `cur` names no variable: a term test is the
      route's own path, and a label test has no name. */
  lemma RouteName(env: Env, t: Table, cur: nat, f: Obj, ps: seq<Path>)
    requires cur < |t| && ps != [] && GroundOn(env, f, ps)
    requires PathShape(ChildPath(t[cur])) && PathAgrees(ChildPath(t[cur]), ps[0])
    ensures !env.isVarName(ValueName(Resolve(env, f, ChildPath(t[cur]))))
  {
    assert ps[0] in ps;
    if Last(ps[0]) == LabelTag {
      assert ValueName(Resolve(env, f, ChildPath(t[cur]))) == ValueName(Resolve(env, f, ps[0]));
    }
  }

  /** Removing the route's path (and perhaps the node's own) from at most
      the route's paths leaves at most the later ones. */
  lemma ConsumeBoth(a: multiset<Path>, b: multiset<Path>, ps: seq<Path>, path: Path)
    requires ps != [] && a <= multiset(ps) && b <= a - multiset{path}
    ensures path == ps[0] ==> b <= multiset(ps[1..])
    ensures b - multiset{ps[0]} <= multiset(ps[1..])
  {
    assert ps == [ps[0]] + ps[1..];
  }

  /** The match the route's child is handed answers the same query, binds
      nothing new and has at most the route's later paths pending. */
  lemma RouteChildPending(env: Env, t: Table, cur: nat, f: Obj, ps: seq<Path>, m: Match, kids: seq<nat>, i: nat, name: string)
    requires Traversable(t) && cur < |t| && ps != [] && PathShape(ps[0])
    requires PathShape(ChildPath(t[cur])) && PathAgrees(ChildPath(t[cur]), ps[0])
    requires forall x :: x in kids ==> x in t[cur].children
    requires i < |kids| && Step(env, t, cur, f, ps[0]) == Some(kids[i])
    requires !env.isVarName(name) && m.query == f && multiset(m.paths) <= multiset(ps)
    ensures forall x :: x in kids[..i] ==> x in t[cur].children
    ensures var path := ChildPath(t[cur]);
      var si := Sweep(env, t, cur, name, kids[..i], LoopState(path, Consume(m, path), []));
      var m' := if t[kids[i]].category == LabelCat then Consume(si.current, ps[0]) else si.current;
      m'.query == f && m'.bindings == m.bindings && multiset(m'.paths) <= multiset(ps[1..])
  {
    var path := ChildPath(t[cur]);
    var s0 := LoopState(path, Consume(m, path), []);
    assert forall x :: x in kids[..i] ==> x in kids;
    SweepShrinks(env, t, cur, name, kids[..i], s0);
    var si := Sweep(env, t, cur, name, kids[..i], s0);
    ConsumeBoth(multiset(m.paths), multiset(si.current.paths), ps, path);
  }

  /** What the loop has recorded once it has passed the route's child: what
      it recorded before, and what `dispatch` records at that child. */
  lemma RouteChildSweep(env: Env, t: Table, cur: nat, f: Obj, ps: seq<Path>, m: Match, kids: seq<nat>, i: nat, name: string)
    requires Traversable(t) && cur < |t| && ps != [] && PathShape(ps[0])
    requires PathShape(ChildPath(t[cur])) && PathAgrees(ChildPath(t[cur]), ps[0])
    requires forall x :: x in kids ==> x in t[cur].children
    requires i < |kids| && Step(env, t, cur, f, ps[0]) == Some(kids[i])
    requires !env.isVarName(name) && m.query == f && multiset(m.paths) <= multiset(ps)
    ensures forall x :: x in kids[..i] ==> x in t[cur].children
    ensures var path := ChildPath(t[cur]);
      var s0 := LoopState(path, Consume(m, path), []);
      var si := Sweep(env, t, cur, name, kids[..i], s0);
      var m' := if t[kids[i]].category == LabelCat then Consume(si.current, ps[0]) else si.current;
      Sweep(env, t, cur, name, kids[..i + 1], s0).found == si.found + DispatchOn(env, t, kids[i], m')
  {
    var path := ChildPath(t[cur]);
    var s0 := LoopState(path, Consume(m, path), []);
    SweepStep(env, t, cur, name, kids, i, s0);
    SweepShrinks(env, t, cur, name, kids[..i], s0);
    VisitRoute(env, t, cur, name, kids[i], Sweep(env, t, cur, name, kids[..i], s0), ps[0]);
  }

  /** The match the route's child `kids[i]` is dispatched with: the node's
      match after the loop has passed the children before it, with the
      route's path consumed; it answers the same query, binds nothing new
      and has at most the route's later paths pending. */
  lemma RouteChildMatch(env: Env, t: Table, cur: nat, f: Obj, ps: seq<Path>, m: Match, kids: seq<nat>, i: nat, name: string)
    requires Traversable(t) && cur < |t| && ps != [] && PathShape(ps[0])
    requires PathShape(ChildPath(t[cur])) && PathAgrees(ChildPath(t[cur]), ps[0])
    requires forall x :: x in kids ==> x in t[cur].children
    requires i < |kids| && Step(env, t, cur, f, ps[0]) == Some(kids[i])
    requires !env.isVarName(name) && m.query == f && multiset(m.paths) <= multiset(ps)
    ensures forall x :: x in kids[..i] ==> x in t[cur].children
    ensures var path := ChildPath(t[cur]);
      var s0 := LoopState(path, Consume(m, path), []);
      var si := Sweep(env, t, cur, name, kids[..i], s0);
      var m' := if t[kids[i]].category == LabelCat then Consume(si.current, ps[0]) else si.current;
      && m'.query == f && m'.bindings == m.bindings && multiset(m'.paths) <= multiset(ps[1..])
      && Sweep(env, t, cur, name, kids[..i + 1], s0).found == si.found + DispatchOn(env, t, kids[i], m')
  {
    RouteChildPending(env, t, cur, f, ps, m, kids, i, name);
    RouteChildSweep(env, t, cur, f, ps, m, kids, i, name);
  }

  /** Whatever the loop over `dispatch`'s children records, `dispatch`
      records. */
  lemma DispatchKeepsSweep(env: Env, t: Table, parent: nat, m: Match)
    requires Traversable(t) && parent < |t| && ChildPath(t[parent]) != []
    ensures PathShape(ChildPath(t[parent]))
    ensures var path := ChildPath(t[parent]);
      var name := ValueName(Resolve(env, m.query, path));
      var kids := KidsFor(env, t, parent, m);
      (forall x :: x in kids ==> x in t[parent].children) &&
      forall x :: x in Sweep(env, t, parent, name, kids, LoopState(path, Consume(m, path), [])).found ==>
        x in DispatchOn(env, t, parent, m)
  {
    DispatchUnfold(env, t, parent, m);
  }

  /** The first position of `x` in `s`. */
  function IndexOf(s: seq<nat>, x: nat): (r: nat)
    requires x in s
    ensures r < |s| && s[r] == x
  {
    if s[0] == x then 0 else 1 + IndexOf(s[1..], x)
  }

  /** `m'` is a match `dispatch` at `cur` may hand to the child `k` for the
      query `m`: same query and bindings, at most the later paths `rest`
      pending, and all it records there is recorded at `cur`. */
  predicate HandsDown(env: Env, t: Table, cur: nat, k: nat, rest: seq<Path>, m: Match, m': Match)
    requires Traversable(t) && cur < |t| && k < |t|
  {
    m'.query == m.query && m'.bindings == m.bindings && multiset(m'.paths) <= multiset(rest) &&
    forall x :: x in DispatchOn(env, t, k, m') ==> x in DispatchOn(env, t, cur, m)
  }

  /** One node of a route: `dispatch` at `cur` hands the route's child a
      match that answers the same query, binds nothing new and has at most
      the later paths pending. */
  lemma RouteStep(env: Env, t: Table, cur: nat, f: Obj, ps: seq<Path>, m: Match)
    requires Traversable(t) && Route(env, t, cur, f, ps) && ps != [] && GroundOn(env, f, ps)
    requires m.query == f && multiset(m.paths) <= multiset(ps)
    ensures Step(env, t, cur, f, ps[0]).value < |t|
    ensures exists m' :: HandsDown(env, t, cur, Step(env, t, cur, f, ps[0]).value, ps[1..], m, m')
  {
    var k := Step(env, t, cur, f, ps[0]).value;
    RouteKid(env, t, cur, f, ps, m);
    RouteName(env, t, cur, f, ps);
    DispatchKeepsSweep(env, t, cur, m);
    var path := ChildPath(t[cur]);
    var name := ValueName(Resolve(env, f, path));
    var kids := KidsFor(env, t, cur, m);
    var i := IndexOf(kids, k);
    var s0 := LoopState(path, Consume(m, path), []);
    RouteChildMatch(env, t, cur, f, ps, m, kids, i, name);
    SweepKeepsFound(env, t, cur, name, kids, i + 1, s0);
    var si := Sweep(env, t, cur, name, kids[..i], s0);
    var m' := if t[k].category == LabelCat then Consume(si.current, ps[0]) else si.current;
    assert HandsDown(env, t, cur, k, ps[1..], m, m');
  }

  /** Dispatch along a route: the query for `f`, with at most the route's
      paths pending, reaches the route's end and records its terminal
      there, keeping its bindings. */
  lemma {:induction false} RouteFound(env: Env, t: Table, cur: nat, f: Obj, ps: seq<Path>, m: Match)
    requires Traversable(t) && Route(env, t, cur, f, ps) && GroundOn(env, f, ps)
    requires m.query == f && multiset(m.paths) <= multiset(ps)
    ensures var e := RouteEnd(env, t, cur, f, ps);
      t[e].terminal.Some? ==> Match(f, [], m.bindings, t[e].terminal) in DispatchOn(env, t, cur, m)
    decreases |ps|
  {
    var e := RouteEnd(env, t, cur, f, ps);
    if ps == [] {
      assert |multiset(m.paths)| == 0;
      if t[e].terminal.Some? {
        RouteEndFound(env, t, e, m);
      }
    } else {
      var k := Step(env, t, cur, f, ps[0]).value;
      RouteStep(env, t, cur, f, ps, m);
      var m' :| HandsDown(env, t, cur, k, ps[1..], m, m');
      assert forall x :: x in ps[1..] ==> x in ps;
      RouteFound(env, t, k, f, ps[1..], m');
    }
  }

  /** Setting a terminal keeps every route and where it ends. */
  lemma RouteKeepsTerminal(env: Env, t: Table, e: nat, x: Option<Obj>, term: Obj, ps: seq<Path>)
    requires Linked(t) && e < |t| && Route(env, t, 0, term, ps)
    ensures var t' := t[e := t[e].(terminal := x)];
      Linked(t') && Route(env, t', 0, term, ps) && RouteEnd(env, t', 0, term, ps) == RouteEnd(env, t, 0, term, ps)
  {
    var t' := t[e := t[e].(terminal := x)];
    assert SameShape(t, t');
    assert forall i :: 0 <= i < |t| ==> ChildPath(t[i]) == ChildPath(t'[i]);
    RouteSameShape(env, t, t', 0, term, ps);
  }

  /** After `add_fact` of an admitted fact, its paths form a route from the
      root to the node its walk ended at. */
  lemma AddFactRoute(env: Env, t: Table, f: Obj)
    requires Valid(t) && f.Pred? && Agrees(env, t, 0, f, GetPaths(f))
    ensures var t' := AddFactOn(env, t, f);
      Valid(t') && Route(env, t', 0, f, GetPaths(f)) && RouteEnd(env, t', 0, f, GetPaths(f)) == WalkFact(env, t, f).1
  {
    GetPathsShape(f);
    var ps := GetPaths(f);
    var (t1, n) := WalkFact(env, t, f);
    AddFactValid(env, t, f);
    WalkRoute(env, t, 0, f, ps);
    RouteKeepsTerminal(env, t1, n, Some(f), f, ps);
  }

  /** The node the walk of `add_fact` ends at holds the fact afterwards,
      unless it already held one. */
  lemma AddFactTerminal(env: Env, t: Table, f: Obj)
    requires Linked(t) && |t| > 0 && f.Pred?
    ensures var n := WalkFact(env, t, f).1;
      n < |AddFactOn(env, t, f)| &&
      AddFactOn(env, t, f)[n].terminal == (if n < |t| && t[n].terminal.Some? then t[n].terminal else Some(f))
  {
    GetPathsShape(f);
    AddFactKeepsTerminals(env, t, f);
    WalkTerminals(env, t, 0, f, GetPaths(f));
  }

  /** A fact the network's shape admits is found again, after `add_fact`, by
      the query for that very fact when none of its values is a variable:
      the query reaches the node the walk of `add_fact` ended at and records
      that node's terminal, which is the fact itself unless the node already
      held one. */
  lemma StoredFactFoundOn(env: Env, t: Table, f: Obj)
    requires Valid(t) && f.Pred? && WellFormed(f) && Ground(env, f)
    requires Agrees(env, t, 0, f, GetPaths(f))
    ensures var t' := AddFactOn(env, t, f);
      var n := WalkFact(env, t, f).1;
      && Traversable(t') && n < |t'|
      && t'[n].terminal == (if n < |t| && t[n].terminal.Some? then t[n].terminal else Some(f))
      && Match(f, [], map[], t'[n].terminal) in DispatchOn(env, t', 0, StartMatch(f))
  {
    var t' := AddFactOn(env, t, f);
    AddFactRoute(env, t, f);
    AddFactTerminal(env, t, f);
    RouteFound(env, t', 0, f, GetPaths(f), StartMatch(f));
  }

  // ---------------------------------------------------------------------
  // Earlier facts stay reachable; a shape-checked add_fact

  /** Children appended after a match do not change which child is found. */
  lemma {:induction false} FindChildExtended(t: Table, kids: seq<nat>, more: seq<nat>, c: Category, v: Option<NodeValue>)
    requires (forall k :: k in kids ==> k < |t|) && forall k :: k in more ==> k < |t|
    requires FindChild(t, kids, c, v).Some?
    ensures forall k :: k in kids + more ==> k < |t|
    ensures FindChild(t, kids + more, c, v) == FindChild(t, kids, c, v)
  {
    assert forall k :: k in kids + more ==> k in kids || k in more;
    assert kids != [] && (kids + more)[0] == kids[0] && kids[0] in kids;
    if !(t[kids[0]].category == c && t[kids[0]].value == v) {
      assert (kids + more)[1..] == kids[1..] + more;
      assert forall k :: k in kids[1..] ==> k in kids;
      FindChildExtended(t, kids[1..], more, c, v);
    }
  }

  /** Appending a child at `parent` keeps every found child and every
      node's test where a child is found. */
  lemma AppendKeepsStep(env: Env, t: Table, t1: Table, parent: nat, path: Path, cur: nat, f: Obj, q: Path)
    requires Valid(t) && Linked(t1) && parent < |t| && cur < |t| && |t1| == |t| + 1
    requires t1[parent].children == t[parent].children + [|t|]
    requires ChildPath(t1[parent]) == (if ChildPath(t[parent]) == [] then path else ChildPath(t[parent]))
    requires t1[parent].category == t[parent].category && t1[parent].value == t[parent].value
    requires forall j :: 0 <= j < |t| && j != parent ==> t1[j] == t[j]
    requires PathShape(q) && Step(env, t, cur, f, q).Some?
    ensures ChildPath(t1[cur]) == ChildPath(t[cur]) && Step(env, t1, cur, f, q) == Step(env, t, cur, f, q)
  {
    var c := CategoryOf(Last(q)).value;
    var j := Step(env, t, cur, f, q).value;
    assert j in t[cur].children;
    var kids := t[cur].children;
    FindChildSameShape(t, t1, kids, c, Resolve(env, f, q));
    if cur == parent {
      FindChildExtended(t1, kids, [|t|], c, Resolve(env, f, q));
    }
  }

  /** One `get_or_create_node` step keeps every existing route and where it
      ends: it only appends a child, and it sets a path only on a node that
      has no children yet. */
  lemma {:induction false} GetOrCreateKeepsRoute(env: Env, t: Table, parent: nat, term: Obj, path: Path,
                                                 cur: nat, f: Obj, ps: seq<Path>)
    requires Valid(t) && parent < |t| && PathShape(path) && Route(env, t, cur, f, ps)
    ensures var t1 := GetOrCreate(env, t, parent, term, path).0;
      Linked(t1) && Route(env, t1, cur, f, ps) && RouteEnd(env, t1, cur, f, ps) == RouteEnd(env, t, cur, f, ps)
    decreases |ps|
  {
    GetOrCreateSpec(env, t, parent, term, path);
    GetOrCreateLinked(env, t, parent, term, path);
    var (t1, k) := GetOrCreate(env, t, parent, term, path);
    if k == |t| && ps != [] {
      var q := ps[0];
      var j := Step(env, t, cur, f, q).value;
      AppendKeepsStep(env, t, t1, parent, path, cur, f, q);
      GetOrCreateKeepsRoute(env, t, parent, term, path, j, f, ps[1..]);
      RouteCons(env, t1, cur, f, ps, j);
    }
  }

  /** A whole walk keeps every existing route from the root. */
  lemma {:induction false} WalkKeepsRoute(env: Env, t: Table, cur: nat, term: Obj, paths: seq<Path>, f: Obj, ps: seq<Path>)
    requires Valid(t) && cur < |t| && (forall q :: q in paths ==> PathShape(q)) && Route(env, t, 0, f, ps)
    ensures var t' := WalkPaths(env, t, cur, term, paths).0;
      Valid(t') && Route(env, t', 0, f, ps) && RouteEnd(env, t', 0, f, ps) == RouteEnd(env, t, 0, f, ps)
    decreases |paths|
  {
    WalkValid(env, t, cur, term, paths);
    if paths != [] {
      GetOrCreateKeepsRoute(env, t, cur, term, paths[0], 0, f, ps);
      GetOrCreateValid(env, t, cur, term, paths[0]);
      var (t1, k) := GetOrCreate(env, t, cur, term, paths[0]);
      assert forall q :: q in paths[1..] ==> q in paths;
      WalkKeepsRoute(env, t1, k, term, paths[1..], f, ps);
    }
  }

  /** `f` has a route from the root along its own paths, and the route ends
      at a terminal. */
  predicate Findable(env: Env, t: Table, f: Obj)
    requires Linked(t)
  {
    f.Pred? && Route(env, t, 0, f, GetPaths(f)) && t[RouteEnd(env, t, 0, f, GetPaths(f))].terminal.Some?
  }

  /** A findable fact is found by the query for that very fact when none of
      its values is a variable: a match with every path consumed and no
      binding, carrying a fact the network holds. */
  lemma FindableFound(env: Env, t: Table, f: Obj)
    requires Traversable(t) && Findable(env, t, f) && Ground(env, f)
    ensures exists r :: (r in DispatchOn(env, t, 0, StartMatch(f)) &&
      r.query == f && r.paths == [] && r.bindings == map[] && r.fact.Some?)
  {
    RouteFound(env, t, 0, f, GetPaths(f), StartMatch(f));
    var e := RouteEnd(env, t, 0, f, GetPaths(f));
    assert Match(f, [], map[], t[e].terminal) in DispatchOn(env, t, 0, StartMatch(f));
  }

  /** `add_fact` of any fact keeps every findable fact findable, at the same
      terminal. */
  lemma AddFactKeepsFindable(env: Env, t: Table, g: Obj, f: Obj)
    requires Valid(t) && g.Pred? && Findable(env, t, f)
    ensures var t' := AddFactOn(env, t, g);
      Valid(t') && Findable(env, t', f) &&
      t'[RouteEnd(env, t', 0, f, GetPaths(f))].terminal == t[RouteEnd(env, t, 0, f, GetPaths(f))].terminal
  {
    GetPathsShape(g);
    var (t1, n) := WalkFact(env, t, g);
    AddFactValid(env, t, g);
    AddFactKeepsTerminals(env, t, g);
    WalkKeepsRoute(env, t, 0, g, GetPaths(g), f, GetPaths(f));
    RouteKeepsTerminal(env, t1, n, Some(g), f, GetPaths(f));
  }

  /** `add_fact` with a shape check: a fact whose walk meets a node whose
      recorded `child_path` differs from the fact's own path at that node is
      refused, and the network is left as it was. */
  function AddChecked(env: Env, t: Table, fact: Obj): (r: Option<Table>)
    requires Valid(t) && fact.Pred?
    ensures r.Some? <==> Agrees(env, t, 0, fact, GetPaths(fact))
    ensures r.Some? ==> Valid(r.value) && |r.value| >= |t|
  {
    if Agrees(env, t, 0, fact, GetPaths(fact)) then
      AddFactValid(env, t, fact);
      Some(AddFactOn(env, t, fact))
    else None
  }

  /** Shape-checked `add_fact` of each fact in turn: the final network and
      the facts accepted, in order. */
  function AddAllChecked(env: Env, t: Table, fs: seq<Obj>): (r: (Table, seq<Obj>))
    requires Valid(t) && forall f :: f in fs ==> f.Pred?
    ensures Valid(r.0) && forall f :: f in r.1 ==> f in fs
    decreases |fs|
  {
    if fs == [] then (t, [])
    else
      assert forall f :: f in fs[1..] ==> f in fs;
      match AddChecked(env, t, fs[0])
      case None => AddAllChecked(env, t, fs[1..])
      case Some(t1) =>
        var (t2, acc) := AddAllChecked(env, t1, fs[1..]);
        (t2, [fs[0]] + acc)
  }

  /** Shape-checked adds keep every findable fact findable. */
  lemma {:induction false} AddAllKeepsFindable(env: Env, t: Table, fs: seq<Obj>, f: Obj)
    requires Valid(t) && (forall g :: g in fs ==> g.Pred?) && Findable(env, t, f)
    ensures Findable(env, AddAllChecked(env, t, fs).0, f)
    decreases |fs|
  {
    if fs != [] {
      assert forall g :: g in fs[1..] ==> g in fs;
      match AddChecked(env, t, fs[0])
      case None =>
        AddAllKeepsFindable(env, t, fs[1..], f);
      case Some(t1) =>
        AddFactKeepsFindable(env, t, fs[0], f);
        AddAllKeepsFindable(env, t1, fs[1..], f);
    }
  }

  /** A fact `AddChecked` accepts is findable afterwards. */
  lemma AcceptedFindable(env: Env, t: Table, f: Obj)
    requires Valid(t) && f.Pred? && AddChecked(env, t, f).Some?
    ensures Findable(env, AddChecked(env, t, f).value, f)
  {
    assert AddChecked(env, t, f).value == AddFactOn(env, t, f);
    AddFactRoute(env, t, f);
    AddFactTerminal(env, t, f);
  }

  /** One step of `AddAllChecked`: a refused fact leaves the network, an
      accepted one is added before the rest. */
  lemma AddAllStep(env: Env, t: Table, fs: seq<Obj>)
    requires Valid(t) && (forall f :: f in fs ==> f.Pred?) && fs != []
    ensures forall f :: f in fs[1..] ==> f.Pred?
    ensures AddChecked(env, t, fs[0]).None? ==> AddAllChecked(env, t, fs) == AddAllChecked(env, t, fs[1..])
    ensures AddChecked(env, t, fs[0]).Some? ==>
      var r := AddAllChecked(env, AddChecked(env, t, fs[0]).value, fs[1..]);
      AddAllChecked(env, t, fs) == (r.0, [fs[0]] + r.1)
  {
    assert forall f :: f in fs[1..] ==> f in fs;
  }

  /** With shape-checked adds, every accepted fact is findable in the final
      network, and so found by its own query when it is well formed and
      none of its values is a variable. */
  lemma {:induction false} AcceptedFactsFound(env: Env, t: Table, fs: seq<Obj>)
    requires Valid(t) && forall f :: f in fs ==> f.Pred?
    ensures var (t', acc) := AddAllChecked(env, t, fs);
      forall f :: f in acc ==> Findable(env, t', f)
    decreases |fs|
  {
    if fs != [] {
      AddAllStep(env, t, fs);
      var c := AddChecked(env, t, fs[0]);
      if c.None? {
        AcceptedFactsFound(env, t, fs[1..]);
      } else {
        var t1 := c.value;
        AcceptedFindable(env, t, fs[0]);
        AcceptedFactsFound(env, t1, fs[1..]);
        AddAllKeepsFindable(env, t1, fs[1..], fs[0]);
      }
    }
  }

  // ---------------------------------------------------------------------
  // First write wins: a fact of another shape is stored but not found

  /** An environment without variables, subterms or types. */
  const Plain: Env := Env((x: Term, s: string) => false, (s: string) => {}, (s: string) => false)

  const Likes := Term("likes", None, [])

  /** `likes(s=alice)`: slot `s` holds a term. */
  const TermFiller := Pred(Likes, true, [("s", Atom(Term("alice", None, [])))])

  /** `likes(s=loves())`: slot `s` holds a predicate. */
  const PredFiller := Pred(Likes, true, [("s", Pred(Term("loves", None, []), true, []))])

  lemma TermFillerPaths()
    ensures GetPaths(TermFiller) == [[VerbTag], [NegTag], ["s", LabelTag], ["s", TermTag]]
  {
    var nil: Path := [];
    var a := TermFiller.objects;
    assert SortBy(a, ByLabel) == a;
    SlotsPathsStep(TermFiller, a, 0, nil);
    assert a[..1] == a;
    SlotPathsCases(TermFiller, a[0], nil);
    assert nil + ["s", LabelTag] == ["s", LabelTag] && nil + ["s", TermTag] == ["s", TermTag];
    assert nil + [VerbTag] == [VerbTag] && nil + [NegTag] == [NegTag];
  }

  lemma PredFillerPaths()
    ensures GetPaths(PredFiller) == [[VerbTag], [NegTag], ["s", LabelTag], ["s", VerbTag], ["s", NegTag]]
  {
    var nil: Path := [];
    var b := PredFiller.objects;
    assert SortBy(b, ByLabel) == b;
    SlotsPathsStep(PredFiller, b, 0, nil);
    assert b[..1] == b;
    SlotPathsCases(PredFiller, b[0], nil);
    assert nil + ["s", LabelTag] == ["s", LabelTag];
    assert nil + [VerbTag] == [VerbTag] && nil + [NegTag] == [NegTag];
    var inner := b[0].1;
    assert SortBy(inner.objects, ByLabel) == [];
    assert ["s"] + [VerbTag] == ["s", VerbTag] && ["s"] + [NegTag] == ["s", NegTag];
    assert nil + [b[0].0] == ["s"];
    assert PredPaths(inner, ["s"]) == [["s", VerbTag], ["s", NegTag]];
  }

  /** Both facts resolve alike at the paths they share, and differ at the
      filler of `s`. */
  lemma ClashValues()
    ensures forall q :: q in [[VerbTag], [NegTag], ["s", LabelTag]] ==>
      PathShape(q) && Resolve(Plain, TermFiller, q) == Resolve(Plain, PredFiller, q)
    ensures Resolve(Plain, TermFiller, ["s", TermTag]) == Some(VTerm(Term("alice", None, [])))
    ensures Resolve(Plain, PredFiller, ["s", TermTag]) == Some(VObj(Pred(Term("loves", None, []), true, [])))
  {
    var nil: Path := [];
    assert Init([VerbTag]) == nil && Init([NegTag]) == nil && Init(["s", TermTag]) == ["s"];
    assert Walk(PredFiller, ["s"]) == Some(Pred(Term("loves", None, []), true, []));
    assert Walk(TermFiller, ["s"]) == Some(Atom(Term("alice", None, [])));
  }

  /** A link makes its child the one `get_or_create_node` finds. */
  lemma LinkStep(env: Env, t: Table, j: nat, term: Obj, q: Path)
    requires Linked(t) && j < |t| && ChainLink(env, t, j, term, q)
    ensures Step(env, t, j, term, q) == Some(j + 1)
  {
  }

  /** The links of a chain, one by one, and its end. */
  lemma {:induction false} ChainAt(env: Env, t: Table, b: nat, term: Obj, ps: seq<Path>, i: nat)
    requires Chain(env, t, b, term, ps) && i <= |ps|
    ensures i < |ps| ==> ChainLink(env, t, b + i, term, ps[i])
    ensures i == |ps| ==> b + i < |t| && t[b + i].children == [] && ChildPath(t[b + i]) == []
    decreases i
  {
    if i > 0 {
      ChainAt(env, t, b + 1, term, ps[1..], i - 1);
    }
  }

  /** A link for one fact is a link for another that resolves alike at
      its path. */
  lemma LinkOther(env: Env, t: Table, j: nat, g: Obj, f: Obj, q: Path)
    requires ChainLink(env, t, j, g, q) && Resolve(env, g, q) == Resolve(env, f, q)
    ensures ChainLink(env, t, j, f, q)
  {
  }

  /** Two facts whose paths agree on the first three, which resolve alike,
      and then part: at its fourth path `g` has a term filler, while `f`
      tests a verb there and has something other than a term at `g`'s
      fourth path. */
  predicate ClashPair(env: Env, g: Obj, f: Obj) {
    && g.Pred? && f.Pred? && WellFormed(f) && Ground(env, f)
    && var pg := GetPaths(g);
    var pf := GetPaths(f);
    GetPathsShape(g);
    GetPathsShape(f);
    && |pg| == 4 && |pf| == 5 && pg[..3] == pf[..3]
    && PathShape(pg[3]) && PathShape(pf[3]) && Last(pg[3]) == TermTag && Last(pf[3]) == VerbTag
    && (forall j :: 0 <= j < 3 ==> Resolve(env, g, pg[j]) == Resolve(env, f, pg[j]))
    && Resolve(env, g, pg[3]).Some? && Resolve(env, g, pg[3]).value.VTerm?
    && Resolve(env, f, pg[3]).Some? && !Resolve(env, f, pg[3]).value.VTerm?
  }

  /** A network that is `g`'s chain: its first three links also carry
      what `f` resolves to, and its fourth node tests `g`'s term filler,
      with the single child `g`'s value. */
  lemma ClashLinks(env: Env, t1: Table, g: Obj, f: Obj)
    requires ClashPair(env, g, f) && Chain(env, t1, 0, g, GetPaths(g))
    ensures var pg := GetPaths(g);
      var pf := GetPaths(f);
      && |t1| > 4
      && ChainLink(env, t1, 0, f, pf[0])
      && ChainLink(env, t1, 1, f, pf[1])
      && ChainLink(env, t1, 2, f, pf[2])
      && ChildPath(t1[3]) == pg[3] && t1[3].children == [4] && t1[3].terminal.None?
      && t1[4].category == TermCat && t1[4].value == Resolve(env, g, pg[3])
      && LinksTo(env, t1, f, 3)
  {
    var pg := GetPaths(g);
    var pf := GetPaths(f);
    assert pg[0] == pf[0] && pg[1] == pf[1] && pg[2] == pf[2] by {
      assert pg[..3][0] == pg[0] && pg[..3][1] == pg[1] && pg[..3][2] == pg[2];
    }
    ChainAt(env, t1, 0, g, pg, 3);
    ChainAt(env, t1, 0, g, pg, 0);
    LinkOther(env, t1, 0, g, f, pg[0]);
    ChainAt(env, t1, 0, g, pg, 1);
    LinkOther(env, t1, 1, g, f, pg[1]);
    ChainAt(env, t1, 0, g, pg, 2);
    LinkOther(env, t1, 2, g, f, pg[2]);
    assert LinksTo(env, t1, f, 1);
    assert LinksTo(env, t1, f, 2);
  }

  /** The network holding only `g` is `g`'s chain, valid, with `g` at the
      end of its four links. */
  lemma ClashOldTable(env: Env, g: Obj, f: Obj)
    requires ClashPair(env, g, f)
    ensures var t1 := AddFactOn(env, [NewNode(Root, None)], g);
      Valid(t1) && Chain(env, t1, 0, g, GetPaths(g)) && |t1| > 4 && t1[4].terminal == Some(g)
  {
    assert Valid([NewNode(Root, None)]);
    AddFactValid(env, [NewNode(Root, None)], g);
    FreshChain(env, g);
  }

  /** A walk whose first path finds an existing child goes on from it
      with the table unchanged. */
  lemma WalkFound(env: Env, t: Table, cur: nat, term: Obj, ps: seq<Path>)
    requires Linked(t) && cur < |t| && ps != [] && (forall q :: q in ps ==> PathShape(q))
    requires Step(env, t, cur, term, ps[0]).Some?
    ensures Step(env, t, cur, term, ps[0]).value < |t| && forall q :: q in ps[1..] ==> PathShape(q)
    ensures WalkPaths(env, t, cur, term, ps) == WalkPaths(env, t, Step(env, t, cur, term, ps[0]).value, term, ps[1..])
  {
    assert ps[0] in ps && forall q :: q in ps[1..] ==> q in ps;
  }

  /** Admission looks past a node through the child it finds. */
  lemma AgreesStep(env: Env, t: Table, cur: nat, term: Obj, ps: seq<Path>)
    requires Linked(t) && cur < |t| && ps != [] && PathShape(ps[0]) && Step(env, t, cur, term, ps[0]).Some?
    ensures Step(env, t, cur, term, ps[0]).value < |t|
    ensures Agrees(env, t, cur, term, ps) ==> Agrees(env, t, Step(env, t, cur, term, ps[0]).value, term, ps[1..])
  {
  }

  /** Attaching the terminal changes only the row the walk reached, and
      only its terminal. */
  lemma AddFactRows(env: Env, t: Table, f: Obj)
    requires Linked(t) && |t| > 0 && f.Pred?
    ensures var (tw, e) := WalkFact(env, t, f);
      var t2 := AddFactOn(env, t, f);
      && |t2| == |tw|
      && (forall j :: 0 <= j < |tw| && j != e ==> t2[j] == tw[j])
      && t2[e].category == tw[e].category && t2[e].value == tw[e].value && t2[e].children == tw[e].children
  {
  }

  /** `f`'s walk over the network holding only `g` follows the first three
      links, and the check that `f`'s shape is admitted fails at the fourth
      node, which goes on testing `g`'s term path. */
  lemma ClashWalkPrefix(env: Env, t1: Table, g: Obj, f: Obj)
    requires ClashPair(env, g, f) && Valid(t1) && Chain(env, t1, 0, g, GetPaths(g))
    ensures |t1| > 4 && |GetPaths(f)| == 5
    ensures WalkFact(env, t1, f) == WalkPaths(env, t1, 3, f, GetPaths(f)[3..])
    ensures !Agrees(env, t1, 0, f, GetPaths(f))
  {
    var pf := GetPaths(f);
    GetPathsShape(f);
    ClashLinks(env, t1, g, f);
    LinkStep(env, t1, 0, f, pf[0]);
    LinkStep(env, t1, 1, f, pf[1]);
    LinkStep(env, t1, 2, f, pf[2]);
    WalkFound(env, t1, 0, f, pf);
    assert pf[1..][0] == pf[1] && pf[1..][1..] == pf[2..] && pf[2..][0] == pf[2] && pf[2..][1..] == pf[3..];
    WalkFound(env, t1, 1, f, pf[1..]);
    WalkFound(env, t1, 2, f, pf[2..]);
    AgreesStep(env, t1, 0, f, pf);
    AgreesStep(env, t1, 1, f, pf[1..]);
    AgreesStep(env, t1, 2, f, pf[2..]);
    assert pf[3..][0] == pf[3];
    assert !Agrees(env, t1, 3, f, pf[3..]);
  }

  /** A verb path at a node whose only child is a term node appends a new
      verb child and leaves the node's own test as it was. */
  lemma FourthVerbChild(env: Env, t1: Table, f: Obj, q: Path)
    requires Linked(t1) && |t1| > 4 && t1[3].children == [4] && t1[4].category == TermCat
    requires ChildPath(t1[3]) != [] && PathShape(q) && Last(q) == VerbTag
    ensures var (t1a, k) := GetOrCreate(env, t1, 3, f, q);
      && k == |t1| && Linked(t1a) && k < |t1a|
      && (forall j :: 0 <= j < |t1| && j != 3 ==> t1a[j] == t1[j])
      && t1a[3].children == [4, k] && ChildPath(t1a[3]) == ChildPath(t1[3]) && t1a[3].terminal == t1[3].terminal
      && t1a[3].category == t1[3].category && t1a[3].value == t1[3].value
      && t1a[k].category == Verb
  {
    GetOrCreateSpec(env, t1, 3, f, q);
    GetOrCreateLinked(env, t1, 3, f, q);
  }

  /** At the fourth node `f`'s verb path finds only `g`'s term child, so a
      new verb child is appended and the node keeps testing `g`'s path. */
  lemma ClashFourth(env: Env, t1: Table, g: Obj, f: Obj)
    requires ClashPair(env, g, f) && Valid(t1) && Chain(env, t1, 0, g, GetPaths(g))
    ensures |t1| > 4 && |GetPaths(f)| == 5
    ensures var pf := GetPaths(f);
      var (t1a, k) := GetOrCreate(env, t1, 3, f, pf[3]);
      && k == |t1| && Linked(t1a) && k < |t1a|
      && (forall j :: 0 <= j < |t1| && j != 3 ==> t1a[j] == t1[j])
      && t1a[3].children == [4, k] && ChildPath(t1a[3]) == GetPaths(g)[3] && t1a[3].terminal.None?
      && t1a[3].category == t1[3].category && t1a[3].value == t1[3].value
      && t1a[k].category == Verb
      && (forall q :: q in pf[4..] ==> PathShape(q))
      && WalkPaths(env, t1, 3, f, pf[3..]) == WalkPaths(env, t1a, k, f, pf[4..])
  {
    var pf := GetPaths(f);
    GetPathsShape(f);
    ClashLinks(env, t1, g, f);
    var q := pf[3];
    FourthVerbChild(env, t1, f, q);
    assert pf[3..][0] == q && pf[3..][1..] == pf[4..];
    assert forall x :: x in pf[4..] ==> x in pf;
  }

  /** `t2` is `t1` with a verb child appended to the fourth node, which
      keeps its own test; only rows past `t1` are new. */
  predicate VerbAppended(t1: Table, t2: Table) {
    && |t1| > 4 && |t2| > |t1|
    && (forall j :: 0 <= j < |t1| && j != 3 ==> t2[j] == t1[j])
    && t2[3].children == [4, |t1|] && ChildPath(t2[3]) == ChildPath(t1[3]) && t2[3].terminal.None?
    && t2[3].category == t1[3].category && t2[3].value == t1[3].value
    && t2[|t1|].category == Verb
  }

  /** The rows of the table after `f` is added to the network holding only
      `g`: only the fourth node and the new rows differ. */
  lemma ClashNewRows(env: Env, t1: Table, g: Obj, f: Obj)
    requires ClashPair(env, g, f) && Valid(t1) && Chain(env, t1, 0, g, GetPaths(g))
    ensures var t2 := AddFactOn(env, t1, f);
      && Valid(t2) && VerbAppended(t1, t2)
      && (exists n :: 0 <= n < |t2| && t2[n].terminal == Some(f))
  {
    var pf := GetPaths(f);
    ClashWalkPrefix(env, t1, g, f);
    ClashFourth(env, t1, g, f);
    AddFactValid(env, t1, f);
    var (t1a, k) := GetOrCreate(env, t1, 3, f, pf[3]);
    WalkFrame(env, t1a, k, f, pf[4..]);
    AddFactRows(env, t1, f);
    AddFactTerminal(env, t1, f);
    var t2 := AddFactOn(env, t1, f);
    assert forall j :: 0 <= j < k ==> t2[j] == t1a[j];
    assert t2[k].category == Verb;
  }

  /** A link carries over to a table that agrees on its two rows. */
  lemma LinkCopy(env: Env, t1: Table, t2: Table, j: nat, f: Obj, q: Path)
    requires ChainLink(env, t1, j, f, q) && j + 1 < |t2| && t2[j] == t1[j]
    requires t2[j + 1].category == t1[j + 1].category && t2[j + 1].value == t1[j + 1].value
    ensures ChainLink(env, t2, j, f, q)
  {
  }

  /** The first `n` links of `f`'s chain carry over to a table that agrees
      on every row they use but the last one's test. */
  lemma {:induction false} LinksCarry(env: Env, t1: Table, t2: Table, f: Obj, n: nat)
    requires f.Pred? && LinksTo(env, t1, f, n) && n < |t1| <= |t2|
    requires forall j :: 0 <= j < n ==> t2[j] == t1[j]
    requires t2[n].category == t1[n].category && t2[n].value == t1[n].value
    ensures LinksTo(env, t2, f, n)
    decreases n
  {
    if n > 0 {
      var pf := GetPaths(f);
      LinkCopy(env, t1, t2, n - 1, f, pf[n - 1]);
      LinksCarry(env, t1, t2, f, n - 1);
    }
  }

  /** `dispatch` at a node without a terminal whose term test finds no
      child with the value the query holds there records nothing. */
  lemma DispatchNoChild(env: Env, t: Table, e: nat, m: Match)
    requires Traversable(t) && e < |t| && PathShape(ChildPath(t[e])) && t[e].terminal.None?
    requires Last(ChildPath(t[e])) == TermTag
    requires var v := Resolve(env, m.query, ChildPath(t[e]));
      && v.Some? && !v.value.VTerm?
      && forall k :: k in t[e].children && k < |t| ==> t[k].category != TermCat || t[k].value != v
    ensures DispatchOn(env, t, e, m) == []
  {
    var path := ChildPath(t[e]);
    var m1 := Consume(m, path);
    var v := Resolve(env, m1.query, path);
    var kids := Selected(env, t, e, TermCat, v.value, m1);
    DispatchUnfold(env, t, e, m);
  }

  /** One link of a chain hands on what the next row reaches. */
  lemma ClimbLink(env: Env, t: Table, b: nat, e: nat, f: Obj, ps: seq<Path>, m: Match)
    requires Traversable(t) && ps != [] && ChainLink(env, t, b, f, ps[0])
    requires NoRepeats(ps) && GroundOn(env, f, ps) && m.query == f && m.paths == ps
    requires b + 1 < |t| && ReachesEnd(env, t, b + 1, e, m.(paths := ps[1..]))
    ensures ReachesEnd(env, t, b, e, m)
  {
    ChainStepReady(env, t, b, f, ps, m);
    HandOn(env, t, b, e, m, ps);
  }

  /** At the fourth node of a clash the query for `f` finds no child. */
  lemma ClashBase(env: Env, t2: Table, g: Obj, f: Obj)
    requires ClashPair(env, g, f) && Valid(t2) && |t2| > 4
    requires ChildPath(t2[3]) == GetPaths(g)[3] && t2[3].terminal.None?
    requires forall k :: k in t2[3].children ==> t2[k].category != TermCat || t2[k].value == Resolve(env, g, GetPaths(g)[3])
    ensures |GetPaths(f)| == 5 && ReachesEnd(env, t2, 3, 3, StartMatch(f).(paths := GetPaths(f)[3..]))
  {
    DispatchNoChild(env, t2, 3, StartMatch(f).(paths := GetPaths(f)[3..]));
  }

  /** The paths of a well-formed ground fact from position `j` on have no
      repeats and resolve to no variable. */
  lemma SuffixClean(env: Env, f: Obj, j: nat)
    requires f.Pred? && WellFormed(f) && Ground(env, f) && j <= |GetPaths(f)|
    ensures NoRepeats(GetPaths(f)[j..]) && GroundOn(env, f, GetPaths(f)[j..])
  {
    GetPathsDistinct(f);
    var pf := GetPaths(f);
    assert forall q :: q in pf[j..] ==> q in pf;
    forall a, b | 0 <= a < b < |pf[j..]| ensures pf[j..][a] != pf[j..][b] {
      assert pf[j..][a] == pf[j + a] && pf[j..][b] == pf[j + b];
    }
  }

  /** The query for `f` climbs one link of `f`'s chain at row `j`. */
  lemma ClimbAt(env: Env, t: Table, j: nat, e: nat, f: Obj)
    requires f.Pred? && WellFormed(f) && Ground(env, f) && Traversable(t) && j + 1 < |t|
    requires j < |GetPaths(f)| && ChainLink(env, t, j, f, GetPaths(f)[j])
    requires ReachesEnd(env, t, j + 1, e, StartMatch(f).(paths := GetPaths(f)[j + 1..]))
    ensures ReachesEnd(env, t, j, e, StartMatch(f).(paths := GetPaths(f)[j..]))
  {
    var pf := GetPaths(f);
    SuffixClean(env, f, j);
    assert pf[j..][0] == pf[j] && pf[j..][1..] == pf[j + 1..];
    ClimbLink(env, t, j, e, f, pf[j..], StartMatch(f).(paths := pf[j..]));
  }

  /** Rows `0` to `j` of `t` are the first `j` links of `f`'s chain. */
  predicate LinksTo(env: Env, t: Table, f: Obj, j: nat)
    requires f.Pred?
    decreases j
  {
    j <= |GetPaths(f)| && (j == 0 || (LinksTo(env, t, f, j - 1) && ChainLink(env, t, j - 1, f, GetPaths(f)[j - 1])))
  }

  /** The query for `f` climbs the first `j` links of `f`'s chain back to
      the root. */
  lemma {:induction false} ClimbTo(env: Env, t: Table, j: nat, e: nat, f: Obj)
    requires f.Pred? && WellFormed(f) && Ground(env, f) && Traversable(t) && j < |t|
    requires LinksTo(env, t, f, j)
    requires ReachesEnd(env, t, j, e, StartMatch(f).(paths := GetPaths(f)[j..]))
    ensures ReachesEnd(env, t, 0, e, StartMatch(f))
    decreases j
  {
    if j == 0 {
      assert GetPaths(f)[0..] == GetPaths(f);
    } else {
      ClimbAt(env, t, j - 1, e, f);
      ClimbTo(env, t, j - 1, e, f);
    }
  }

  /** Whatever the network holds, the query for `f` finds nothing when its
      walk reaches the fourth node of a clash and meets no child there. */
  lemma ClashDispatch(env: Env, t2: Table, g: Obj, f: Obj)
    requires ClashPair(env, g, f) && Valid(t2) && |t2| > 4 && LinksTo(env, t2, f, 3)
    requires ChildPath(t2[3]) == GetPaths(g)[3] && t2[3].terminal.None?
    requires forall k :: k in t2[3].children ==> t2[k].category != TermCat || t2[k].value == Resolve(env, g, GetPaths(g)[3])
    ensures DispatchOn(env, t2, 0, StartMatch(f)) == []
  {
    ClashBase(env, t2, g, f);
    ClimbTo(env, t2, 3, 3, f);
  }

  /** A table that differs from `g`'s chain only by a verb child added
      at the fourth node: the query for `f` finds nothing in it. */
  lemma ClashAfter(env: Env, t1: Table, t2: Table, g: Obj, f: Obj)
    requires ClashPair(env, g, f) && Valid(t1) && Chain(env, t1, 0, g, GetPaths(g))
    requires Valid(t2) && VerbAppended(t1, t2)
    ensures DispatchOn(env, t2, 0, StartMatch(f)) == []
  {
    ClashLinks(env, t1, g, f);
    LinksCarry(env, t1, t2, f, 3);
    forall c | c in t2[3].children
      ensures t2[c].category != TermCat || t2[c].value == Resolve(env, g, GetPaths(g)[3])
    {
    }
    ClashDispatch(env, t2, g, f);
  }

  /** `add_fact` as written, on a clash: once `f` is added to a network
      that is `g`'s chain (the network holding only `g` is one, by
      `ClashOldTable`), `f` is stored as a terminal but the query for `f`
      itself finds nothing; the checked builder refuses `f`. */
  lemma ClashHidden(env: Env, t1: Table, g: Obj, f: Obj)
    requires ClashPair(env, g, f) && Valid(t1) && Chain(env, t1, 0, g, GetPaths(g))
    ensures var t2 := AddFactOn(env, t1, f);
      && Traversable(t2)
      && (exists n :: 0 <= n < |t2| && t2[n].terminal == Some(f))
      && DispatchOn(env, t2, 0, StartMatch(f)) == []
      && AddChecked(env, t1, f).None?
  {
    ClashNewRows(env, t1, g, f);
    ClashWalkPrefix(env, t1, g, f);
    ClashAfter(env, t1, AddFactOn(env, t1, f), g, f);
  }

  /** `likes(s=alice)` and `likes(s=loves())` clash, so by `ClashOldTable`
      and `ClashHidden` the second, added after the first, is not found by
      its own query, although on its own it is (`StoredFactFound`). */
  lemma ShapeClash()
    ensures ClashPair(Plain, TermFiller, PredFiller)
  {
    TermFillerPaths();
    PredFillerPaths();
    ClashValues();
    assert Ground(Plain, PredFiller);
    assert WellFormed(PredFiller);
  }
}
