/** The `FactSet` of terms/factset.py: the discrimination network of
    asserted facts, kept as a table of nodes, with the path builder, node
    insertion, fact insertion, the recursive matcher and the query entry. */
module FactSets {
  import opened Text
  import opened Facts
  import opened Network

  class FactSet {
    /** The helpers of the lexicon, terms and pattern modules. */
    const env: Env
    /** The `factnodes` table; row 0 is the root. */
    var nodes: Table

    predicate Valid()
      reads this
    {
      Network.Valid(nodes)
    }

    /** `FactSet(lexicon)` over an empty store: `initialize` adds a root. */
    constructor (env: Env)
      ensures Valid()
      ensures this.env == env && nodes == [NewNode(Root, None)]
    {
      this.env := env;
      nodes := [NewNode(Root, None)];
    }

    /** `get_paths(pred)` */
    method GetPaths(pred: Obj) returns (paths: seq<Path>)
      requires pred.Pred?
      ensures paths == Facts.GetPaths(pred)
    {
      paths := RecursePaths(pred, [], []);
    }

    /** `_recurse_paths(pred, paths, path)`: appends the paths of `pred` under
        `prefix` to `paths`. */
    method RecursePaths(pred: Obj, paths: seq<Path>, prefix: Path) returns (out: seq<Path>)
      requires pred.Pred?
      ensures out == paths + PredPaths(pred, prefix)
      decreases pred
    {
      out := paths + [prefix + [VerbTag]];
      out := out + [prefix + [NegTag]];
      var objs := SortBy(pred.objects, ByLabel);
      ghost var head := [prefix + [VerbTag], prefix + [NegTag]];
      Assoc(paths, [prefix + [VerbTag]], [prefix + [NegTag]]);
      assert out == paths + head + [];
      SortedSlots(pred);
      for i := 0 to |objs|
        invariant SlotsOf(objs[..i], pred)
        invariant out == paths + head + SlotsPaths(pred, objs[..i], prefix)
      {
        SlotsPathsStep(pred, objs, i, prefix);
        SlotPathsCases(pred, objs[i], prefix);
        var slot := objs[i];
        ghost var before := out;
        var labelPath := prefix + [slot.0, LabelTag];
        out := out + [labelPath];
        if slot.1.Pred? {
          out := RecursePaths(slot.1, out, prefix + [slot.0]);
          Assoc(before, [labelPath], PredPaths(slot.1, prefix + [slot.0]));
        } else if slot.1.Atom? {
          out := out + [prefix + [slot.0, TermTag]];
          Assoc(before, [labelPath], [prefix + [slot.0, TermTag]]);
        }
        Assoc(paths + head, SlotsPaths(pred, objs[..i], prefix), SlotPaths(pred, slot, prefix));
      }
      assert objs[..|objs|] == objs;
      Assoc(paths, head, SlotsPaths(pred, objs, prefix));
    }

    /** `get_or_create_node(parent, term, path)`: the child of `parent` whose
        value is the one `term` resolves to at `path`, created and appended
        (recording `path` as the parent's `child_path` if it had none) when
        there is no such child. */
    method GetOrCreateNode(parent: nat, term: Obj, path: Path) returns (node: nat)
      requires Valid() && parent < |nodes| && PathShape(path)
      modifies this
      ensures (nodes, node) == GetOrCreate(env, old(nodes), parent, term, path)
      ensures Valid()
    {
      GetOrCreateValid(env, nodes, parent, term, path);
      var c := CategoryOf(Last(path)).value;
      var value := Resolve(env, term, path);
      var existing := FindChild(nodes, nodes[parent].children, c, value);
      if existing.Some? {
        node := existing.value;
      } else {
        node := |nodes|;
        var p := nodes[parent].(children := nodes[parent].children + [node]);
        if ChildPath(p) == [] {
          p := SetChildPath(p, path);
        }
        nodes := nodes[parent := p] + [NewNode(c, value)];
      }
    }

    /** `add_fact(fact)`: walk the fact's paths from the root, creating
        nodes as needed, then attach the fact as the terminal of the node
        reached unless it already has one. */
    method AddFact(fact: Obj)
      requires Valid() && fact.Pred?
      modifies this
      ensures nodes == AddFactOn(env, old(nodes), fact)
      ensures Valid()
    {
      var paths := GetPaths(fact);
      GetPathsShape(fact);
      var oldNode: nat := 0;
      for i := 0 to |paths|
        invariant Valid() && oldNode < |nodes|
        invariant WalkFact(env, old(nodes), fact) == WalkPaths(env, nodes, oldNode, fact, paths[i..])
      {
        assert paths[i..][1..] == paths[i + 1..];
        oldNode := GetOrCreateNode(oldNode, fact, paths[i]);
      }
      assert paths[|paths|..] == [];
      AddFactValid(env, old(nodes), fact);
      if nodes[oldNode].terminal.None? {
        nodes := nodes[oldNode := nodes[oldNode].(terminal := Some(fact))];
      }
    }

    /** `add_fact` refusing a fact whose shape the network does not admit:
        nothing changes for a refused fact, and every accepted fact stays
        found by its own query (`Network.AcceptedFactsFound`). */
    method AddFactChecked(fact: Obj) returns (accepted: bool)
      requires Valid() && fact.Pred?
      modifies this
      ensures accepted <==> Agrees(env, old(nodes), 0, fact, Facts.GetPaths(fact))
      ensures accepted ==> AddChecked(env, old(nodes), fact) == Some(nodes) && Findable(env, nodes, fact)
      ensures !accepted ==> nodes == old(nodes)
      ensures Valid()
    {
      accepted := Agrees(env, nodes, 0, fact, Facts.GetPaths(fact));
      if accepted {
        ghost var before := nodes;
        AddFact(fact);
        AcceptedFindable(env, before, fact);
      }
    }

    /** `dispatch(parent, match, matches)`: the matches found below
        `parent` are appended to `matches`. */
    method Dispatch(parent: nat, m: Match, matches: seq<Match>) returns (out: seq<Match>)
      requires Traversable(nodes) && parent < |nodes|
      ensures out == matches + DispatchOn(env, nodes, parent, m)
      ensures forall r :: r in out[|matches|..] ==> Answer(nodes, parent, m, r)
      decreases |nodes| - parent, 2
    {
      var current := m;
      var path := ChildPath(nodes[parent]);
      out := matches;
      if path != [] {
        DispatchUnfold(env, nodes, parent, m);
        current := Consume(current, path);
        var value := Resolve(env, current.query, path);
        var name := ValueName(value);
        var children := if value.None? then nodes[parent].children
          else Selected(env, nodes, parent, CategoryOf(Last(path)).value, value.value, current);
        path, current, out := SweepChildren(parent, name, children, path, current, matches);
      }
      if nodes[parent].terminal.Some? && current.paths == [] {
        Assoc(matches, out[|matches|..], [current.(fact := nodes[parent].terminal)]);
        out := out + [current.(fact := nodes[parent].terminal)];
      }
      DispatchAnswers(env, nodes, parent, m);
      assert out[|matches|..] == DispatchOn(env, nodes, parent, m);
    }

    /** The loop of `dispatch` over the selected children: `path` and the
        node's match as the loop leaves them, and the matches found below
        the children appended to `matches`. */
    method SweepChildren(parent: nat, name: string, children: seq<nat>, path: Path, current: Match, matches: seq<Match>)
      returns (path': Path, current': Match, out: seq<Match>)
      requires Traversable(nodes) && parent < |nodes| && |path| > 0
      requires forall k :: k in children ==> k in nodes[parent].children
      ensures var s := Sweep(env, nodes, parent, name, children, LoopState(path, current, []));
        path' == s.path && current' == s.current && out == matches + s.found
      decreases |nodes| - parent, 1
    {
      ghost var s0 := LoopState(path, current, []);
      ghost var found: seq<Match> := [];
      path', current', out := path, current, matches;
      for i := 0 to |children|
        invariant |path'| > 0
        invariant out == matches + found
        invariant Sweep(env, nodes, parent, name, children[..i], s0) == LoopState(path', current', found)
      {
        SweepStep(env, nodes, parent, name, children, i, s0);
        path', current', found, out := VisitChild(parent, name, children[i], path', current', found, matches, out);
      }
      assert children[..|children|] == children;
    }

    /** One turn of the loop of `dispatch` over the selected children. */
    method VisitChild(parent: nat, name: string, child: nat, path: Path, current: Match,
                      ghost found: seq<Match>, ghost matches: seq<Match>, out: seq<Match>)
      returns (path': Path, current': Match, ghost found': seq<Match>, out': seq<Match>)
      requires Traversable(nodes) && parent < |nodes| && |path| > 0
      requires child in nodes[parent].children
      requires out == matches + found
      ensures LoopState(path', current', found') ==
        Visit(env, nodes, parent, name, child, LoopState(path, current, found))
      ensures out' == matches + found'
      decreases |nodes| - parent, 0
    {
      path', current' := path, current;
      if nodes[child].category == LabelCat {
        path' := DropTwo(path) + [nodes[child].value.value.s, Last(path)];
        current' := Consume(current', path');
      }
      var next := current';
      if env.isVarName(name) && name !in current'.bindings {
        next := next.(bindings := next.bindings[name := nodes[child].value]);
      }
      out' := Dispatch(child, next, out);
      Assoc(matches, found, DispatchOn(env, nodes, child, next));
      found' := found + DispatchOn(env, nodes, child, next);
    }

    /** `query(*q)`: for each pattern, a fresh match holding all of its
        paths is dispatched from the root; the submatch lists are joined by
        `merge` (`merge_submatches`). No pattern, or a root that has never
        recorded a path, gives no result. */
    method Query(qs: seq<Obj>, merge: seq<seq<Match>> -> seq<Match>) returns (r: seq<Match>)
      requires Valid() && forall q :: q in qs ==> q.Pred?
      ensures r == QueryOn(env, nodes, qs, merge)
      ensures qs == [] || ChildPath(nodes[0]) == [] ==> r == []
    {
      if qs == [] || ChildPath(nodes[0]) == [] {
        return [];
      }
      var submatches: seq<seq<Match>> := [];
      assert Traversable(nodes);
      for i := 0 to |qs|
        invariant submatches == Submatches(env, nodes, qs[..i])
      {
        SubmatchesStep(env, nodes, qs, i);
        var paths := GetPaths(qs[i]);
        var m := Match(qs[i], paths, map[], None);
        assert m == StartMatch(qs[i]);
        var smatches := Dispatch(0, m, []);
        assert smatches == DispatchOn(env, nodes, 0, m) by {
          assert [] + DispatchOn(env, nodes, 0, m) == DispatchOn(env, nodes, 0, m);
        }
        submatches := submatches + [smatches];
      }
      assert qs[..|qs|] == qs;
      r := merge(submatches);
    }
  }
}
