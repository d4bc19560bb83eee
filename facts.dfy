/** What the fact network reads from a predicate: the slot fillers, the
    paths `get_paths` derives from them, navigation with `get_object`, and
    the discriminant each node category resolves at a path
    (terms/factset.py). The Predicate, Term and Object records themselves
    live in terms/terms.py, which is not part of this model: they are
    reduced here to the fields the network reads. */
module Facts {
  import opened Text

  /** A registered term: its name, the term it is an instance of
      (`term_type`, absent for the root) and its bases in order. */
  datatype Term = Term(name: string, termType: Option<Term>, bases: seq<Term>)

  /** What fills a slot of a predicate: a term, a nested predicate (an
      instance of an `exists` subclass; `truth` is its `true` flag, `false`
      for a negated one) or a value of some other kind. */
  datatype Obj =
    | Atom(term: Term)
    | Pred(verb: Term, truth: bool, objects: seq<(string, Obj)>)
    | Other

  /** The helpers the network calls: `isa(term, <the registered term of
      that name>)` and the variable-name pattern `patterns.varpat`, from code
      that is not part of this model, and `lexicon.get_subterms(<term of that
      name>)` as a set of names, a method `Lexicon` does not define and that
      is taken here as given. */
  datatype Env = Env(
    isa: (Term, string) -> bool,
    subterms: string -> set<string>,
    isVarName: string -> bool)

  type Path = seq<string>

  const VerbTag := "_verb"
  const NegTag := "_neg"
  const LabelTag := "_label"
  const TermTag := "_term"
  /** The polymorphic identity of the root node class. */
  const RootTag := "_root"

  predicate IsTag(s: string) {
    s == VerbTag || s == NegTag || s == LabelTag || s == TermTag
  }

  function Last(p: Path): string
    requires |p| > 0
  {
    p[|p| - 1]
  }

  /** `path[:-1]` */
  function Init(p: Path): Path
    requires |p| > 0
  {
    p[..|p| - 1]
  }

  /** A path a node can test: it ends in a category tag, and a label test
      also names the label just before the tag. */
  predicate PathShape(p: Path) {
    |p| > 0 && IsTag(Last(p)) && (Last(p) == LabelTag ==> |p| >= 2)
  }

  function ByLabel(slot: (string, Obj)): string {
    slot.0
  }

  /** Labels are unique within every predicate, at every depth (the slots
      are Python keyword arguments). */
  predicate WellFormed(o: Obj) {
    match o
    case Pred(_, _, objs) =>
      DistinctKeys(objs, ByLabel) && forall i :: 0 <= i < |objs| ==> WellFormed(objs[i].1)
    case _ => true
  }

  // ---------------------------------------------------------------------
  // get_paths / _recurse_paths

  /** The paths `_recurse_paths(pred, paths, prefix)` appends: the verb test,
      the negation test, then for each slot in ascending label order its
      label test followed by the nested predicate's paths (under
      `prefix + [label]`), a term test, or nothing for any other filler. */
  function PredPaths(p: Obj, prefix: Path): seq<Path>
    requires p.Pred?
    decreases p, 1
  {
    SortedSlots(p);
    [prefix + [VerbTag], prefix + [NegTag]] + SlotsPaths(p, SortBy(p.objects, ByLabel), prefix)
  }

  /** Every slot of `objs` is a slot of the predicate `p`. */
  predicate SlotsOf(objs: seq<(string, Obj)>, p: Obj)
    requires p.Pred?
  {
    forall x :: x in objs ==> x in p.objects
  }

  lemma SortedSlots(p: Obj)
    requires p.Pred?
    ensures SlotsOf(SortBy(p.objects, ByLabel), p)
  {
    var objs := SortBy(p.objects, ByLabel);
    forall x | x in objs ensures x in p.objects {
      assert x in multiset(objs);
    }
  }

  lemma SlotsOfInit(objs: seq<(string, Obj)>, p: Obj)
    requires p.Pred? && SlotsOf(objs, p) && objs != []
    ensures SlotsOf(objs[..|objs| - 1], p) && objs[|objs| - 1] in p.objects
    ensures objs == objs[..|objs| - 1] + [objs[|objs| - 1]]
  {
    assert forall x :: x in objs[..|objs| - 1] ==> x in objs;
  }

  /** The paths of the slots `objs`, in that order; `p` is the predicate they
      come from. */
  function SlotsPaths(p: Obj, objs: seq<(string, Obj)>, prefix: Path): seq<Path>
    requires p.Pred? && SlotsOf(objs, p)
    decreases p, 0, |objs|
  {
    if objs == [] then []
    else
      SlotsOfInit(objs, p);
      var init := objs[..|objs| - 1];
      var slot := objs[|objs| - 1];
      SlotsPaths(p, init, prefix) + SlotPaths(p, slot, prefix)
  }

  /** The paths of one slot. */
  function SlotPaths(p: Obj, slot: (string, Obj), prefix: Path): seq<Path>
    requires p.Pred? && slot in p.objects
    decreases p, 0, 0
  {
    [prefix + [slot.0, LabelTag]] +
    match slot.1
    case Pred(_, _, _) => PredPaths(slot.1, prefix + [slot.0])
    case Atom(_) => [prefix + [slot.0, TermTag]]
    case Other => []
  }

  /** `get_paths(pred)` */
  function GetPaths(p: Obj): seq<Path>
    requires p.Pred?
  {
    PredPaths(p, [])
  }

  /** One more slot of a sorted slot list adds that slot's paths. */
  lemma SlotsPathsStep(p: Obj, objs: seq<(string, Obj)>, i: nat, prefix: Path)
    requires p.Pred? && objs == SortBy(p.objects, ByLabel) && i < |objs|
    ensures SlotsOf(objs[..i], p)
    ensures SlotsOf(objs[..i + 1], p) && objs[i] in p.objects
    ensures SlotsPaths(p, objs[..i + 1], prefix) == SlotsPaths(p, objs[..i], prefix) + SlotPaths(p, objs[i], prefix)
  {
    SortedSlots(p);
    assert forall x :: x in objs[..i + 1] ==> x in objs;
    assert objs[..i + 1][..i] == objs[..i];
  }

  lemma SlotPathsCases(p: Obj, slot: (string, Obj), prefix: Path)
    requires p.Pred? && slot in p.objects
    ensures slot.1.Pred? ==> SlotPaths(p, slot, prefix) == [prefix + [slot.0, LabelTag]] + PredPaths(slot.1, prefix + [slot.0])
    ensures slot.1.Atom? ==> SlotPaths(p, slot, prefix) == [prefix + [slot.0, LabelTag], prefix + [slot.0, TermTag]]
    ensures slot.1.Other? ==> SlotPaths(p, slot, prefix) == [prefix + [slot.0, LabelTag]]
  {
  }

  // ---------------------------------------------------------------------
  // Shape of the paths

  /** Every path `_recurse_paths` emits extends its prefix and is a path a
      node can test. */
  lemma {:induction false} PredPathsShape(p: Obj, prefix: Path)
    requires p.Pred?
    ensures forall q :: q in PredPaths(p, prefix) ==>
      PathShape(q) && |q| > |prefix| && q[..|prefix|] == prefix
    decreases p, 1
  {
    var objs := SortBy(p.objects, ByLabel);
    SortedSlots(p);
    SlotsPathsShape(p, objs, prefix);
    assert (prefix + [VerbTag])[..|prefix|] == prefix;
    assert (prefix + [NegTag])[..|prefix|] == prefix;
  }

  lemma {:induction false} SlotsPathsShape(p: Obj, objs: seq<(string, Obj)>, prefix: Path)
    requires p.Pred? && SlotsOf(objs, p)
    ensures forall q :: q in SlotsPaths(p, objs, prefix) ==>
      PathShape(q) && |q| > |prefix| && q[..|prefix|] == prefix
    decreases p, 0, |objs|
  {
    if objs != [] {
      SlotsOfInit(objs, p);
      var init := objs[..|objs| - 1];
      var slot := objs[|objs| - 1];
      SlotsPathsShape(p, init, prefix);
      SlotPathsShape(p, slot, prefix);
    }
  }

  lemma {:induction false} SlotPathsShape(p: Obj, slot: (string, Obj), prefix: Path)
    requires p.Pred? && slot in p.objects
    ensures forall q :: q in SlotPaths(p, slot, prefix) ==>
      PathShape(q) && |q| > |prefix| && q[..|prefix|] == prefix
    decreases p, 0, 0
  {
    var sub := prefix + [slot.0];
    assert (prefix + [slot.0, LabelTag])[..|prefix|] == prefix;
    assert (prefix + [slot.0, TermTag])[..|prefix|] == prefix;
    if slot.1.Pred? {
      PredPathsShape(slot.1, sub);
      forall q | q in PredPaths(slot.1, sub)
        ensures q[..|prefix|] == prefix
      {
        assert q[..|prefix|] == q[..|sub|][..|prefix|];
      }
    }
  }

  /** The paths of a predicate open with its verb test and its negation
      test, and every path of a fact is a path a node can test. */
  lemma GetPathsShape(p: Obj)
    requires p.Pred?
    ensures |GetPaths(p)| >= 2
    ensures GetPaths(p)[0] == [VerbTag] && GetPaths(p)[1] == [NegTag]
    ensures forall q :: q in GetPaths(p) ==> PathShape(q)
  {
    PredPathsShape(p, []);
  }

  // ---------------------------------------------------------------------
  // No path twice

  /** No path occurs twice in `ps`. */
  predicate NoRepeats(ps: seq<Path>) {
    forall i, j :: 0 <= i < j < |ps| ==> ps[i] != ps[j]
  }

  lemma NoRepeatsConcat(a: seq<Path>, b: seq<Path>)
    requires NoRepeats(a) && NoRepeats(b) && forall q :: q in a ==> q !in b
    ensures NoRepeats(a + b)
  {
    forall i, j | 0 <= i < j < |a + b| ensures (a + b)[i] != (a + b)[j] {
      if i < |a| && |a| <= j {
        assert (a + b)[i] in a && (a + b)[j] == b[j - |a|];
      } else if |a| <= i {
        assert (a + b)[i] == b[i - |a|] && (a + b)[j] == b[j - |a|];
      }
    }
  }

  /** The labels of the slots `objs`. */
  function Labels(objs: seq<(string, Obj)>): set<string> {
    set x | x in objs :: x.0
  }

  /** A well-formed predicate emits no path twice: its own tests are one
      segment longer than the prefix and never label tests, and the paths
      of different slots part at the slot label. */
  lemma {:induction false} PredPathsDistinct(p: Obj, prefix: Path)
    requires p.Pred? && WellFormed(p)
    ensures NoRepeats(PredPaths(p, prefix))
    ensures forall q :: q in PredPaths(p, prefix) && |q| == |prefix| + 1 ==> Last(q) != LabelTag
    decreases p, 1
  {
    var objs := SortBy(p.objects, ByLabel);
    SortedSlots(p);
    DistinctKeysPermutation(p.objects, objs, ByLabel);
    SlotsPathsDistinct(p, objs, prefix);
    var own := [prefix + [VerbTag], prefix + [NegTag]];
    assert Last(own[0]) != Last(own[1]);
    NoRepeatsConcat(own, SlotsPaths(p, objs, prefix));
  }

  lemma {:induction false} SlotsPathsDistinct(p: Obj, objs: seq<(string, Obj)>, prefix: Path)
    requires p.Pred? && WellFormed(p) && SlotsOf(objs, p) && DistinctKeys(objs, ByLabel)
    ensures NoRepeats(SlotsPaths(p, objs, prefix))
    ensures forall q :: q in SlotsPaths(p, objs, prefix) ==>
      |q| >= |prefix| + 2 && q[|prefix|] in Labels(objs)
    decreases p, 0, |objs|
  {
    if objs != [] {
      SlotsOfInit(objs, p);
      var init := objs[..|objs| - 1];
      var slot := objs[|objs| - 1];
      assert DistinctKeys(init, ByLabel) by {
        forall i, j | 0 <= i < j < |init| ensures ByLabel(init[i]) != ByLabel(init[j]) {
          assert init[i] == objs[i] && init[j] == objs[j];
        }
      }
      SlotsPathsDistinct(p, init, prefix);
      SlotPathsDistinct(p, slot, prefix);
      assert slot.0 !in Labels(init) by {
        forall x | x in init ensures x.0 != slot.0 {
          var i :| 0 <= i < |init| && init[i] == x;
          assert ByLabel(objs[i]) != ByLabel(objs[|objs| - 1]);
        }
      }
      NoRepeatsConcat(SlotsPaths(p, init, prefix), SlotPaths(p, slot, prefix));
      assert Labels(init) <= Labels(objs) && slot.0 in Labels(objs);
    }
  }

  lemma {:induction false} SlotPathsDistinct(p: Obj, slot: (string, Obj), prefix: Path)
    requires p.Pred? && WellFormed(p) && slot in p.objects
    ensures NoRepeats(SlotPaths(p, slot, prefix))
    ensures forall q :: q in SlotPaths(p, slot, prefix) ==> |q| >= |prefix| + 2 && q[|prefix|] == slot.0
    decreases p, 0, 0
  {
    SlotPathsCases(p, slot, prefix);
    var sub := prefix + [slot.0];
    var lq := prefix + [slot.0, LabelTag];
    if slot.1.Pred? {
      SlotWellFormed(p, slot);
      PredPathsDistinct(slot.1, sub);
      PredPathsShape(slot.1, sub);
      forall q | q in PredPaths(slot.1, sub) ensures q != lq && q[|prefix|] == slot.0 {
        assert q[|prefix|] == q[..|sub|][|prefix|];
      }
      NoRepeatsConcat([lq], PredPaths(slot.1, sub));
    } else if slot.1.Atom? {
      assert Last(lq) != Last(prefix + [slot.0, TermTag]);
    }
  }

  /** `get_paths` of a well-formed fact lists every path once. */
  lemma GetPathsDistinct(p: Obj)
    requires p.Pred? && WellFormed(p)
    ensures NoRepeats(GetPaths(p))
  {
    PredPathsDistinct(p, []);
  }

  /** The path list depends only on the slots, not on the order in which the
      keyword arguments were given. */
  lemma GetPathsOrderIndependent(v: Term, truth: bool, a: seq<(string, Obj)>, b: seq<(string, Obj)>)
    requires DistinctKeys(a, ByLabel) && multiset(a) == multiset(b)
    ensures GetPaths(Pred(v, truth, a)) == GetPaths(Pred(v, truth, b))
  {
    SortByOrderIndependent(a, b, ByLabel);
    var objs := SortBy(a, ByLabel);
    SortedSlots(Pred(v, truth, a));
    SortedSlots(Pred(v, truth, b));
    SlotsPathsAnyOwner(Pred(v, truth, a), Pred(v, truth, b), objs, []);
  }

  /** The owner argument of `SlotsPaths` only witnesses termination. */
  lemma {:induction false} SlotsPathsAnyOwner(p: Obj, p': Obj, objs: seq<(string, Obj)>, prefix: Path)
    requires p.Pred? && SlotsOf(objs, p)
    requires p'.Pred? && SlotsOf(objs, p')
    ensures SlotsPaths(p, objs, prefix) == SlotsPaths(p', objs, prefix)
    decreases |objs|
  {
    if objs != [] {
      SlotsOfInit(objs, p);
      SlotsOfInit(objs, p');
      var init := objs[..|objs| - 1];
      SlotsPathsAnyOwner(p, p', init, prefix);
    }
  }

  // ---------------------------------------------------------------------
  // get_object navigation

  /** The filler of the first slot labelled `lab`. */
  function Find(objs: seq<(string, Obj)>, lab: string): (r: Option<Obj>)
    ensures r.Some? ==> (lab, r.value) in objs
  {
    if objs == [] then None
    else if objs[0].0 == lab then Some(objs[0].1)
    else Find(objs[1..], lab)
  }

  /** `term.get_object(label)`; a label the predicate lacks, or a filler that
      is not a predicate, yields no object. */
  function GetObject(o: Obj, lab: string): (r: Option<Obj>)
    ensures r.Some? ==> o.Pred? && (lab, r.value) in o.objects
    ensures o.Pred? && DistinctKeys(o.objects, ByLabel) ==>
      forall x :: x in o.objects && x.0 == lab ==> r == Some(x.1)
  {
    if o.Pred? then
      assert DistinctKeys(o.objects, ByLabel) ==>
        forall x :: x in o.objects && x.0 == lab ==> Find(o.objects, lab) == Some(x.1) by {
        if DistinctKeys(o.objects, ByLabel) {
          forall x | x in o.objects && x.0 == lab ensures Find(o.objects, lab) == Some(x.1) {
            FindDistinct(o.objects, x);
          }
        }
      }
      Find(o.objects, lab)
    else None
  }

  /** `for segment in path: term = term.get_object(segment)`: the empty path
      stays at `o`, and a non-empty one gets anywhere only from a predicate,
      through the filler of the first segment's slot. */
  function Walk(o: Obj, segs: Path): (r: Option<Obj>)
    ensures segs == [] ==> r == Some(o)
    ensures segs != [] && r.Some? ==> o.Pred? && GetObject(o, segs[0]).Some?
  {
    if segs == [] then Some(o)
    else match GetObject(o, segs[0])
      case None => None
      case Some(x) => Walk(x, segs[1..])
  }

  lemma {:induction false} FindDistinct(objs: seq<(string, Obj)>, slot: (string, Obj))
    requires DistinctKeys(objs, ByLabel) && slot in objs
    ensures Find(objs, slot.0) == Some(slot.1)
  {
    if objs[0] != slot {
      assert slot in objs[1..];
      assert DistinctKeys(objs[1..], ByLabel) by {
        forall i, j | 0 <= i < j < |objs[1..]|
          ensures ByLabel(objs[1..][i]) != ByLabel(objs[1..][j])
        {
          assert objs[1..][i] == objs[i + 1] && objs[1..][j] == objs[j + 1];
        }
      }
      FindDistinct(objs[1..], slot);
    }
  }

  lemma {:induction false} WalkAppend(o: Obj, a: Path, b: Path)
    ensures Walk(o, a + b) == (match Walk(o, a) case None => None case Some(x) => Walk(x, b))
  {
    if a == [] {
      assert a + b == b;
    } else {
      assert (a + b)[0] == a[0] && (a + b)[1..] == a[1..] + b;
      match GetObject(o, a[0])
      case None =>
      case Some(x) => WalkAppend(x, a[1..], b);
    }
  }

  /** Well-formedness reaches every filler of a well-formed predicate. */
  lemma SlotWellFormed(p: Obj, slot: (string, Obj))
    requires p.Pred? && WellFormed(p) && slot in p.objects
    ensures WellFormed(slot.1)
  {
    var k :| 0 <= k < |p.objects| && p.objects[k] == slot;
  }

  // ---------------------------------------------------------------------
  // Node categories and their resolve rules

  /** `RootFNode`, `NegFNode`, `TermFNode`, `VerbFNode`, `LabelFNode`. */
  datatype Category = Root | Neg | TermCat | Verb | LabelCat

  /** A node's discriminant: a negation flag, a term, a slot label, or some
      other object met where a term was expected. */
  datatype NodeValue = VBool(b: bool) | VTerm(t: Term) | VLabel(s: string) | VObj(o: Obj)

  /** `_get_nclass`: the polymorphic identity of each node class. */
  function CategoryOf(tag: string): (r: Option<Category>)
    ensures r.Some? <==> IsTag(tag) || tag == RootTag
    ensures r == Some(Root) <==> tag == RootTag
  {
    if tag == RootTag then Some(Root)
    else if tag == VerbTag then Some(Verb)
    else if tag == NegTag then Some(Neg)
    else if tag == TermTag then Some(TermCat)
    else if tag == LabelTag then Some(LabelCat)
    else None
  }

  /** `resolve` of the category the path's last segment names: the
      discriminant that node category reads from `o` at `path`; `None` is
      Python's `None`. */
  function Resolve(env: Env, o: Obj, path: Path): (r: Option<NodeValue>)
    requires PathShape(path)
    ensures Last(path) == LabelTag ==> r == Some(VLabel(path[|path| - 2]))
    ensures var x := Walk(o, Init(path));
      Last(path) == NegTag ==>
        (r.Some? <==> x.Some? && x.value.Pred?) &&
        (r.Some? ==> r.value == VBool(x.value.truth))
    ensures var x := Walk(o, Init(path));
      Last(path) == TermTag ==>
        (r.Some? <==> x.Some?) &&
        (x.Some? && x.value.Atom? ==> r == Some(VTerm(x.value.term))) &&
        (x.Some? && !x.value.Atom? ==> r == Some(VObj(x.value)))
    ensures var x := Walk(o, Init(path));
      Last(path) == VerbTag ==>
        (r.Some? <==>
           x.Some? && (x.value.Pred? ||
             (x.value.Atom? && (env.isVarName(x.value.term.name) || x.value.term.termType.Some?)))) &&
        (x.Some? && x.value.Pred? ==> r == Some(VTerm(x.value.verb))) &&
        (x.Some? && x.value.Atom? && env.isVarName(x.value.term.name) ==> r == Some(VTerm(x.value.term))) &&
        (x.Some? && x.value.Atom? && !env.isVarName(x.value.term.name) && r.Some? ==>
           r == Some(VTerm(x.value.term.termType.value)))
  {
    match CategoryOf(Last(path)).value
    case Neg =>
      (match Walk(o, Init(path))
       case Some(Pred(_, truth, _)) => Some(VBool(truth))
       case _ => None)
    case TermCat =>
      (match Walk(o, Init(path))
       case None => None
       case Some(Atom(t)) => Some(VTerm(t))
       case Some(x) => Some(VObj(x)))
    case Verb =>
      (match Walk(o, Init(path))
       case Some(Atom(t)) =>
         if env.isVarName(t.name) then Some(VTerm(t))
         else if t.termType.Some? then Some(VTerm(t.termType.value))
         else None
       case Some(Pred(v, _, _)) => Some(VTerm(v))
       case _ => None)
    case LabelCat => Some(VLabel(path[|path| - 2]))
    case Root => None
  }

  /** The object a path of a fact points at has the kind its tag tests for:
      a predicate for a verb or negation test, a term for a term test, and an
      existing slot for a label test. */
  predicate Fits(root: Obj, q: Path)
    requires PathShape(q)
  {
    match Last(q)
    case "_verb" => Walk(root, Init(q)).Some? && Walk(root, Init(q)).value.Pred?
    case "_neg" => Walk(root, Init(q)).Some? && Walk(root, Init(q)).value.Pred?
    case "_term" => Walk(root, Init(q)).Some? && Walk(root, Init(q)).value.Atom?
    case _ => Walk(root, Init(q)).Some? && Walk(root, q[..|q| - 2]).Some?
  }

  lemma {:induction false} PredPathsFit(root: Obj, p: Obj, prefix: Path)
    requires p.Pred? && WellFormed(p) && Walk(root, prefix) == Some(p)
    ensures forall q :: q in PredPaths(p, prefix) ==> PathShape(q) && Fits(root, q)
    decreases p, 1
  {
    PredPathsShape(p, prefix);
    assert Init(prefix + [VerbTag]) == prefix && Init(prefix + [NegTag]) == prefix;
    SortedSlots(p);
    SlotsPathsFit(root, p, SortBy(p.objects, ByLabel), prefix);
  }

  lemma {:induction false} SlotsPathsFit(root: Obj, p: Obj, objs: seq<(string, Obj)>, prefix: Path)
    requires p.Pred? && WellFormed(p) && Walk(root, prefix) == Some(p)
    requires SlotsOf(objs, p)
    ensures forall q :: q in SlotsPaths(p, objs, prefix) ==> PathShape(q) && Fits(root, q)
    decreases p, 0, |objs|
  {
    if objs != [] {
      SlotsOfInit(objs, p);
      var init := objs[..|objs| - 1];
      var slot := objs[|objs| - 1];
      SlotsPathsFit(root, p, init, prefix);
      SlotPathsFit(root, p, slot, prefix);
    }
  }

  lemma {:induction false} SlotPathsFit(root: Obj, p: Obj, slot: (string, Obj), prefix: Path)
    requires p.Pred? && WellFormed(p) && Walk(root, prefix) == Some(p)
    requires slot in p.objects
    ensures forall q :: q in SlotPaths(p, slot, prefix) ==> PathShape(q) && Fits(root, q)
    decreases p, 0, 0
  {
    var sub := prefix + [slot.0];
    FindDistinct(p.objects, slot);
    WalkAppend(root, prefix, [slot.0]);
    assert Walk(p, [slot.0]) == Walk(slot.1, []);
    assert Walk(root, sub) == Some(slot.1);
    var lq := prefix + [slot.0, LabelTag];
    assert Init(lq) == sub && lq[..|lq| - 2] == prefix;
    if slot.1.Pred? {
      SlotWellFormed(p, slot);
      PredPathsFit(root, slot.1, sub);
    } else if slot.1.Atom? {
      assert Init(sub + [TermTag]) == sub;
      assert prefix + [slot.0, TermTag] == sub + [TermTag];
    }
  }

  /** Every path of a well-formed fact resolves to a discriminant under the
      category its tag names: adding a fact never stores a `None` value from
      a failed navigation. */
  lemma FactPathsResolve(env: Env, p: Obj)
    requires p.Pred? && WellFormed(p)
    ensures forall q :: q in GetPaths(p) ==>
      PathShape(q) && Resolve(env, p, q).Some?
  {
    PredPathsFit(p, p, []);
  }
}
