/** The word classes of terms/words.py, as values, and their naming rules.

    In the source every word is a Python class object and the five root words
    are classes whose metaclasses encode their kind. Here a word is a record
    of what the naming and registry code inspects: its `__name__`, the names
    on its method resolution order (`ancestors`, so that `issubclass(w, c)` is
    `c.name in w.ancestors`), the same for its metaclass `type(w)`
    (`metaAncestors`, so that `isinstance(w, c)` is `c.name in
    w.metaAncestors`), and the `objs` attribute when attribute lookup finds
    one (the slots of a verb). Names stand for the classes they name. */
module Words {
  import opened Text

  datatype Word = Word(
    name: string,
    ancestors: set<string>,
    metaAncestors: set<string>,
    objs: Option<seq<(string, Word)>>)

  /** A Python dict of label -> word, in insertion order. */
  type Dict = seq<(string, Word)>

  function Fst(p: (string, Word)): string { p.0 }

  function Id(s: string): string { s }

  /** `word = type`: the root word is Python's own `type`, named "type". */
  const WordW: Word := Word("type", {"type"}, {"type"}, None)
  /** `class noun(word, metaclass=word)` */
  const NounW: Word := Word("noun", {"noun", "type"}, {"type"}, None)
  /** `class thing(word, metaclass=noun)` */
  const ThingW: Word := Word("thing", {"thing", "type"}, {"noun", "type"}, None)
  /** `class verb(word, metaclass=word)` */
  const VerbW: Word := Word("verb", {"verb", "type"}, {"type"}, None)
  /** `class exists(word, metaclass=verb)` with `exists.objs = {'subject': word}` */
  const ExistsW: Word := Word("exists", {"exists", "type"}, {"verb", "type"}, Some([("subject", WordW)]))

  predicate IsSubclass(w: Word, c: Word) { c.name in w.ancestors }

  predicate IsInstance(w: Word, c: Word) { c.name in w.metaAncestors }

  /** `get_name`: the root word is called "word", every other word by its `__name__`. */
  function GetName(w: Word): (r: string)
    ensures w == WordW ==> r == "word"
    ensures w.name != "type" ==> r == w.name
  {
    if w == WordW then "word" else w.name
  }

  function Keys(d: Dict): (ks: seq<string>)
    ensures |ks| == |d|
    ensures forall i :: 0 <= i < |d| ==> ks[i] == d[i].0
  {
    if |d| == 0 then [] else [d[0].0] + Keys(d[1..])
  }

  /** `d.get(k, None)` */
  function DictGet(d: Dict, k: string): (r: Option<Word>)
    ensures r.None? <==> k !in Keys(d)
    ensures r.Some? ==> (k, r.value) in d
  {
    if |d| == 0 then None
    else if d[0].0 == k then Some(d[0].1)
    else DictGet(d[1..], k)
  }

  lemma DictGetDistinct(d: Dict, i: nat)
    requires DistinctKeys(d, Fst) && i < |d|
    ensures DictGet(d, d[i].0) == Some(d[i].1)
  {
    if i > 0 {
      assert Fst(d[0]) != Fst(d[i]);
      assert DistinctKeys(d[1..], Fst) by {
        forall p, q | 0 <= p < q < |d[1..]| ensures Fst(d[1..][p]) != Fst(d[1..][q]) {
          assert Fst(d[p + 1]) != Fst(d[q + 1]);
        }
      }
      DictGetDistinct(d[1..], i - 1);
    }
  }

  // ---------------------------------------------------------------------------
  // make_pred: the name of a predicate built from a verb and its arguments.

  /** The part `'__' + label + '__' + get_name(obj)` appended per argument, in order. */
  function ArgsSuffix(items: Dict): string
    decreases |items|
  {
    if |items| == 0 then ""
    else
      var last := items[|items| - 1];
      ArgsSuffix(items[..|items| - 1]) + ("__" + last.0 + "__" + GetName(last.1))
  }

  /** The name `make_pred` builds: the verb's name, then each argument in ascending label order. */
  function PredName(verb: Word, objs: Dict): string {
    GetName(verb) + ArgsSuffix(SortBy(objs, Fst))
  }

  method MakePredName(verb: Word, objs: Dict) returns (name: string)
    ensures name == PredName(verb, objs)
  {
    name := GetName(verb);
    var objList := SortBy(objs, Fst);
    var i := 0;
    while i < |objList|
      invariant 0 <= i <= |objList|
      invariant name == GetName(verb) + ArgsSuffix(objList[..i])
    {
      var key, obj := objList[i].0, objList[i].1;
      assert objList[..i + 1][..i] == objList[..i];
      var arg := "__" + key + "__" + GetName(obj);
      assert ArgsSuffix(objList[..i + 1]) == ArgsSuffix(objList[..i]) + arg;
      Assoc3(GetName(verb), ArgsSuffix(objList[..i]), arg);
      name := name + arg;
      i := i + 1;
    }
    assert objList[..i] == objList;
  }

  /** The name does not depend on the order the keyword arguments were passed in. */
  lemma PredNameOrderIndependent(verb: Word, a: Dict, b: Dict)
    requires DistinctKeys(a, Fst)
    requires multiset(a) == multiset(b)
    ensures PredName(verb, a) == PredName(verb, b)
  {
    SortByOrderIndependent(a, b, Fst);
  }

  // ---------------------------------------------------------------------------
  // _new_exists: the name an exists-instance actually receives.

  /** `sorted(list(d))` */
  function SortedLabels(d: Dict): seq<string> {
    SortBy(Keys(d), Id)
  }

  /** The list `name` after the loop: for each label, if `newdict` holds it,
      the label and the name of its object. */
  function LabelParts(labels: seq<string>, newdict: Dict): seq<string>
    decreases |labels|
  {
    if |labels| == 0 then []
    else
      var l := labels[|labels| - 1];
      var ps := LabelParts(labels[..|labels| - 1], newdict);
      match DictGet(newdict, l)
      case Some(o) => ps + [l, GetName(o)]
      case None => ps
  }

  function ExistsName(cls: Word, newdict: Dict): string
    requires cls.objs.Some?
  {
    Join([cls.name] + LabelParts(SortedLabels(cls.objs.value), newdict), "__")
  }

  method NewExistsName(cls: Word, newdict: Dict) returns (name: string)
    requires cls.objs.Some?
    ensures name == ExistsName(cls, newdict)
  {
    var labels := SortedLabels(cls.objs.value);
    var parts := [cls.name];
    var i := 0;
    while i < |labels|
      invariant 0 <= i <= |labels|
      invariant parts == [cls.name] + LabelParts(labels[..i], newdict)
    {
      assert labels[..i + 1][..i] == labels[..i];
      var obj := DictGet(newdict, labels[i]);
      if obj.Some? {
        Assoc([cls.name], LabelParts(labels[..i], newdict), [labels[i], GetName(obj.value)]);
        parts := parts + [labels[i], GetName(obj.value)];
      }
      i := i + 1;
    }
    assert labels[..i] == labels;
    name := Join(parts, "__");
  }

  /** Only labels the class declares can appear: dropping the undeclared
      arguments leaves the name unchanged. */
  lemma ExistsNameIgnoresUndeclared(cls: Word, newdict: Dict)
    requires cls.objs.Some?
    ensures ExistsName(cls, newdict) == ExistsName(cls, Declared(newdict, Keys(cls.objs.value)))
  {
    var labels := SortedLabels(cls.objs.value);
    assert forall l :: l in labels ==> l in Keys(cls.objs.value) by {
      forall l | l in labels ensures l in Keys(cls.objs.value) {
        assert l in multiset(labels);
      }
    }
    LabelPartsDeclared(labels, newdict, Keys(cls.objs.value));
  }

  /** The entries of `d` whose label is in `ls`, in order. */
  function Declared(d: Dict, ls: seq<string>): (r: Dict)
    ensures |r| <= |d|
  {
    if |d| == 0 then []
    else if d[0].0 in ls then [d[0]] + Declared(d[1..], ls)
    else Declared(d[1..], ls)
  }

  lemma {:induction false} DictGetDeclared(d: Dict, ls: seq<string>, l: string)
    requires l in ls
    ensures DictGet(Declared(d, ls), l) == DictGet(d, l)
    decreases |d|
  {
    if |d| > 0 {
      DictGetDeclared(d[1..], ls, l);
      if d[0].0 in ls {
        assert ([d[0]] + Declared(d[1..], ls))[1..] == Declared(d[1..], ls);
      }
    }
  }

  lemma {:induction false} LabelPartsDeclared(labels: seq<string>, d: Dict, ls: seq<string>)
    requires forall l :: l in labels ==> l in ls
    ensures LabelParts(labels, d) == LabelParts(labels, Declared(d, ls))
    decreases |labels|
  {
    if |labels| > 0 {
      LabelPartsDeclared(labels[..|labels| - 1], d, ls);
      DictGetDeclared(d, ls, labels[|labels| - 1]);
    }
  }

  // ---------------------------------------------------------------------------
  // make_pred's name is the one _new_exists gives, when every argument is declared.

  lemma {:induction false} JoinSnoc(xs: seq<string>, y: string, sep: string)
    requires |xs| >= 1
    ensures Join(xs + [y], sep) == Join(xs, sep) + sep + y
    decreases |xs|
  {
    if |xs| > 1 {
      assert (xs + [y])[1..] == xs[1..] + [y];
      JoinSnoc(xs[1..], y, sep);
    } else {
      assert xs + [y] == [xs[0], y];
    }
  }

  /** The (label, object) entries that the loop of _new_exists finds, in label order. */
  function Present(labels: seq<string>, d: Dict): (r: Dict)
    decreases |labels|
  {
    if |labels| == 0 then []
    else
      var l := labels[|labels| - 1];
      var ps := Present(labels[..|labels| - 1], d);
      match DictGet(d, l)
      case Some(o) => ps + [(l, o)]
      case None => ps
  }

  lemma Assoc3(a: string, b: string, c: string)
    ensures (a + b) + c == a + (b + c)
  {
  }

  lemma Assoc4(j: string, s: string, l: string, g: string)
    ensures (((j + s) + l) + s) + g == j + (((s + l) + s) + g)
  {
  }

  lemma JoinPair(xs: seq<string>, l: string, g: string)
    requires |xs| >= 1
    ensures Join(xs + [l, g], "__") == Join(xs, "__") + ("__" + l + "__" + g)
  {
    assert xs + [l, g] == (xs + [l]) + [g];
    JoinSnoc(xs, l, "__");
    JoinSnoc(xs + [l], g, "__");
    Assoc4(Join(xs, "__"), "__", l, g);
  }

  lemma LabelPartsSnoc(labels: seq<string>, d: Dict)
    requires |labels| > 0
    ensures var l := labels[|labels| - 1];
      LabelParts(labels, d) ==
        if DictGet(d, l).Some? then LabelParts(labels[..|labels| - 1], d) + [l, GetName(DictGet(d, l).value)]
        else LabelParts(labels[..|labels| - 1], d)
  {
  }

  lemma ArgsSuffixSnoc(items: Dict, e: (string, Word))
    ensures ArgsSuffix(items + [e]) == ArgsSuffix(items) + ("__" + e.0 + "__" + GetName(e.1))
  {
    assert (items + [e])[..|items|] == items;
  }

  lemma {:induction false} JoinLabelParts(h: string, labels: seq<string>, d: Dict)
    ensures Join([h] + LabelParts(labels, d), "__") == h + ArgsSuffix(Present(labels, d))
    decreases |labels|
  {
    if |labels| == 0 {
      assert [h] + LabelParts(labels, d) == [h];
    } else {
      var l := labels[|labels| - 1];
      var init := labels[..|labels| - 1];
      JoinLabelParts(h, init, d);
      LabelPartsSnoc(labels, d);
      PresentSnoc(labels, d);
      var o := DictGet(d, l);
      if o.Some? {
        var g := GetName(o.value);
        var xs := [h] + LabelParts(init, d);
        var a := ArgsSuffix(Present(init, d));
        Assoc([h], LabelParts(init, d), [l, g]);
        JoinPair(xs, l, g);
        ArgsSuffixSnoc(Present(init, d), (l, o.value));
        Assoc3(h, a, "__" + l + "__" + g);
      }
    }
  }

  /** One step of `Present`: the last label adds its entry when the dict holds it. */
  lemma PresentSnoc(labels: seq<string>, d: Dict)
    requires |labels| > 0
    ensures var l := labels[|labels| - 1];
      Present(labels, d) ==
        if DictGet(d, l).Some? then Present(labels[..|labels| - 1], d) + [(l, DictGet(d, l).value)]
        else Present(labels[..|labels| - 1], d)
  {
  }

  lemma {:induction false} PresentKeys(labels: seq<string>, d: Dict)
    ensures forall k :: k in Keys(Present(labels, d)) <==> k in labels && k in Keys(d)
    decreases |labels|
  {
    if |labels| > 0 {
      var l := labels[|labels| - 1];
      var init := labels[..|labels| - 1];
      PresentKeys(init, d);
      PresentSnoc(labels, d);
      assert labels == init + [l];
      if DictGet(d, l).Some? {
        assert Keys(Present(labels, d)) == Keys(Present(init, d)) + [l];
      }
    }
  }

  lemma {:induction false} PresentSorted(labels: seq<string>, d: Dict)
    requires StrictlySorted(labels)
    ensures StrictlySorted(Keys(Present(labels, d)))
    decreases |labels|
  {
    if |labels| > 0 {
      var l := labels[|labels| - 1];
      var init := labels[..|labels| - 1];
      StrictlySortedLast(labels, init);
      PresentSorted(init, d);
      PresentKeys(init, d);
      PresentSnoc(labels, d);
      var ks := Keys(Present(init, d));
      if DictGet(d, l).Some? {
        StrictlySortedSnoc(ks, l);
        assert Keys(Present(labels, d)) == ks + [l];
      }
    }
  }

  lemma {:induction false} PresentEntries(labels: seq<string>, d: Dict)
    ensures forall i :: 0 <= i < |Present(labels, d)| ==>
      DictGet(d, Present(labels, d)[i].0) == Some(Present(labels, d)[i].1)
    decreases |labels|
  {
    if |labels| > 0 {
      PresentEntries(labels[..|labels| - 1], d);
      PresentSnoc(labels, d);
    }
  }

  lemma KeysSubset(a: Dict, b: Dict)
    requires multiset(a) == multiset(b)
    ensures forall k :: k in Keys(a) ==> k in Keys(b)
  {
    forall k | k in Keys(a) ensures k in Keys(b) {
      var i :| 0 <= i < |a| && Keys(a)[i] == k;
      assert a[i] in multiset(b);
      var j :| 0 <= j < |b| && b[j] == a[i];
      assert Keys(b)[j] == k;
    }
  }

  lemma SortedKeysStrict(d: Dict)
    requires DistinctKeys(d, Fst)
    ensures StrictlySorted(Keys(SortBy(d, Fst)))
    ensures forall k :: k in Keys(SortBy(d, Fst)) <==> k in Keys(d)
  {
    var s := SortBy(d, Fst);
    SortBySorted(d, Fst);
    DistinctKeysPermutation(d, s, Fst);
    forall i, j | 0 <= i < j < |s| ensures StrLt(Keys(s)[i], Keys(s)[j]) {
      assert StrLe(Fst(s[i]), Fst(s[j])) && Fst(s[i]) != Fst(s[j]);
    }
    KeysSubset(d, s);
    KeysSubset(s, d);
  }

  lemma SortedLabelsStrict(d: Dict)
    requires DistinctKeys(d, Fst)
    ensures StrictlySorted(SortedLabels(d))
    ensures forall k :: k in SortedLabels(d) <==> k in Keys(d)
  {
    var ks := Keys(d);
    var s := SortBy(ks, Id);
    assert DistinctKeys(ks, Id) by {
      forall i, j | 0 <= i < j < |ks| ensures Id(ks[i]) != Id(ks[j]) {
        assert Fst(d[i]) != Fst(d[j]);
      }
    }
    SortBySorted(ks, Id);
    DistinctKeysPermutation(ks, s, Id);
    forall i, j | 0 <= i < j < |s| ensures StrLt(s[i], s[j]) {
      assert StrLe(Id(s[i]), Id(s[j])) && Id(s[i]) != Id(s[j]);
    }
    forall k ensures k in s <==> k in ks {
      assert k in s <==> k in multiset(s);
      assert k in ks <==> k in multiset(ks);
    }
  }

  /** When every argument label is one the verb declares, the name make_pred
      computes is exactly the name the exists-instance receives from _new_exists. */
  lemma PredNameMatchesExistsName(verb: Word, objs: Dict)
    requires verb.objs.Some? && verb != WordW
    requires DistinctKeys(verb.objs.value, Fst)
    requires DistinctKeys(objs, Fst)
    requires forall k :: k in Keys(objs) ==> k in Keys(verb.objs.value)
    ensures PredName(verb, objs) == ExistsName(verb, objs)
  {
    var labels := SortedLabels(verb.objs.value);
    var sorted := SortBy(objs, Fst);
    var present := Present(labels, objs);
    JoinLabelParts(verb.name, labels, objs);
    SortedLabelsStrict(verb.objs.value);
    PresentKeys(labels, objs);
    PresentSorted(labels, objs);
    PresentEntries(labels, objs);
    SortedKeysStrict(objs);
    StrictlySortedUnique(Keys(present), Keys(sorted));
    SortedEntriesInDict(objs);
    SameKeysSameEntries(present, sorted, objs);
  }

  /** Each entry of the sorted items is what the dict maps its label to. */
  lemma SortedEntriesInDict(d: Dict)
    requires DistinctKeys(d, Fst)
    ensures forall i :: 0 <= i < |SortBy(d, Fst)| ==>
      DictGet(d, SortBy(d, Fst)[i].0) == Some(SortBy(d, Fst)[i].1)
  {
    var s := SortBy(d, Fst);
    forall i | 0 <= i < |s| ensures DictGet(d, s[i].0) == Some(s[i].1) {
      assert s[i] in multiset(d);
      var j :| 0 <= j < |d| && d[j] == s[i];
      DictGetDistinct(d, j);
    }
  }

  lemma SameKeysSameEntries(p: Dict, q: Dict, d: Dict)
    requires Keys(p) == Keys(q)
    requires forall i :: 0 <= i < |p| ==> DictGet(d, p[i].0) == Some(p[i].1)
    requires forall i :: 0 <= i < |q| ==> DictGet(d, q[i].0) == Some(q[i].1)
    ensures p == q
  {
    assert |p| == |Keys(p)| == |q|;
    forall i | 0 <= i < |p| ensures p[i] == q[i] {
      assert p[i].0 == Keys(p)[i] == q[i].0;
    }
  }

  // ---------------------------------------------------------------------------
  // _init_exists / _getattr_exists: the attributes of an exists-instance.

  predicate StartsWithUnderscore(key: string) {
    |key| > 0 && key[0] == '_'
  }

  /** The attribute name `_getattr_exists` reads for `key`. */
  function Underscored(key: string): string {
    if StartsWithUnderscore(key) then key else "_" + key
  }

  /** `type.__new__(cls, name, bases, newdict)` puts `newdict` in the class namespace. */
  function Namespace(newdict: Dict): map<string, Word>
    decreases |newdict|
  {
    if |newdict| == 0 then map[]
    else
      var last := newdict[|newdict| - 1];
      Namespace(newdict[..|newdict| - 1])[last.0 := last.1]
  }

  /** The attributes after `_init_exists` ran `setattr(self, '_' + label, obj)` for each item. */
  function InitAttrs(attrs: map<string, Word>, items: Dict): map<string, Word>
    decreases |items|
  {
    if |items| == 0 then attrs
    else
      var last := items[|items| - 1];
      InitAttrs(attrs, items[..|items| - 1])["_" + last.0 := last.1]
  }

  /** The names without a leading underscore that normal lookup on a
      predicate finds on its metaclass chain once its own namespace lacks
      them: `objs` of its verb class (and of `exists`) and `type.mro`. Such a
      name never reaches the `__getattr__` fallback. */
  const MetaAttrs: set<string> := {"objs", "mro"}

  /** Attribute lookup as written: normal lookup, then the `__getattr__`
      fallback, whose `super(exists, self).__getattr__` exists on neither
      `type` nor `object` and so always raises AttributeError (None here). */
  function GetAttrAsWritten(attrs: map<string, Word>, key: string): Option<Word> {
    if key in attrs then Some(attrs[key]) else None
  }

  /** Attribute lookup as evidently intended: the fallback reads the
      underscored attribute. */
  function GetAttr(attrs: map<string, Word>, key: string): Option<Word> {
    if key in attrs then Some(attrs[key])
    else if Underscored(key) in attrs then Some(attrs[Underscored(key)])
    else None
  }

  predicate NoUnderscoreLabels(d: Dict) {
    forall i :: 0 <= i < |d| ==> !StartsWithUnderscore(d[i].0)
  }

  lemma {:induction false} NamespaceHas(d: Dict, i: nat)
    requires DistinctKeys(d, Fst) && i < |d|
    ensures d[i].0 in Namespace(d) && Namespace(d)[d[i].0] == d[i].1
    decreases |d|
  {
    var n := |d| - 1;
    if i < n {
      var init := d[..n];
      assert DistinctKeys(init, Fst) by {
        forall p, q | 0 <= p < q < |init| ensures Fst(init[p]) != Fst(init[q]) {
          assert Fst(d[p]) != Fst(d[q]);
        }
      }
      NamespaceHas(init, i);
      assert Fst(d[i]) != Fst(d[n]);
    }
  }

  lemma {:induction false} InitAttrsHas(attrs: map<string, Word>, d: Dict, i: nat)
    requires DistinctKeys(d, Fst) && i < |d|
    ensures "_" + d[i].0 in InitAttrs(attrs, d) && InitAttrs(attrs, d)["_" + d[i].0] == d[i].1
    decreases |d|
  {
    var n := |d| - 1;
    if i < n {
      var init := d[..n];
      assert DistinctKeys(init, Fst) by {
        forall p, q | 0 <= p < q < |init| ensures Fst(init[p]) != Fst(init[q]) {
          assert Fst(d[p]) != Fst(d[q]);
        }
      }
      InitAttrsHas(attrs, init, i);
      assert Fst(d[i]) != Fst(d[n]);
      assert "_" + d[i].0 != "_" + d[n].0 by {
        assert ("_" + d[i].0)[1..] == d[i].0 && ("_" + d[n].0)[1..] == d[n].0;
      }
    }
  }

  lemma {:induction false} InitAttrsKeeps(attrs: map<string, Word>, d: Dict, k: string)
    requires !StartsWithUnderscore(k)
    ensures k in InitAttrs(attrs, d) <==> k in attrs
    ensures k in attrs ==> InitAttrs(attrs, d)[k] == attrs[k]
    decreases |d|
  {
    if |d| > 0 {
      InitAttrsKeeps(attrs, d[..|d| - 1], k);
      assert ("_" + d[|d| - 1].0)[0] == '_';
    }
  }

  /** Reading back a label of a predicate built without underscored labels
      yields the stored object, both by its own name and by its underscored
      one; this needs no fallback, so the code as written does it too. */
  lemma GetAttrRoundTrip(d: Dict, i: nat)
    requires DistinctKeys(d, Fst) && NoUnderscoreLabels(d) && i < |d|
    ensures GetAttr(InitAttrs(Namespace(d), d), d[i].0) == Some(d[i].1)
    ensures GetAttr(InitAttrs(Namespace(d), d), "_" + d[i].0) == Some(d[i].1)
    ensures GetAttrAsWritten(InitAttrs(Namespace(d), d), d[i].0) == Some(d[i].1)
    ensures GetAttrAsWritten(InitAttrs(Namespace(d), d), "_" + d[i].0) == Some(d[i].1)
  {
    NamespaceHas(d, i);
    InitAttrsKeeps(Namespace(d), d, d[i].0);
    InitAttrsHas(Namespace(d), d, i);
  }

  lemma {:induction false} NamespaceLacks(d: Dict, k: string)
    requires forall j :: 0 <= j < |d| ==> d[j].0 != k
    ensures k !in Namespace(d)
    decreases |d|
  {
    if |d| > 0 {
      NamespaceLacks(d[..|d| - 1], k);
    }
  }

  lemma {:induction false} InitAttrsOther(attrs: map<string, Word>, d: Dict, k: string)
    requires |k| > 0 && k[0] == '_'
    requires forall j :: 0 <= j < |d| ==> d[j].0 != k[1..]
    ensures k in InitAttrs(attrs, d) <==> k in attrs
    ensures k in attrs ==> InitAttrs(attrs, d)[k] == attrs[k]
    decreases |d|
  {
    if |d| > 0 {
      InitAttrsOther(attrs, d[..|d| - 1], k);
      assert ("_" + d[|d| - 1].0)[1..] == d[|d| - 1].0;
    }
  }

  /** The fallback: when a predicate was built with an underscored label
      `_k` and no label `k`, and `k` is no name of its metaclass chain,
      reading `k` finds nothing by normal lookup, so
      the code as written fails, while the intended fallback reads `_k` and
      yields the stored object. */
  lemma GetAttrFallback(d: Dict, i: nat, k: string)
    requires DistinctKeys(d, Fst) && i < |d| && d[i].0 == "_" + k && !StartsWithUnderscore(k)
    requires forall j :: 0 <= j < |d| ==> d[j].0 != k
    requires k !in MetaAttrs
    ensures GetAttrAsWritten(InitAttrs(Namespace(d), d), k) == None
    ensures GetAttr(InitAttrs(Namespace(d), d), k) == Some(d[i].1)
  {
    var key := "_" + k;
    assert key[1..] == k && key[0] == '_';
    NamespaceLacks(d, k);
    InitAttrsKeeps(Namespace(d), d, k);
    NamespaceHas(d, i);
    InitAttrsOther(Namespace(d), d, key);
    assert Underscored(k) == key;
  }

  /** As written, reading `x` from a predicate built with the argument `_x`
      fails, although `_x` is stored; the intended lookup finds it. */
  lemma GetAttrAsWrittenFails(w: Word)
    ensures GetAttrAsWritten(InitAttrs(Namespace([("_x", w)]), [("_x", w)]), "x") == None
    ensures GetAttr(InitAttrs(Namespace([("_x", w)]), [("_x", w)]), "x") == Some(w)
  {
    var d := [("_x", w)];
    assert d[..0] == [];
    assert Namespace(d) == map["_x" := w];
    assert "_" + "_x" == "__x";
    var attrs := InitAttrs(Namespace(d), d);
    assert attrs == InitAttrs(Namespace(d), d[..0])["_" + "_x" := w];
    assert attrs == map["_x" := w, "__x" := w];
    assert "x" !in attrs by {
      assert |"x"| != |"_x"| && |"x"| != |"__x"|;
    }
    assert Underscored("x") == "_x";
  }

  /** An instance of an exists-class: a class object built by `_new_exists`
      (its name) and initialised by `_init_exists` (its attributes). */
  class ExistsObject {
    const name: string
    var attrs: map<string, Word>

    constructor (cls: Word, classname: string, newdict: Dict)
      requires cls.objs.Some?
      ensures name == ExistsName(cls, newdict)
      ensures attrs == InitAttrs(Namespace(newdict), newdict)
    {
      var n := NewExistsName(cls, newdict);
      name := n;
      attrs := Namespace(newdict);
      new;
      var i := 0;
      while i < |newdict|
        invariant 0 <= i <= |newdict|
        invariant attrs == InitAttrs(Namespace(newdict), newdict[..i])
      {
        assert newdict[..i + 1][..i] == newdict[..i];
        var key, obj := newdict[i].0, newdict[i].1;
        attrs := attrs["_" + key := obj];
        i := i + 1;
      }
      assert newdict[..i] == newdict;
    }

    /** `getattr(self, name)`, with the fallback of `_getattr_exists` as intended. */
    function Attr(key: string): Option<Word>
      reads this
    {
      GetAttr(attrs, key)
    }
  }

  /** `make_pred(verb_, **objs)`: computes the name, then calls `verb_(name, (), objs)`,
      which for an exists-class runs `_new_exists` and `_init_exists`. */
  method MakePred(verb: Word, objs: Dict) returns (name: string, pred: ExistsObject)
    requires IsSubclass(verb, ExistsW) && verb.objs.Some?
    ensures name == PredName(verb, objs)
    ensures fresh(pred) && pred.name == ExistsName(verb, objs)
    ensures pred.attrs == InitAttrs(Namespace(objs), objs)
  {
    name := MakePredName(verb, objs);
    pred := new ExistsObject(verb, name, objs);
  }
}
