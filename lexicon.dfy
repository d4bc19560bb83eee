/** The term registry of terms/lexicon.py.

    The registry has two parts: `terms`, the in-memory dict of word objects
    by name (`self.terms`), and `store`, the rows of the `Term` table that
    the database session holds, in insertion order. Word objects are the
    records of module Words; a stored row names its type, bases and slot
    types by their names. */
module Lexicon {
  import opened Text
  import opened Words

  /** A row of the `ObjectType` table: a slot label and the name of the term it admits. */
  datatype ObjectType = ObjectType(slotLabel: string, termName: string)

  /** A row of the `Term` table. */
  datatype TermRow = TermRow(
    name: string,
    termType: Option<string>,
    bases: seq<string>,
    objectTypes: seq<ObjectType>)

  datatype LexError =
    | TermNotFound
    | TermRepeated
    | KeyError
    | AssertionError
    | TypeError
    | IndexError
    | AttributeError

  /** The `super_words` argument of add_subword: one word, or a tuple of words. */
  datatype SuperWords = One(w: Word) | Many(ws: seq<Word>)

  /** What the registry holds: `self.terms` and the stored rows. */
  datatype Registry = Registry(terms: map<string, Word>, store: seq<TermRow>)

  // ---------------------------------------------------------------------------
  // get_term

  /** The rows `query(Term).filter_by(name=name)` selects, in order. */
  function Matching(store: seq<TermRow>, name: string): (r: seq<TermRow>)
    ensures forall x :: x in r ==> x in store && x.name == name
  {
    if |store| == 0 then []
    else (if store[0].name == name then [store[0]] else []) + Matching(store[1..], name)
  }

  lemma {:induction false} MatchingNone(store: seq<TermRow>, name: string)
    ensures |Matching(store, name)| == 0 <==> forall i :: 0 <= i < |store| ==> store[i].name != name
    decreases |store|
  {
    if |store| > 0 {
      MatchingNone(store[1..], name);
      if forall i :: 0 <= i < |store[1..]| ==> store[1..][i].name != name {
        forall i | 0 <= i < |store| && i > 0 ensures store[i].name != name {
          assert store[i] == store[1..][i - 1];
        }
      } else {
        var i :| 0 <= i < |store[1..]| && store[1..][i].name == name;
        assert store[i + 1].name == name;
      }
    }
  }

  lemma MatchingMany(store: seq<TermRow>, name: string)
    ensures |Matching(store, name)| >= 2 <==>
      exists i, j :: 0 <= i < j < |store| && store[i].name == name && store[j].name == name
  {
    if exists i, j :: 0 <= i < j < |store| && store[i].name == name && store[j].name == name {
      var i, j :| 0 <= i < j < |store| && store[i].name == name && store[j].name == name;
      MatchingTwo(store, name, i, j);
    }
    if |Matching(store, name)| >= 2 {
      MatchingTwoRows(store, name);
    }
  }

  /** Two rows with the name are both selected. */
  lemma {:induction false} MatchingTwo(store: seq<TermRow>, name: string, i: nat, j: nat)
    requires i < j < |store| && store[i].name == name && store[j].name == name
    ensures |Matching(store, name)| >= 2
    decreases |store|
  {
    var rest := store[1..];
    assert rest[j - 1] == store[j];
    if i > 0 {
      assert rest[i - 1] == store[i];
      MatchingTwo(rest, name, i - 1, j - 1);
    } else {
      MatchingNone(rest, name);
    }
  }

  /** Two selected rows are two rows with the name. */
  lemma {:induction false} MatchingTwoRows(store: seq<TermRow>, name: string)
    requires |Matching(store, name)| >= 2
    ensures exists i, j :: 0 <= i < j < |store| && store[i].name == name && store[j].name == name
    decreases |store|
  {
    var rest := store[1..];
    if store[0].name == name {
      MatchingNone(rest, name);
      var j :| 0 <= j < |rest| && rest[j].name == name;
      assert store[j + 1] == rest[j];
      assert store[0].name == name && store[j + 1].name == name;
    } else {
      MatchingTwoRows(rest, name);
      var i, j :| 0 <= i < j < |rest| && rest[i].name == name && rest[j].name == name;
      assert store[i + 1] == rest[i] && store[j + 1] == rest[j];
    }
  }

  /** get_term: `.one()` over the matching rows. */
  function Lookup(store: seq<TermRow>, name: string): (r: Result<TermRow, LexError>)
    ensures r.Ok? ==> r.value in store && r.value.name == name
    ensures r.Err? ==> r.error == TermNotFound || r.error == TermRepeated
  {
    var rows := Matching(store, name);
    if |rows| == 0 then Err(TermNotFound)
    else if |rows| == 1 then Ok(rows[0])
    else Err(TermRepeated)
  }

  /** get_term finds no row exactly when none has the name, and raises
      TermRepeated exactly when two rows have it. */
  lemma LookupSpec(store: seq<TermRow>, name: string)
    ensures Lookup(store, name) == Err(TermNotFound) <==> forall i :: 0 <= i < |store| ==> store[i].name != name
    ensures Lookup(store, name) == Err(TermRepeated) <==>
      exists i, j :: 0 <= i < j < |store| && store[i].name == name && store[j].name == name
  {
    MatchingNone(store, name);
    MatchingMany(store, name);
  }

  /** At most one row per name. */
  predicate UniqueNames(store: seq<TermRow>) {
    forall i, j :: 0 <= i < j < |store| ==> store[i].name != store[j].name
  }

  predicate Stored(store: seq<TermRow>, name: string) {
    exists i :: 0 <= i < |store| && store[i].name == name
  }

  /** In a store without repeated names, get_term finds exactly the stored names. */
  lemma LookupUnique(store: seq<TermRow>, name: string)
    requires UniqueNames(store)
    ensures Lookup(store, name).Ok? <==> Stored(store, name)
    ensures Lookup(store, name).Err? ==> Lookup(store, name).error == TermNotFound
  {
    LookupSpec(store, name);
  }

  // ---------------------------------------------------------------------------
  // NAME_PAT = r'^([a-z][a-z_]*[a-z])[1-9]+$'

  predicate IsLower(c: char) { 'a' <= c <= 'z' }

  predicate IsDigit19(c: char) { '1' <= c <= '9' }

  predicate AllDigits19(s: string) { forall i :: 0 <= i < |s| ==> IsDigit19(s[i]) }

  /** `[a-z][a-z_]*[a-z]` */
  predicate IsStem(s: string) {
    |s| >= 2 && IsLower(s[0]) && IsLower(s[|s| - 1])
    && forall i :: 0 < i < |s| - 1 ==> IsLower(s[i]) || s[i] == '_'
  }

  /** Where the trailing run of digits 1-9 begins. */
  function DigitsStart(s: string): (k: nat)
    ensures k <= |s|
    decreases |s|
  {
    if |s| > 0 && IsDigit19(s[|s| - 1]) then DigitsStart(s[..|s| - 1]) else |s|
  }

  /** `NAME_PAT.match(name)` and its group 1; Python's `$` also matches
      before a newline that ends the string. */
  function NamePat(name: string): Option<string> {
    var s := if |name| > 0 && name[|name| - 1] == '\n' then name[..|name| - 1] else name;
    var k := DigitsStart(s);
    if k < |s| && IsStem(s[..k]) then Some(s[..k]) else None
  }

  lemma {:induction false} DigitsStartSpec(s: string)
    ensures AllDigits19(s[DigitsStart(s)..])
    ensures DigitsStart(s) > 0 ==> !IsDigit19(s[DigitsStart(s) - 1])
    decreases |s|
  {
    if |s| > 0 && IsDigit19(s[|s| - 1]) {
      var init := s[..|s| - 1];
      DigitsStartSpec(init);
      var k := DigitsStart(init);
      assert s[k..] == init[k..] + [s[|s| - 1]];
      assert init[..k] == s[..k];
      if k > 0 { assert s[k - 1] == init[k - 1]; }
    }
  }

  lemma {:induction false} DigitsStartOf(stem: string, ds: string)
    requires |stem| > 0 && !IsDigit19(stem[|stem| - 1]) && AllDigits19(ds)
    ensures DigitsStart(stem + ds) == |stem|
    decreases |ds|
  {
    if |ds| == 0 {
      assert stem + ds == stem;
    } else {
      assert (stem + ds)[..|stem + ds| - 1] == stem + ds[..|ds| - 1];
      DigitsStartOf(stem, ds[..|ds| - 1]);
    }
  }

  /** A name matches exactly when it is a stem followed by digits 1-9 (and
      possibly a final newline); the match yields that stem. */
  lemma NamePatSound(name: string)
    requires NamePat(name).Some?
    ensures IsStem(NamePat(name).value)
    ensures exists ds ::
      && |ds| > 0 && AllDigits19(ds)
      && (name == NamePat(name).value + ds || name == NamePat(name).value + ds + "\n")
  {
    var s := if |name| > 0 && name[|name| - 1] == '\n' then name[..|name| - 1] else name;
    var k := DigitsStart(s);
    DigitsStartSpec(s);
    var ds := s[k..];
    assert s == s[..k] + ds;
    if |name| > 0 && name[|name| - 1] == '\n' {
      assert name == s + "\n";
    }
  }

  lemma NamePatComplete(stem: string, ds: string)
    requires IsStem(stem) && |ds| > 0 && AllDigits19(ds)
    ensures NamePat(stem + ds) == Some(stem)
    ensures NamePat(stem + ds + "\n") == Some(stem)
  {
    DigitsStartOf(stem, ds);
    assert (stem + ds)[..|stem|] == stem;
    var withNl := stem + ds + "\n";
    assert withNl[..|withNl| - 1] == stem + ds;
  }

  /** A name whose stem or digits break the pattern gets `thing`: no digits, a
      digit 0, or a stem of one letter. */
  lemma NamePatRejects()
    ensures NamePat("person1") == Some("person")
    ensures NamePat("person") == None
    ensures NamePat("person10") == None
    ensures NamePat("p1") == None
  {
    NamePatComplete("person", "1");
    assert "person" + "1" == "person1";
    assert DigitsStart("person") == 6;
    assert DigitsStart("person10") == 8;
    assert DigitsStart("p1") == 1 by {
      assert "p1"[..1] == "p";
    }
  }

  // ---------------------------------------------------------------------------
  // The words the `_make_*` helpers create.

  /** Python's `str`: what `word(name)`, that is `type(name)`, returns. */
  const StrW: Word := Word("str", {"str"}, {"type"}, None)

  function AncestorsOf(bases: seq<Word>): set<string>
    decreases |bases|
  {
    if |bases| == 0 then {} else bases[0].ancestors + AncestorsOf(bases[1..])
  }

  function MetaOf(bases: seq<Word>): set<string>
    decreases |bases|
  {
    if |bases| == 0 then {} else bases[0].metaAncestors + MetaOf(bases[1..])
  }

  /** The `objs` a new class without its own finds through its bases. */
  function InheritedObjs(bases: seq<Word>): Option<Dict>
    decreases |bases|
  {
    if |bases| == 0 then None
    else if bases[0].objs.Some? then bases[0].objs
    else InheritedObjs(bases[1..])
  }

  /** `meta(name, tuple(bases), ...)` for a metaclass whose MRO names are `meta`. */
  function NewClass(name: string, bases: seq<Word>, meta: set<string>, objs: Option<Dict>): (w: Word)
    ensures w.name == name && name in w.ancestors
    ensures forall b :: b in bases ==> b.ancestors <= w.ancestors && b.metaAncestors <= w.metaAncestors
  {
    AncestorsContain(bases);
    Word(name, {name} + AncestorsOf(bases), meta + MetaOf(bases), objs)
  }

  lemma {:induction false} AncestorsContain(bases: seq<Word>)
    ensures forall b :: b in bases ==> b.ancestors <= AncestorsOf(bases) && b.metaAncestors <= MetaOf(bases)
    decreases |bases|
  {
    if |bases| > 0 {
      AncestorsContain(bases[1..]);
      forall b | b in bases ensures b == bases[0] || b in bases[1..] {
        var i :| 0 <= i < |bases| && bases[i] == b;
        if i > 0 { assert bases[1..][i - 1] == b; }
      }
    }
  }

  /** `noun_(name)`: a class under `thing` builds a new individual whose type
      is `noun_`; the root word returns `str`; any other word rejects one
      argument. */
  function Instantiate(noun: Word, name: string): (r: Result<Word, LexError>)
    ensures IsSubclass(noun, ThingW) ==> r.Ok? && r.value.name == name && r.value.ancestors == {name}
    ensures !IsSubclass(noun, ThingW) && noun != WordW ==> r == Err(TypeError)
  {
    if IsSubclass(noun, ThingW) then Ok(Word(name, {name}, noun.ancestors, None))
    else if noun == WordW then Ok(StrW)
    else Err(TypeError)
  }

  /** The noun `_make_name` picks when none is given. */
  function NounFor(terms: map<string, Word>, name: string): (r: Result<Word, LexError>)
    ensures NamePat(name).None? ==> r == Ok(ThingW)
    ensures NamePat(name).Some? && NamePat(name).value in terms && IsInstance(terms[NamePat(name).value], NounW)
      ==> r == Ok(terms[NamePat(name).value])
  {
    match NamePat(name)
    case None => Ok(ThingW)
    case Some(stem) =>
      if stem !in terms then Err(KeyError)
      else if !IsInstance(terms[stem], NounW) then Err(AssertionError)
      else Ok(terms[stem])
  }

  function MakeNameFor(terms: map<string, Word>, name: string, noun: Option<Word>): Result<Word, LexError> {
    match (if noun.None? then NounFor(terms, name) else Ok(noun.value))
    case Err(e) => Err(e)
    case Ok(n) => Instantiate(n, name)
  }

  function Normalize(supers: SuperWords): seq<Word> {
    match supers
    case One(w) => [w]
    case Many(ws) => ws
  }

  // ---------------------------------------------------------------------------
  // dict.update

  /** `d[k] = v`: an existing key keeps its place, a new one goes last. */
  function DictSet(d: Dict, k: string, v: Word): Dict
    decreases |d|
  {
    if |d| == 0 then [(k, v)]
    else if d[0].0 == k then [(k, v)] + d[1..]
    else [d[0]] + DictSet(d[1..], k, v)
  }

  lemma {:induction false} DictSetKeys(d: Dict, k: string, v: Word)
    ensures forall k' :: k' in Keys(DictSet(d, k, v)) <==> k' in Keys(d) || k' == k
    decreases |d|
  {
    var r := DictSet(d, k, v);
    if |d| > 0 {
      DictSetKeys(d[1..], k, v);
      assert Keys(d) == [d[0].0] + Keys(d[1..]);
      if d[0].0 == k {
        assert Keys(r) == [k] + Keys(d[1..]);
      } else {
        assert Keys(r) == [d[0].0] + Keys(DictSet(d[1..], k, v));
      }
    }
  }

  /** `d.update(e)` */
  function DictUpdate(d: Dict, e: Dict): Dict
    decreases |e|
  {
    if |e| == 0 then d
    else
      var last := e[|e| - 1];
      DictSet(DictUpdate(d, e[..|e| - 1]), last.0, last.1)
  }

  lemma KeysSnoc(e: Dict)
    requires |e| > 0
    ensures Keys(e) == Keys(e[..|e| - 1]) + [e[|e| - 1].0]
  {
    var init := e[..|e| - 1];
    var ks := Keys(init) + [e[|e| - 1].0];
    assert |Keys(e)| == |ks|;
    forall i | 0 <= i < |e| ensures Keys(e)[i] == ks[i] {
      if i < |init| {
        assert init[i] == e[i];
      }
    }
  }

  lemma {:induction false} DictUpdateKeys(d: Dict, e: Dict)
    ensures forall k :: k in Keys(DictUpdate(d, e)) <==> k in Keys(d) || k in Keys(e)
    decreases |e|
  {
    if |e| > 0 {
      var init := e[..|e| - 1];
      var last := e[|e| - 1];
      DictUpdateKeys(d, init);
      assert DictUpdate(d, e) == DictSet(DictUpdate(d, init), last.0, last.1);
      DictSetKeys(DictUpdate(d, init), last.0, last.1);
      KeysSnoc(e);
    }
  }

  // ---------------------------------------------------------------------------
  // The stored slot lists.

  /** The loop `for label, obj_type in objs.items()` appending `ObjectType(label, get_term(...))`. */
  function SlotObjects(store: seq<TermRow>, objs: Dict): (r: Result<seq<ObjectType>, LexError>)
    ensures r.Err? ==> r.error == TermNotFound || r.error == TermRepeated
    decreases |objs|
  {
    if |objs| == 0 then Ok([])
    else
      match SlotObjects(store, objs[..|objs| - 1])
      case Err(e) => Err(e)
      case Ok(prev) =>
        var last := objs[|objs| - 1];
        match Lookup(store, GetName(last.1))
        case Err(e) => Err(e)
        case Ok(row) => Ok(prev + [ObjectType(last.0, row.name)])
  }

  /** Each slot in the order of the dict, naming the type it was given. */
  lemma {:induction false} SlotObjectsOrder(store: seq<TermRow>, objs: Dict)
    requires SlotObjects(store, objs).Ok?
    ensures |SlotObjects(store, objs).value| == |objs|
    ensures forall i :: 0 <= i < |objs| ==>
      SlotObjects(store, objs).value[i] == ObjectType(objs[i].0, GetName(objs[i].1))
    decreases |objs|
  {
    if |objs| > 0 {
      var init := objs[..|objs| - 1];
      SlotObjectsOrder(store, init);
      forall i | 0 <= i < |objs| - 1 ensures objs[i] == init[i] { }
    }
  }

  /** Storing succeeds exactly when every slot type's name is stored once. */
  lemma {:induction false} SlotObjectsOk(store: seq<TermRow>, objs: Dict)
    requires UniqueNames(store)
    ensures SlotObjects(store, objs).Ok? <==> forall i :: 0 <= i < |objs| ==> Stored(store, GetName(objs[i].1))
    decreases |objs|
  {
    if |objs| > 0 {
      var init := objs[..|objs| - 1];
      SlotObjectsOk(store, init);
      LookupUnique(store, GetName(objs[|objs| - 1].1));
      forall i | 0 <= i < |objs| - 1 ensures objs[i] == init[i] { }
    }
  }

  datatype BaseScan = BaseScan(objects: seq<ObjectType>, objs: Dict, names: seq<string>)

  /** The loop over `super_words`: each base's stored slots when it has `objs`,
      its `objs` merged into the keyword dict, and its row collected. */
  function ScanBases(store: seq<TermRow>, bases: seq<Word>, objs: Dict): (r: Result<BaseScan, LexError>)
    ensures r.Ok? ==> |r.value.names| == |bases|
    ensures r.Err? ==> r.error == TermNotFound || r.error == TermRepeated
    decreases |bases|
  {
    if |bases| == 0 then Ok(BaseScan([], objs, []))
    else
      match ScanBases(store, bases[..|bases| - 1], objs)
      case Err(e) => Err(e)
      case Ok(scan) =>
        var b := bases[|bases| - 1];
        match Lookup(store, GetName(b))
        case Err(e) => Err(e)
        case Ok(row) =>
          if b.objs.Some? then
            Ok(BaseScan(scan.objects + row.objectTypes, DictUpdate(scan.objs, b.objs.value), scan.names + [row.name]))
          else
            Ok(BaseScan(scan.objects, scan.objs, scan.names + [row.name]))
  }

  /** The stored slots of the bases that have `objs`, concatenated in base order. */
  function BaseSlots(store: seq<TermRow>, bases: seq<Word>): seq<ObjectType>
    decreases |bases|
  {
    if |bases| == 0 then []
    else
      var b := bases[|bases| - 1];
      BaseSlots(store, bases[..|bases| - 1])
        + (if b.objs.Some? && Lookup(store, GetName(b)).Ok? then Lookup(store, GetName(b)).value.objectTypes else [])
  }

  /** The slot list add_subword starts from: the bases' slots in base order. */
  lemma {:induction false} ScanBasesObjects(store: seq<TermRow>, bases: seq<Word>, objs: Dict)
    requires ScanBases(store, bases, objs).Ok?
    ensures ScanBases(store, bases, objs).value.objects == BaseSlots(store, bases)
    decreases |bases|
  {
    if |bases| > 0 {
      ScanBasesObjects(store, bases[..|bases| - 1], objs);
    }
  }

  /** The merged keyword dict holds every keyword label and every label a base declares. */
  /** One step of `ScanBases`: the last base merges its `objs`, if any, into the dict. */
  lemma ScanBasesStep(store: seq<TermRow>, bases: seq<Word>, objs: Dict)
    requires |bases| > 0 && ScanBases(store, bases, objs).Ok?
    ensures ScanBases(store, bases[..|bases| - 1], objs).Ok?
    ensures var b := bases[|bases| - 1];
      var before := ScanBases(store, bases[..|bases| - 1], objs).value.objs;
      ScanBases(store, bases, objs).value.objs ==
        if b.objs.Some? then DictUpdate(before, b.objs.value) else before
  {
  }

  /** The merged dict keeps every keyword label and gains every label a base declares. */
  lemma ScanBasesKeys(store: seq<TermRow>, bases: seq<Word>, objs: Dict)
    requires ScanBases(store, bases, objs).Ok?
    ensures forall k :: k in Keys(objs) ==> k in Keys(ScanBases(store, bases, objs).value.objs)
    ensures forall i, k ::
      0 <= i < |bases| && bases[i].objs.Some? && k in Keys(bases[i].objs.value) ==>
      k in Keys(ScanBases(store, bases, objs).value.objs)
  {
    ScanBasesKeepsKeys(store, bases, objs, 0);
    forall i, k | 0 <= i < |bases| && bases[i].objs.Some? && k in Keys(bases[i].objs.value)
      ensures k in Keys(ScanBases(store, bases, objs).value.objs)
    {
      ScanBasesGains(store, bases, objs, i);
    }
  }

  /** Labels present after the first `n` bases stay present after all of them. */
  /** One successful step of `ScanBases`. */
  lemma ScanBasesOk(store: seq<TermRow>, bases: seq<Word>, objs: Dict, scan: BaseScan, row: TermRow)
    requires |bases| > 0 && ScanBases(store, bases[..|bases| - 1], objs) == Ok(scan)
    requires Lookup(store, GetName(bases[|bases| - 1])) == Ok(row)
    ensures var b := bases[|bases| - 1];
      ScanBases(store, bases, objs) ==
        if b.objs.Some? then Ok(BaseScan(scan.objects + row.objectTypes, DictUpdate(scan.objs, b.objs.value), scan.names + [row.name]))
        else Ok(BaseScan(scan.objects, scan.objs, scan.names + [row.name]))
  {
  }

  lemma {:induction false} ScanBasesKeepsKeys(store: seq<TermRow>, bases: seq<Word>, objs: Dict, n: nat)
    requires n <= |bases| && ScanBases(store, bases, objs).Ok?
    ensures ScanBases(store, bases[..n], objs).Ok?
    ensures forall k :: k in Keys(ScanBases(store, bases[..n], objs).value.objs) ==>
      k in Keys(ScanBases(store, bases, objs).value.objs)
    decreases |bases|
  {
    if n < |bases| {
      var init := bases[..|bases| - 1];
      ScanBasesStep(store, bases, objs);
      assert init[..n] == bases[..n];
      ScanBasesKeepsKeys(store, init, objs, n);
      var before := ScanBases(store, init, objs).value.objs;
      var b := bases[|bases| - 1];
      if b.objs.Some? {
        DictUpdateKeys(before, b.objs.value);
      }
    } else {
      assert bases[..n] == bases;
    }
  }

  /** The labels base `i` declares are in the dict once it has been scanned. */
  lemma ScanBasesGains(store: seq<TermRow>, bases: seq<Word>, objs: Dict, i: nat)
    requires i < |bases| && bases[i].objs.Some? && ScanBases(store, bases, objs).Ok?
    ensures forall k :: k in Keys(bases[i].objs.value) ==> k in Keys(ScanBases(store, bases, objs).value.objs)
  {
    ScanBasesKeepsKeys(store, bases, objs, i + 1);
    var upto := bases[..i + 1];
    assert upto[..i] == bases[..i];
    ScanBasesStep(store, upto, objs);
    DictUpdateKeys(ScanBases(store, bases[..i], objs).value.objs, bases[i].objs.value);
  }

  // ---------------------------------------------------------------------------
  // The operations, on registry values.

  const BootNames: set<string> := {"word", "noun", "verb", "thing", "exists"}

  const BootTerms: map<string, Word> :=
    map["word" := WordW, "noun" := NounW, "verb" := VerbW, "thing" := ThingW, "exists" := ExistsW]

  /** The rows of a freshly built lexicon. */
  const BootStore: seq<TermRow> := [
    TermRow("word", None, [], []),
    TermRow("noun", Some("word"), [], []),
    TermRow("verb", Some("word"), [], []),
    TermRow("thing", Some("noun"), [], []),
    TermRow("exists", Some("verb"), [], [])]

  /** The invariant every registry operation keeps: no name stored twice, the
      five root words registered as built, and every registered word stored
      unless it is one of those. */
  predicate Inv(reg: Registry) {
    UniqueNames(reg.store)
    && (forall n :: n in BootNames ==> n in reg.terms && reg.terms[n] == BootTerms[n])
    && (forall n :: n in reg.terms ==> Stored(reg.store, n) || n in BootNames)
  }

  /** Inv, once the root words are stored too. */
  predicate Booted(reg: Registry) {
    Inv(reg) && forall n :: n in BootNames ==> Stored(reg.store, n)
  }

  function Registered(reg: Registry, name: string, w: Word): (Result<Option<Word>, LexError>, Registry) {
    (Ok(Some(w)), Registry(reg.terms[name := w], reg.store))
  }

  /** The row add_word stores, or the lookup error that stops it before that. */
  function WordRow(store: seq<TermRow>, name: string, wordType: Word, objs: Dict): (r: Result<TermRow, LexError>)
    ensures r.Ok? ==> r.value.name == name
  {
    match SlotObjects(store, objs)
    case Err(e) => Err(e)
    case Ok(objects) =>
      match Lookup(store, GetName(wordType))
      case Err(e) => Err(e)
      case Ok(termType) => Ok(TermRow(name, Some(termType.name), [], objects))
  }

  /** What add_word returns and registers once its row is stored: the entry
      already registered under the name, or a new word by the kind of `wordType`. */
  function RegisterWord(reg: Registry, name: string, wordType: Word, objs: Dict): (out: (Result<Option<Word>, LexError>, Registry))
    ensures out.1.store == reg.store
    ensures out.1.terms == reg.terms
      || (name !in reg.terms && out.0.Ok? && out.0.value.Some? && out.1.terms == reg.terms[name := out.0.value.value])
  {
    if name in reg.terms then (Ok(Some(reg.terms[name])), reg)
    else if IsSubclass(wordType, NounW) then
      Registered(reg, name, NewClass(name, [ThingW], wordType.ancestors, InheritedObjs([ThingW])))
    else if IsSubclass(wordType, ThingW) then
      match Instantiate(wordType, name)
      case Err(e) => (Err(e), reg)
      case Ok(w) => Registered(reg, name, w)
    else if IsSubclass(wordType, VerbW) then
      Registered(reg, name, NewClass(name, [ExistsW], wordType.ancestors, Some(objs)))
    else (Ok(None), reg)
  }

  /** add_word */
  function AddWordOn(reg: Registry, name: string, wordType: Word, objs: Dict): (Result<Option<Word>, LexError>, Registry) {
    if Lookup(reg.store, name) != Err(TermNotFound) then (Err(TermRepeated), reg)
    else
      match WordRow(reg.store, name, wordType, objs)
      case Err(e) => (Err(e), reg)
      case Ok(row) => RegisterWord(Registry(reg.terms, reg.store + [row]), name, wordType, objs)
  }

  datatype SubwordRecord = SubwordRecord(row: TermRow, merged: Dict)

  /** The row add_subword stores and its merged keyword dict, or the lookup
      error that stops it before that. */
  function SubwordRow(store: seq<TermRow>, name: string, bases: seq<Word>, objs: Dict): (r: Result<SubwordRecord, LexError>)
    ensures r.Ok? ==> r.value.row.name == name
  {
    match ScanBases(store, bases, objs)
    case Err(e) => Err(e)
    case Ok(scan) =>
      match SlotObjects(store, scan.objs)
      case Err(e) => Err(e)
      case Ok(slots) => Ok(SubwordRecord(TermRow(name, None, scan.names, scan.objects + slots), scan.objs))
  }

  /** What add_subword returns and registers once its row is stored: the
      kind of the first base picks the `_make_*` helper. */
  function RegisterSubword(reg: Registry, name: string, bases: seq<Word>, merged: Dict): (out: (Result<Option<Word>, LexError>, Registry))
    ensures out.1.store == reg.store
    ensures out.1.terms == reg.terms
      || (out.0.Ok? && out.0.value.Some? && out.1.terms == reg.terms[name := out.0.value.value])
  {
    if |bases| == 0 then (Err(IndexError), reg)
    else if IsSubclass(bases[0], NounW) then
      Registered(reg, name, NewClass(name, bases, WordW.ancestors, InheritedObjs(bases)))
    else if IsSubclass(bases[0], ThingW) then
      Registered(reg, name, NewClass(name, bases, NounW.ancestors, InheritedObjs(bases)))
    else if IsSubclass(bases[0], VerbW) then
      Registered(reg, name, NewClass(name, bases, WordW.ancestors, InheritedObjs(bases)))
    else if IsSubclass(bases[0], ExistsW) then
      Registered(reg, name, NewClass(name, bases, bases[0].metaAncestors, Some(merged)))
    else (Ok(None), reg)
  }

  /** add_subword */
  function AddSubwordOn(reg: Registry, name: string, supers: SuperWords, objs: Dict): (Result<Option<Word>, LexError>, Registry) {
    if Lookup(reg.store, name) != Err(TermNotFound) then (Err(TermRepeated), reg)
    else
      match SubwordRow(reg.store, name, Normalize(supers), objs)
      case Err(e) => (Err(e), reg)
      case Ok(sub) => RegisterSubword(Registry(reg.terms, reg.store + [sub.row]), name, Normalize(supers), sub.merged)
  }

  /** get_word */
  function GetWordOn(reg: Registry, name: string): (Result<Word, LexError>, Registry) {
    if name in reg.terms then (Ok(reg.terms[name]), reg)
    else
      match Lookup(reg.store, name)
      case Err(e) => (Err(e), reg)
      case Ok(row) =>
        match row.termType
        case None => (Err(AttributeError), reg)
        case Some(typeName) =>
          if typeName !in reg.terms then (Err(KeyError), reg)
          else
            match Instantiate(reg.terms[typeName], name)
            case Err(e) => (Err(e), reg)
            case Ok(w) => (Ok(w), Registry(reg.terms[name := w], reg.store))
  }

  // ---------------------------------------------------------------------------
  // Properties of the operations.

  lemma StoreAppendUnique(store: seq<TermRow>, row: TermRow)
    requires UniqueNames(store)
    requires !Stored(store, row.name)
    ensures UniqueNames(store + [row])
    ensures forall n :: Stored(store + [row], n) <==> Stored(store, n) || n == row.name
  {
    var s := store + [row];
    forall n ensures Stored(s, n) <==> Stored(store, n) || n == row.name {
      if Stored(store, n) {
        var i :| 0 <= i < |store| && store[i].name == n;
        assert s[i] == store[i];
      }
      if n == row.name { assert s[|store|].name == n; }
      if Stored(s, n) {
        var i :| 0 <= i < |s| && s[i].name == n;
        if i < |store| { assert s[i] == store[i]; }
      }
    }
    forall i, j | 0 <= i < j < |s| ensures s[i].name != s[j].name {
      if j == |store| {
        assert s[i] == store[i];
      }
    }
  }

  /** Storing a row under a new name keeps the invariant. */
  lemma AppendRowInv(reg: Registry, row: TermRow)
    requires Inv(reg) && !Stored(reg.store, row.name)
    ensures Inv(Registry(reg.terms, reg.store + [row]))
    ensures Stored(reg.store + [row], row.name)
    ensures Booted(reg) ==> Booted(Registry(reg.terms, reg.store + [row]))
  {
    StoreAppendUnique(reg.store, row);
  }

  /** Registering a stored name that is not registered yet keeps the invariant. */
  lemma RegisterInv(reg: Registry, name: string, w: Word)
    requires Inv(reg) && Stored(reg.store, name) && name !in reg.terms
    ensures Inv(Registry(reg.terms[name := w], reg.store))
    ensures Booted(reg) ==> Booted(Registry(reg.terms[name := w], reg.store))
  {
  }

  /** add_word keeps the invariant; if the name is already stored it raises
      TermRepeated and changes nothing; every other error leaves the registry
      as it was; success stores exactly one new row, under the new name. */
  lemma AddWordKeepsInv(reg: Registry, name: string, wordType: Word, objs: Dict)
    requires Inv(reg)
    ensures Inv(AddWordOn(reg, name, wordType, objs).1)
    ensures Booted(reg) ==> Booted(AddWordOn(reg, name, wordType, objs).1)
    ensures Stored(reg.store, name) ==> AddWordOn(reg, name, wordType, objs) == (Err(TermRepeated), reg)
    ensures AddWordOn(reg, name, wordType, objs).0.Err? ==> AddWordOn(reg, name, wordType, objs).1 == reg
    ensures AddWordOn(reg, name, wordType, objs).1 != reg ==>
      WordRow(reg.store, name, wordType, objs).Ok?
      && AddWordOn(reg, name, wordType, objs).1.store == reg.store + [WordRow(reg.store, name, wordType, objs).value]
  {
    LookupUnique(reg.store, name);
    if !Stored(reg.store, name) && WordRow(reg.store, name, wordType, objs).Ok? {
      var row := WordRow(reg.store, name, wordType, objs).value;
      var reg1 := Registry(reg.terms, reg.store + [row]);
      AppendRowInv(reg, row);
      var out := RegisterWord(reg1, name, wordType, objs);
      assert AddWordOn(reg, name, wordType, objs) == out;
      if out.1.terms != reg1.terms {
        RegisterInv(reg1, name, out.0.value.value);
      }
      if IsSubclass(wordType, ThingW) && !IsSubclass(wordType, NounW) && name !in reg.terms {
        assert Instantiate(wordType, name).Ok?;
      }
    }
  }

  /** `os` is `pre` followed by one slot per entry of `merged`, in order. */
  predicate SlotsAfter(os: seq<ObjectType>, pre: seq<ObjectType>, merged: Dict) {
    && |os| == |pre| + |merged|
    && os[..|pre|] == pre
    && forall i :: 0 <= i < |merged| ==> os[|pre| + i] == ObjectType(merged[i].0, GetName(merged[i].1))
  }

  lemma ConcatSlots(pre: seq<ObjectType>, slots: seq<ObjectType>, merged: Dict)
    requires |slots| == |merged|
    requires forall i :: 0 <= i < |merged| ==> slots[i] == ObjectType(merged[i].0, GetName(merged[i].1))
    ensures SlotsAfter(pre + slots, pre, merged)
  {
    assert (pre + slots)[..|pre|] == pre;
  }

  /** The row add_subword stores: the bases' slots first, in base order, then
      one slot per label of the merged keyword dict, in its order. */
  lemma SubwordRowSlots(store: seq<TermRow>, name: string, bases: seq<Word>, objs: Dict)
    requires SubwordRow(store, name, bases, objs).Ok?
    ensures SlotsAfter(SubwordRow(store, name, bases, objs).value.row.objectTypes, BaseSlots(store, bases),
      SubwordRow(store, name, bases, objs).value.merged)
  {
    var scan := ScanBases(store, bases, objs).value;
    ScanBasesObjects(store, bases, objs);
    SlotObjectsOrder(store, scan.objs);
    ConcatSlots(scan.objects, SlotObjects(store, scan.objs).value, scan.objs);
  }

  /** The merged keyword dict holds the keyword labels and every label a base declares. */
  lemma SubwordRowLabels(store: seq<TermRow>, name: string, bases: seq<Word>, objs: Dict)
    requires SubwordRow(store, name, bases, objs).Ok?
    ensures forall k :: k in Keys(objs) ==> k in Keys(SubwordRow(store, name, bases, objs).value.merged)
    ensures forall i, k ::
      0 <= i < |bases| && bases[i].objs.Some? && k in Keys(bases[i].objs.value) ==>
      k in Keys(SubwordRow(store, name, bases, objs).value.merged)
  {
    ScanBasesKeys(store, bases, objs);
  }

  /** add_subword keeps the invariant, rejects a stored name with
      TermRepeated and no change, and otherwise stores exactly its row. */
  lemma AddSubwordKeepsInv(reg: Registry, name: string, supers: SuperWords, objs: Dict)
    requires Booted(reg)
    ensures Booted(AddSubwordOn(reg, name, supers, objs).1)
    ensures Stored(reg.store, name) ==> AddSubwordOn(reg, name, supers, objs) == (Err(TermRepeated), reg)
    ensures AddSubwordOn(reg, name, supers, objs).1 != reg ==>
      SubwordRow(reg.store, name, Normalize(supers), objs).Ok?
      && AddSubwordOn(reg, name, supers, objs).1.store
        == reg.store + [SubwordRow(reg.store, name, Normalize(supers), objs).value.row]
  {
    LookupUnique(reg.store, name);
    var bases := Normalize(supers);
    if !Stored(reg.store, name) && SubwordRow(reg.store, name, bases, objs).Ok? {
      var sub := SubwordRow(reg.store, name, bases, objs).value;
      var reg1 := Registry(reg.terms, reg.store + [sub.row]);
      AppendRowInv(reg, sub.row);
      var out := RegisterSubword(reg1, name, bases, sub.merged);
      assert AddSubwordOn(reg, name, supers, objs) == out;
      if out.1.terms != reg1.terms {
        assert name !in BootNames;
        RegisterInv(reg1, name, out.0.value.value);
      }
    }
  }

  /** add_subword given a single word behaves as given the one-element tuple. */
  lemma AddSubwordOne(reg: Registry, name: string, w: Word, objs: Dict)
    ensures AddSubwordOn(reg, name, One(w), objs) == AddSubwordOn(reg, name, Many([w]), objs)
  {
  }

  /** An empty base tuple still stores the row, then fails on `super_words[0]`. */
  lemma AddSubwordEmpty(reg: Registry, name: string, objs: Dict)
    requires UniqueNames(reg.store) && !Stored(reg.store, name)
    requires SlotObjects(reg.store, objs).Ok?
    ensures AddSubwordOn(reg, name, Many([]), objs)
      == (Err(IndexError), Registry(reg.terms, reg.store + [TermRow(name, None, [], SlotObjects(reg.store, objs).value)]))
  {
    LookupUnique(reg.store, name);
    assert ScanBases(reg.store, [], objs) == Ok(BaseScan([], objs, []));
    assert [] + SlotObjects(reg.store, objs).value == SlotObjects(reg.store, objs).value;
  }

  /** With a single base, the scan succeeds only if the base's row is found,
      and the inherited slots are that row's. */
  lemma OneBase(store: seq<TermRow>, base: Word, objs: Dict)
    requires ScanBases(store, [base], objs).Ok? && base.objs.Some?
    ensures Lookup(store, GetName(base)).Ok?
    ensures BaseSlots(store, [base]) == Lookup(store, GetName(base)).value.objectTypes
  {
    assert [base][..0] == [];
  }

  /** An inherited slot is stored twice: when the base's stored row lists
      the base's first label, the new row lists it once in the copied base
      slots and once more from the merged keyword dict. */
  lemma SubwordRepeatsInherited(store: seq<TermRow>, name: string, base: Word, objs: Dict)
    requires SubwordRow(store, name, [base], objs).Ok?
    requires base.objs.Some? && |base.objs.value| > 0
    requires Lookup(store, GetName(base)).Ok?
    requires exists j ::
      0 <= j < |Lookup(store, GetName(base)).value.objectTypes| &&
      Lookup(store, GetName(base)).value.objectTypes[j].slotLabel == base.objs.value[0].0
    ensures var row := SubwordRow(store, name, [base], objs).value.row;
      var inherited := Lookup(store, GetName(base)).value.objectTypes;
      && |inherited| <= |row.objectTypes|
      && (exists i :: 0 <= i < |inherited| && row.objectTypes[i].slotLabel == base.objs.value[0].0)
      && (exists i :: |inherited| <= i < |row.objectTypes| && row.objectTypes[i].slotLabel == base.objs.value[0].0)
  {
    var bases := [base];
    OneBase(store, base, objs);
    SubwordRowSlots(store, name, bases, objs);
    var sub := SubwordRow(store, name, bases, objs).value;
    var k := base.objs.value[0].0;
    var inherited := Lookup(store, GetName(base)).value.objectTypes;
    assert k in Keys(sub.merged) by {
      SubwordRowLabels(store, name, bases, objs);
      assert Keys(base.objs.value)[0] == k;
      assert bases[0] == base;
    }
    var j :| 0 <= j < |sub.merged| && Keys(sub.merged)[j] == k;
    assert sub.row.objectTypes[|BaseSlots(store, bases)| + j].slotLabel == k;
    var j0 :| 0 <= j0 < |inherited| && inherited[j0].slotLabel == k;
    assert sub.row.objectTypes[j0] == inherited[j0];
  }

  /** What `_make_*` record can be read back by get_word without a storage lookup. */
  lemma GetWordAfterRegister(reg: Registry, name: string, w: Word)
    ensures GetWordOn(Registered(reg, name, w).1, name) == (Ok(w), Registered(reg, name, w).1)
  {
  }

  /** get_word keeps the invariant, returns a registered entry unchanged, and
      registers what it builds. */
  lemma GetWordKeepsInv(reg: Registry, name: string)
    requires Booted(reg)
    ensures Booted(GetWordOn(reg, name).1)
    ensures GetWordOn(reg, name).0.Ok? ==>
      name in GetWordOn(reg, name).1.terms && GetWordOn(reg, name).1.terms[name] == GetWordOn(reg, name).0.value
    ensures name in reg.terms ==> GetWordOn(reg, name) == (Ok(reg.terms[name]), reg)
  {
    LookupUnique(reg.store, name);
    var (res, reg') := GetWordOn(reg, name);
    if name !in reg.terms && reg' != reg {
      var row := Lookup(reg.store, name).value;
      var w := Instantiate(reg.terms[row.termType.value], name).value;
      assert reg' == Registry(reg.terms[name := w], reg.store) && res == Ok(w);
      RegisterInv(reg, name, w);
    }
  }

  /** Adding a word registers it, and get_word then returns it. */
  lemma AddWordThenGetWord(reg: Registry, name: string, wordType: Word, objs: Dict)
    requires AddWordOn(reg, name, wordType, objs).0.Ok?
    requires AddWordOn(reg, name, wordType, objs).0.value.Some?
    ensures var reg' := AddWordOn(reg, name, wordType, objs).1;
      GetWordOn(reg', name) == (Ok(AddWordOn(reg, name, wordType, objs).0.value.value), reg')
  {
  }

  lemma LookupFound(store: seq<TermRow>, i: nat)
    requires UniqueNames(store) && i < |store|
    ensures Lookup(store, store[i].name) == Ok(store[i])
  {
    LookupUnique(store, store[i].name);
    var row := Lookup(store, store[i].name).value;
    var j :| 0 <= j < |store| && store[j] == row;
    assert i == j;
  }

  lemma BootUnique()
    ensures UniqueNames(BootStore)
  {
  }

  /** The five rows, appended one at a time as the bootstrap does, are BootStore. */
  lemma BootStoreBuilt()
    ensures [TermRow("word", None, [], [])] + [TermRow("noun", Some("word"), [], [])]
      + [TermRow("verb", Some("word"), [], [])] + [TermRow("thing", Some("noun"), [], [])]
      + [TermRow("exists", Some("verb"), [], [])] == BootStore
  {
  }

  lemma BootStored()
    ensures forall n :: n in BootNames ==> Stored(BootStore, n)
  {
    assert BootStore[0].name == "word" && BootStore[1].name == "noun" && BootStore[2].name == "verb";
    assert BootStore[3].name == "thing" && BootStore[4].name == "exists";
  }

  /** add_word during the bootstrap: the name is registered but not stored. */
  lemma AddWordBoot(reg: Registry, name: string, wordType: Word)
    requires UniqueNames(reg.store) && !Stored(reg.store, name) && name in reg.terms
    requires Lookup(reg.store, GetName(wordType)).Ok?
    ensures AddWordOn(reg, name, wordType, [])
      == (Ok(Some(reg.terms[name])), Registry(reg.terms, reg.store + [TermRow(name, Some(GetName(wordType)), [], [])]))
  {
    LookupUnique(reg.store, name);
  }

  // ---------------------------------------------------------------------------
  // The Lexicon object.

  class Lexicon {
    var terms: map<string, Word>
    var store: seq<TermRow>

    function State(): Registry
      reads this
    {
      Registry(terms, store)
    }

    predicate Valid()
      reads this
    {
      Booted(State())
    }

    /** The bootstrap: the five root words registered, `word` stored, then
        add_word for `noun`, `verb` (typed `word`), `thing` (typed `noun`) and
        `exists` (typed `verb`). */
    constructor ()
      ensures Valid()
      ensures terms == BootTerms && store == BootStore
    {
      terms := BootTerms;
      store := [TermRow("word", None, [], [])];
      new;
      assert Inv(State());
      BootAdd("noun", WordW, "word", 0);
      BootAdd("verb", WordW, "word", 0);
      BootAdd("thing", NounW, "noun", 1);
      BootAdd("exists", VerbW, "verb", 2);
      BootStoreBuilt();
      BootStored();
    }

    /** One add_word call of the bootstrap: `name` is registered but not yet
        stored, and its type's row is. */
    method BootAdd(name: string, wordType: Word, typeName: string, at: nat)
      requires Inv(State()) && terms == BootTerms && name in BootTerms
      requires typeName == GetName(wordType)
      requires forall i :: 0 <= i < |store| ==> store[i].name != name
      requires at < |store| && store[at].name == typeName
      modifies this
      ensures Inv(State()) && terms == BootTerms
      ensures store == old(store) + [TermRow(name, Some(typeName), [], [])]
    {
      assert Stored(store, typeName);
      LookupUnique(store, GetName(wordType));
      AddWordBoot(State(), name, wordType);
      StoreAppendUnique(store, TermRow(name, Some(GetName(wordType)), [], []));
      var r := AddWord(name, wordType, []);
    }

    function GetTerm(name: string): Result<TermRow, LexError>
      reads this
    {
      Lookup(store, name)
    }

    /** The loop over a keyword dict that builds `ObjectType(label, get_term(get_name(type)))`
        for each slot, in the dict's order; the first failed lookup is raised. */
    method CollectSlots(objs: Dict) returns (r: Result<seq<ObjectType>, LexError>)
      ensures r == SlotObjects(store, objs)
    {
      var objects: seq<ObjectType> := [];
      var i := 0;
      while i < |objs|
        invariant 0 <= i <= |objs|
        invariant SlotObjects(store, objs[..i]) == Ok(objects)
      {
        assert objs[..i + 1][..i] == objs[..i];
        var objTerm := GetTerm(GetName(objs[i].1));
        if objTerm.Err? {
          SlotObjectsErr(store, objs, i + 1);
          return Err(objTerm.error);
        }
        objects := objects + [ObjectType(objs[i].0, objTerm.value.name)];
        i := i + 1;
      }
      assert objs[..i] == objs;
      r := Ok(objects);
    }

    /** The loop of add_subword over its bases: each base's stored row, its
        stored slots and its `objs` merged in when it has `objs`. */
    method CollectBases(superWords: seq<Word>, objs: Dict) returns (r: Result<BaseScan, LexError>)
      ensures r == ScanBases(store, superWords, objs)
    {
      var merged := objs;
      var objects: seq<ObjectType> := [];
      var termBases: seq<string> := [];
      var i := 0;
      while i < |superWords|
        invariant 0 <= i <= |superWords|
        invariant ScanBases(store, superWords[..i], objs) == Ok(BaseScan(objects, merged, termBases))
      {
        assert superWords[..i + 1][..i] == superWords[..i];
        var superWord := superWords[i];
        var termBase := GetTerm(GetName(superWord));
        if termBase.Err? {
          ScanBasesErr(store, superWords, objs, i + 1);
          return Err(termBase.error);
        }
        ScanBasesOk(store, superWords[..i + 1], objs, BaseScan(objects, merged, termBases), termBase.value);
        if superWord.objs.Some? {
          objects := objects + termBase.value.objectTypes;
          merged := DictUpdateLoop(merged, superWord.objs.value);
        }
        termBases := termBases + [termBase.value.name];
        i := i + 1;
      }
      assert superWords[..i] == superWords;
      r := Ok(BaseScan(objects, merged, termBases));
    }

    method AddWord(name: string, wordType: Word, objs: Dict) returns (r: Result<Option<Word>, LexError>)
      requires Inv(State())
      modifies this
      ensures (r, State()) == AddWordOn(old(State()), name, wordType, objs)
      ensures Inv(State())
    {
      AddWordKeepsInv(State(), name, wordType, objs);
      if GetTerm(name) != Err(TermNotFound) {
        return Err(TermRepeated);
      }
      var objects := CollectSlots(objs);
      if objects.Err? {
        return Err(objects.error);
      }
      var termType := GetTerm(GetName(wordType));
      if termType.Err? {
        return Err(termType.error);
      }
      store := store + [TermRow(name, Some(termType.value.name), [], objects.value)];
      if name in terms {
        return Ok(Some(terms[name]));
      }
      if IsSubclass(wordType, NounW) {
        var w := MakeNoun(name, None, Some(wordType));
        r := Ok(Some(w));
      } else if IsSubclass(wordType, ThingW) {
        var w := MakeName(name, Some(wordType));
        r := match w case Ok(x) => Ok(Some(x)) case Err(e) => Err(e);
      } else if IsSubclass(wordType, VerbW) {
        var w := MakeVerb(name, None, Some(wordType), Some(objs));
        r := Ok(Some(w));
      } else {
        r := Ok(None);
      }
    }

    method AddSubword(name: string, supers: SuperWords, objs: Dict) returns (r: Result<Option<Word>, LexError>)
      requires Valid()
      modifies this
      ensures (r, State()) == AddSubwordOn(old(State()), name, supers, objs)
      ensures Valid()
    {
      AddSubwordKeepsInv(State(), name, supers, objs);
      if GetTerm(name) != Err(TermNotFound) {
        return Err(TermRepeated);
      }
      var superWords := match supers case One(w) => [w] case Many(ws) => ws;
      var scan := CollectBases(superWords, objs);
      if scan.Err? {
        return Err(scan.error);
      }
      var merged := scan.value.objs;
      var slots := CollectSlots(merged);
      if slots.Err? {
        return Err(slots.error);
      }
      var objects := scan.value.objects + slots.value;
      assert superWords == Normalize(supers);
      assert SubwordRow(store, name, superWords, objs) == Ok(SubwordRecord(TermRow(name, None, scan.value.names, objects), merged));
      store := store + [TermRow(name, None, scan.value.names, objects)];
      r := RegisterSub(name, superWords, merged);
    }

    /** The tail of add_subword, once the row is stored: `super_words[0]`
        picks the `_make_*` helper that builds and registers the class. */
    method RegisterSub(name: string, superWords: seq<Word>, merged: Dict) returns (r: Result<Option<Word>, LexError>)
      modifies this
      ensures (r, State()) == RegisterSubword(old(State()), name, superWords, merged)
    {
      if |superWords| == 0 {
        return Err(IndexError);
      }
      var wordBase := superWords[0];
      if IsSubclass(wordBase, NounW) {
        var w := MakeSubnoun(name, Some(superWords));
        r := Ok(Some(w));
      } else if IsSubclass(wordBase, ThingW) {
        var w := MakeNoun(name, Some(superWords), None);
        r := Ok(Some(w));
      } else if IsSubclass(wordBase, VerbW) {
        var w := MakeSubverb(name, Some(superWords));
        r := Ok(Some(w));
      } else if IsSubclass(wordBase, ExistsW) {
        var w := MakeVerb(name, Some(superWords), None, Some(merged));
        r := Ok(Some(w));
      } else {
        r := Ok(None);
      }
    }

    method GetWord(name: string) returns (r: Result<Word, LexError>)
      requires Valid()
      modifies this
      ensures (r, State()) == GetWordOn(old(State()), name)
      ensures Valid()
    {
      GetWordKeepsInv(State(), name);
      if name in terms {
        return Ok(terms[name]);
      }
      var term := GetTerm(name);
      if term.Err? {
        return Err(term.error);
      }
      if term.value.termType.None? {
        return Err(AttributeError);
      }
      if term.value.termType.value !in terms {
        return Err(KeyError);
      }
      var wordType := terms[term.value.termType.value];
      r := MakeName(name, Some(wordType));
    }

    /** `_make_noun`: `ntype(name, tuple(bases), {})`, `bases` defaulting to
        `(thing,)` and `ntype` to `noun`. */
    method MakeNoun(name: string, bases: Option<seq<Word>>, ntype: Option<Word>) returns (w: Word)
      modifies this
      ensures var bs := if bases.None? then [ThingW] else bases.value;
        var nt := if ntype.None? then NounW else ntype.value;
        w == NewClass(name, bs, nt.ancestors, InheritedObjs(bs))
      ensures terms == old(terms)[name := w] && store == old(store)
    {
      var bs := if bases.None? then [ThingW] else bases.value;
      var nt := if ntype.None? then NounW else ntype.value;
      w := NewClass(name, bs, nt.ancestors, InheritedObjs(bs));
      terms := terms[name := w];
    }

    /** `_make_name`: the noun is the one given, else the one NAME_PAT names, else `thing`. */
    method MakeName(name: string, noun: Option<Word>) returns (r: Result<Word, LexError>)
      modifies this
      ensures r == MakeNameFor(old(terms), name, noun)
      ensures terms == (if r.Ok? then old(terms)[name := r.value] else old(terms))
      ensures store == old(store)
    {
      var n: Word;
      if noun.None? {
        var m := NamePat(name);
        if m.Some? {
          if m.value !in terms {
            return Err(KeyError);
          }
          n := terms[m.value];
          if !IsInstance(n, NounW) {
            return Err(AssertionError);
          }
        } else {
          n := ThingW;
        }
      } else {
        n := noun.value;
      }
      r := Instantiate(n, name);
      if r.Ok? {
        terms := terms[name := r.value];
      }
    }

    /** `_make_verb`: `vtype(name, tuple(bases), objs)`, whose `__init__` sets
        `objs`; `bases` defaults to `(exists,)` and `vtype` to the type of the
        first base, or `verb` when there is none. */
    method MakeVerb(name: string, bases: Option<seq<Word>>, vtype: Option<Word>, objs: Option<Dict>) returns (w: Word)
      modifies this
      ensures var bs := if bases.None? then [ExistsW] else bases.value;
        var meta := if vtype.Some? then vtype.value.ancestors
          else if |bs| > 0 then bs[0].metaAncestors else VerbW.ancestors;
        w == NewClass(name, bs, meta, Some(if objs.None? then [] else objs.value))
      ensures terms == old(terms)[name := w] && store == old(store)
    {
      var bs := if bases.None? then [ExistsW] else bases.value;
      var d := if objs.None? then [] else objs.value;
      var meta := if vtype.Some? then vtype.value.ancestors
        else if |bs| > 0 then bs[0].metaAncestors else VerbW.ancestors;
      w := NewClass(name, bs, meta, Some(d));
      terms := terms[name := w];
    }

    /** `_make_subverb`: `word(name, tuple(bases), {})`, `bases` defaulting to `(verb,)`. */
    method MakeSubverb(name: string, bases: Option<seq<Word>>) returns (w: Word)
      modifies this
      ensures var bs := if bases.None? then [VerbW] else bases.value;
        w == NewClass(name, bs, WordW.ancestors, InheritedObjs(bs))
      ensures terms == old(terms)[name := w] && store == old(store)
    {
      var bs := if bases.None? then [VerbW] else bases.value;
      w := NewClass(name, bs, WordW.ancestors, InheritedObjs(bs));
      terms := terms[name := w];
    }

    /** `_make_subnoun`: `word(name, tuple(bases), {})`, `bases` defaulting to `(noun,)`. */
    method MakeSubnoun(name: string, bases: Option<seq<Word>>) returns (w: Word)
      modifies this
      ensures var bs := if bases.None? then [NounW] else bases.value;
        w == NewClass(name, bs, WordW.ancestors, InheritedObjs(bs))
      ensures terms == old(terms)[name := w] && store == old(store)
    {
      var bs := if bases.None? then [NounW] else bases.value;
      w := NewClass(name, bs, WordW.ancestors, InheritedObjs(bs));
      terms := terms[name := w];
    }
  }

  /** `merged.update(e)`, one key at a time. */
  method DictUpdateLoop(d: Dict, e: Dict) returns (r: Dict)
    ensures r == DictUpdate(d, e)
  {
    r := d;
    var i := 0;
    while i < |e|
      invariant 0 <= i <= |e|
      invariant r == DictUpdate(d, e[..i])
    {
      assert e[..i + 1][..i] == e[..i];
      r := DictSet(r, e[i].0, e[i].1);
      i := i + 1;
    }
    assert e[..i] == e;
  }

  lemma {:induction false} SlotObjectsErr(store: seq<TermRow>, objs: Dict, n: nat)
    requires 0 < n <= |objs|
    requires SlotObjects(store, objs[..n - 1]).Ok?
    requires Lookup(store, GetName(objs[n - 1].1)).Err?
    ensures SlotObjects(store, objs) == Err(Lookup(store, GetName(objs[n - 1].1)).error)
    decreases |objs|
  {
    if n < |objs| {
      var init := objs[..|objs| - 1];
      assert init[..n - 1] == objs[..n - 1];
      SlotObjectsErr(store, init, n);
    } else {
      assert objs[..n - 1] == objs[..|objs| - 1];
    }
  }

  lemma {:induction false} ScanBasesErr(store: seq<TermRow>, bases: seq<Word>, objs: Dict, n: nat)
    requires 0 < n <= |bases|
    requires ScanBases(store, bases[..n - 1], objs).Ok?
    requires Lookup(store, GetName(bases[n - 1])).Err?
    ensures ScanBases(store, bases, objs) == Err(Lookup(store, GetName(bases[n - 1])).error)
    decreases |bases|
  {
    if n < |bases| {
      var init := bases[..|bases| - 1];
      assert init[..n - 1] == bases[..n - 1];
      ScanBasesErr(store, init, objs, n);
    } else {
      assert bases[..n - 1] == bases[..|bases| - 1];
    }
  }
}
