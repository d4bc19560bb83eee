# terms: the fact network and the term registry, in Dafny

This project models the core of `terms`, a Python knowledge-base engine, and
proves properties of that model. The model covers three source files.

- **Words** (`words.dfy`, terms/words.py). Words are Python classes. Here each
  word is a value holding:
  - its `__name__`;
  - the names on its method resolution order, so `issubclass` is membership;
  - the same for its metaclass, so `isinstance` is membership;
  - its `objs` slots, when it has them.

  The module models `get_name`, the predicate name built by `make_pred`, the
  instance name built by `_new_exists`, and the `_label` attributes set by
  `_init_exists` and read back by `_getattr_exists`. `exists` declares one
  slot, `subject`, typed `word` (`Words.ExistsW`).
- **Lexicon** (`lexicon.dfy`, terms/lexicon.py). The registry is the class
  `Lexicon.Lexicon`. It has two fields:
  - `terms`: the in-memory dict of words;
  - `store`: the rows of the `Term` table, in insertion order.

  Each method is proved against a function on a `Registry` value:
  - `AddWordOn` for `add_word`;
  - `AddSubwordOn` for `add_subword`;
  - `GetWordOn` for `get_word`;
  - `Lookup` for `get_term`;
  - `NounFor` and `Instantiate` for `_make_name` with `NAME_PAT`.

  The invariant they keep is `Inv` / `Booted`: no name is stored twice, the
  five root words are registered, and every registered word is stored.
- **Fact network** (`facts.dfy`, `network.dfy`, `factset.dfy`,
  terms/factset.py).
  - Facts are predicates: a verb, a truth flag and labelled slot fillers.
  - `get_paths` turns a fact into a list of paths.
  - The discrimination network is a table of nodes: row `i` is node `i`, its
    children are row numbers, and row 0 is the root.
  - The class `FactSets.FactSet` holds that table. Its methods (`GetPaths`,
    `GetOrCreateNode`, `AddFact`, `Dispatch`, `Query`) are proved equal to
    the specification functions of module `Network`. Lemmas about those
    functions prove insertion idempotence, terminal preservation, the table
    invariant and the soundness of matches.
  - `Facts.Resolve` holds the four `resolve` class methods:
    - `NegFNode` reads the `true` flag;
    - `TermFNode` reads the term at the path;
    - `VerbFNode` returns a variable itself and any other term's `term_type`;
    - `LabelFNode` returns `path[-2]`.
  - `Network.Selected` holds the four `get_children` methods. Two differences
    are kept exactly as written:
    - `TermFNode` filters a bound variable by the variable term itself;
    - `VerbFNode` filters by the variable's binding.

Module `Text` holds the shared pieces: `Option`/`Result`, string order,
`'sep'.join` / `str.split`, and an insertion sort that is stable, as
Python's `sorted` is, with its uniqueness and permutation-independence
lemmas.

Where the code differs from what its documentation leads one to expect, the model follows the code:
- A repeated name at lookup raises `TermRepeated` (`Lexicon.Lookup`), not a
  separate storage-integrity error.
- `add_subword` with an empty base tuple stores its row first and only then
  fails with `IndexError` on `super_words[0]`
  (`Lexicon.AddSubwordEmpty`). It is not rejected up front as invalid bases.
- `add_subword` merges the bases' `objs` into the keyword dict before
  storing the keyword slots. Each inherited slot is therefore stored twice:
  once from the base's row and once from the merged dict
  (`Lexicon.SubwordRepeatsInherited`).
- `_recurse_paths` silently skips a filler that is neither a predicate nor a
  word. It does not fail with an unsupported-slot error (`Facts.SlotPathsCases`).
- A child is looked up by category and value, as the joined SQL filter
  does. A node keeps the `child_path` of the first fact walked through it,
  so a later fact that differs in shape at that position is stored where
  its own query never looks (see "## Findings").

## Model

| member | source | states |
|---|---|---|
| Words.GetName | terms/words.py:77-80 | `type` itself is called "word"; every word not named `type` is called by its `__name__` |
| Words.DictGet | terms/words.py:55 | `newdict.get(label, None)` is None exactly when the label is absent, and otherwise returns an object stored under that label |
| Words.MakePredName | terms/words.py:84-88 | the loop builds `PredName`: the verb's name, then `__label__name` for each argument in ascending label order |
| Words.PredNameOrderIndependent | terms/words.py:85-86 | the predicate name does not depend on the order the keyword arguments were passed in |
| Words.NewExistsName | terms/words.py:52-59 | the loop builds `ExistsName`: the class name, then label and object name for each declared label present in `newdict`, sorted, joined by `__` |
| Words.ExistsNameIgnoresUndeclared | terms/words.py:52-59 | labels that `cls.objs` does not declare never appear in the instance name: dropping them leaves the name unchanged |
| Words.PredNameMatchesExistsName | terms/words.py:83-89 | when every argument label is declared by the verb, the name `make_pred` computes equals the name `_new_exists` gives the instance |
| Words.GetAttrRoundTrip | terms/words.py:62-69 | reading a label back, by its plain or its `_`-prefixed name, gives the object stored for it, both as written (the plain label is already in the namespace) and with the intended fallback |
| Words.GetAttrAsWrittenFails | terms/words.py:66-69 | as written, the fallback never succeeds: reading `x` after storing the argument `_x` fails, while the intended lookup finds it |
| Words.GetAttrFallback | terms/words.py:62-69 | for every argument `_k` whose plain name `k` is no argument and no name of the metaclass chain (`objs`, `mro`), reading `k` fails as written and gives the stored object with the intended fallback |
| Words.ExistsObject.constructor | terms/words.py:51-64 | an instance gets the name `ExistsName` and the attributes `newdict` plus `_label` for each item |
| Words.MakePred | terms/words.py:83-89 | returns the computed predicate name and a fresh instance named and initialised by `_new_exists` / `_init_exists` |
| Lexicon.Lookup | terms/lexicon.py:121-127 | `get_term` returns a stored row with that name, or fails with TermNotFound or TermRepeated |
| Lexicon.LookupSpec | terms/lexicon.py:121-127 | TermNotFound exactly when no row has the name; TermRepeated exactly when two rows have it |
| Lexicon.LookupUnique | terms/lexicon.py:121-127 | in a store without repeated names, `get_term` succeeds exactly for stored names and otherwise raises TermNotFound |
| Lexicon.LookupFound | terms/lexicon.py:121-127 | in a store without repeated names, looking up a row's name returns that row |
| Lexicon.NamePatSound | terms/lexicon.py:29 | a name `NAME_PAT` matches is a `[a-z][a-z_]*[a-z]` stem followed by digits 1-9, possibly with a final newline, and the group is the stem |
| Lexicon.NamePatComplete | terms/lexicon.py:29 | every stem followed by digits 1-9 matches, with the stem as the group |
| Lexicon.NamePatRejects | terms/lexicon.py:29 | `person1` gives `person`; `person`, `person10` and `p1` do not match |
| Lexicon.NounFor | terms/lexicon.py:155-161 | with no noun given, a non-matching name gets `thing`, and a matching one gets the registered noun its stem names |
| Lexicon.Instantiate | terms/lexicon.py:162 | calling a noun under `thing` builds an individual with the given name; any other word but the root rejects the call with TypeError |
| Lexicon.NewClass | terms/lexicon.py:150 | a class built from bases has the given name and inherits every base's ancestors and metaclass ancestors |
| Lexicon.DictSetKeys | terms/lexicon.py:95 | setting a key adds exactly that key |
| Lexicon.DictUpdateKeys | terms/lexicon.py:95 | after `objs.update(e)` the keys are those of `objs` and of `e` |
| Lexicon.DictUpdateLoop | terms/lexicon.py:95 | the key-by-key update computes `DictUpdate` |
| Lexicon.SlotObjects | terms/lexicon.py:59-63 | building the slot rows fails only with the lookup errors TermNotFound or TermRepeated |
| Lexicon.SlotObjectsOrder | terms/lexicon.py:59-63 | one slot row per dict entry, in dict order, naming the entry's label and type |
| Lexicon.SlotObjectsOk | terms/lexicon.py:59-63 | with unique names, building the slots succeeds exactly when every slot type is stored |
| Lexicon.ScanBases | terms/lexicon.py:89-96 | the base scan collects one row name per base, or fails with a lookup error |
| Lexicon.ScanBasesObjects | terms/lexicon.py:90-94 | the inherited slots are the stored slots of the bases that have `objs`, in base order |
| Lexicon.ScanBasesKeys | terms/lexicon.py:95 | the merged dict keeps every keyword label and gains every label each base declares |
| Lexicon.WordRow | terms/lexicon.py:59-65 | the row `add_word` stores carries the new name |
| Lexicon.RegisterWord | terms/lexicon.py:69-76 | `add_word`'s tail never touches the store, and changes `terms` only by registering the new name |
| Lexicon.SubwordRow | terms/lexicon.py:86-100 | the row `add_subword` stores carries the new name |
| Lexicon.RegisterSubword | terms/lexicon.py:104-112 | `add_subword`'s tail never touches the store, and changes `terms` only by registering the new name |
| Lexicon.SubwordRowSlots | terms/lexicon.py:89-99 | the stored slot list is the bases' slots in base order, then one slot per label of the merged dict |
| Lexicon.SubwordRowLabels | terms/lexicon.py:95-99 | the merged dict holds every keyword label and every label a base declares |
| Lexicon.SubwordRepeatsInherited | terms/lexicon.py:93-99 | with one base whose stored row lists its first declared label, the new row lists that label once among the copied base slots and once more after them |
| Lexicon.AddWordKeepsInv | terms/lexicon.py:51-76 | `add_word` keeps the invariant. A stored name raises TermRepeated and changes nothing. Any error leaves the registry unchanged. A change stores exactly one new row |
| Lexicon.AddSubwordKeepsInv | terms/lexicon.py:78-112 | `add_subword` keeps the invariant. A stored name raises TermRepeated and changes nothing. A change stores exactly its row |
| Lexicon.AddSubwordOne | terms/lexicon.py:87-88 | a single word behaves as the one-element tuple |
| Lexicon.AddSubwordEmpty | terms/lexicon.py:100-104 | an empty base tuple stores the row, then raises IndexError |
| Lexicon.AddWordBoot | terms/lexicon.py:69-70 | for a name registered but not stored, `add_word` stores its row and returns the pre-registered entry |
| Lexicon.GetWordAfterRegister | terms/lexicon.py:114-116 | what a `_make_*` registered is returned by `get_word` without a storage lookup |
| Lexicon.GetWordKeepsInv | terms/lexicon.py:114-119 | `get_word` keeps the invariant, returns a registered entry unchanged, and registers what it builds |
| Lexicon.AddWordThenGetWord | terms/lexicon.py:69-76 | a word `add_word` returns is what `get_word` then returns |
| Lexicon.Lexicon.constructor | terms/lexicon.py:34-49 | the registry holds exactly the five root words, stored as `word`, then `noun` and `verb` typed `word`, `thing` typed `noun`, and `exists` typed `verb` |
| Lexicon.Lexicon.BootAdd | terms/lexicon.py:45-48 | each bootstrap `add_word` appends exactly its row and keeps the registered words |
| Lexicon.Lexicon.CollectSlots | terms/lexicon.py:59-63 | the slot loop computes `SlotObjects` |
| Lexicon.Lexicon.CollectBases | terms/lexicon.py:89-96 | the base loop computes `ScanBases` |
| Lexicon.Lexicon.AddWord | terms/lexicon.py:51-76 | result and new state are `AddWordOn` of the old state; the invariant is kept |
| Lexicon.Lexicon.AddSubword | terms/lexicon.py:78-103 | result and new state are `AddSubwordOn` of the old state; the booted invariant is kept |
| Lexicon.Lexicon.RegisterSub | terms/lexicon.py:104-112 | result and new state are `RegisterSubword` of the old state |
| Lexicon.Lexicon.GetWord | terms/lexicon.py:114-119 | result and new state are `GetWordOn` of the old state; the booted invariant is kept |
| Lexicon.Lexicon.MakeNoun | terms/lexicon.py:143-152 | builds the noun class with the default bases and metaclass, and registers it under its name |
| Lexicon.Lexicon.MakeName | terms/lexicon.py:154-164 | picks the noun by `NounFor`, instantiates it, and registers the result on success only |
| Lexicon.Lexicon.MakeVerb | terms/lexicon.py:166-182 | builds the verb class with the default bases, metaclass and `objs`, and registers it |
| Lexicon.Lexicon.MakeSubverb | terms/lexicon.py:184-189 | builds the verb kind from its bases, default `(verb,)`, and registers it |
| Lexicon.Lexicon.MakeSubnoun | terms/lexicon.py:191-195 | builds the noun kind from its bases, default `(noun,)`, and registers it |
| Facts.SortedSlots | terms/factset.py:77 | the sorted slot list holds only slots of the predicate |
| Facts.SlotPathsCases | terms/factset.py:79-85 | each slot gives its label path, then a nested predicate's paths, a term's value path, or nothing else |
| Facts.PredPathsShape | terms/factset.py:72-85 | every emitted path extends its prefix and ends in one of the four tags |
| Facts.GetPathsShape | terms/factset.py:62-85 | a fact's paths start with `('_verb',)` and `('_neg',)`, and every path is testable |
| Facts.GetPathsOrderIndependent | terms/factset.py:77 | the path list does not depend on the order of the slots |
| Facts.CategoryOf | terms/factset.py:89-94 | a node class exists exactly for the four tags and `_root`, and `_root` alone gives the root class |
| Facts.GetPathsDistinct | terms/factset.py:72-85 | a well-formed fact's paths have no repeats |
| Facts.GetObject | terms/factset.py:310 | `get_object(label)` finds a filler only in a predicate, under that label; with distinct labels it finds exactly the filler stored there |
| Facts.Walk | terms/factset.py:308-313 | the empty path gives the object itself; a non-empty one gets past its first label only through a predicate holding that label |
| Facts.Resolve | terms/factset.py:273-404 | the four `resolve` methods: `_label` gives `path[-2]`; `_neg` gives the navigated predicate's `true` flag; `_term` gives the navigated term or object; `_verb` gives a variable itself and any other term its type; a failed navigation gives None |
| Facts.FactPathsResolve | terms/factset.py:110-112 | every path of a well-formed fact resolves to a value, so `add_fact` never stores a failed navigation |
| Network.ChildPath | terms/factset.py:182-190 | a cached path is returned; the path reads as `()` exactly when `()` is cached or nothing was ever stored |
| Network.SetChildPath | terms/factset.py:192-194 | setting the path changes no category, value, child or terminal |
| Network.ChildPathRoundTrip | terms/factset.py:182-196 | a set path reads back, also after a reload when non-empty and free of `.`; an unset path reads as `()` |
| Network.EmptyChildPathReloads | terms/factset.py:186-194 | an empty path set and reloaded reads back as `('',)` |
| Network.FindChild | terms/factset.py:114 | the child found has the category and value; no child has them when none is found |
| Network.GetOrCreate | terms/factset.py:109-127 | the table only grows, and the node returned exists |
| Network.GetOrCreateSpec | terms/factset.py:109-121 | an existing child is reused with no change. Otherwise exactly one new child is appended, with the resolved value, and `child_path` is set only if it was empty |
| Network.GetOrCreateValid | terms/factset.py:109-121 | node creation keeps the table invariant: children come after their parents, no two siblings share a key, a node with children records a path, and labels are carried |
| Network.WalkPaths | terms/factset.py:99-101 | the walk keeps children after their parents and only grows the table |
| Network.WalkFrame | terms/factset.py:99-101 | a walk never changes rows before its start, nor any row's category or value |
| Network.WalkValid | terms/factset.py:99-101 | the walk keeps the table invariant |
| Network.AddFactOn | terms/factset.py:96-105 | adding a fact only grows the table and keeps children after parents |
| Network.AddFactIdempotent | terms/factset.py:96-105 | adding the same fact twice gives the table of adding it once |
| Network.AddFactKeepsTerminals | terms/factset.py:102-105 | existing terminals are kept, and the node reached carries a terminal afterwards |
| Network.AddFactValid | terms/factset.py:96-105 | `add_fact` keeps the table invariant |
| Network.RemoveFirst | terms/factset.py:203 | `list.remove` drops exactly one occurrence when present, and changes nothing otherwise |
| Network.Consume | terms/factset.py:202-203 | consuming a path removes one occurrence and keeps query, bindings and fact |
| Network.Filter | terms/factset.py:320 | a child is kept exactly when it passes the filter |
| Network.TermCandidates | terms/factset.py:322-326 | an unbound term variable ranges over the subterms of its first base, or else over its type and that type's subterms |
| Network.VerbCandidates | terms/factset.py:379-383 | an unbound verb variable ranges over the subterms of its first base; an unbound predicate variable over the subterms of its type; anything else over nothing |
| Network.Selected | terms/factset.py:208-211 | `get_children`, per node class: a child is selected exactly when it has the class and the value, or, for a variable, the bound value or a candidate type; a label node selects all its children |
| Network.Sweep | terms/factset.py:214-224 | the child loop keeps the path's tag and the match's query, bindings and fact, and only appends matches |
| Network.Visit | terms/factset.py:215-224 | one iteration keeps the same, re-targeting the path at a label child |
| Network.SweepShrinks | terms/factset.py:202-218 | the loop only removes pending paths, and a label re-target keeps `path[:-2]` |
| Network.DispatchNoChild | terms/factset.py:200-228 | at a node without a terminal whose term test selects no child, `dispatch` records nothing |
| Network.DispatchChain | terms/factset.py:198-228 | along a chain of single children, `dispatch` records exactly the match at the chain's end |
| Network.StoredFactFound | terms/factset.py:96-228 | a ground fact added to an empty network is found by its own query: the only match has consumed every path, bound nothing and carries the fact |
| Network.WalkRoute | terms/factset.py:96-121 | when the network admits the fact's shape, the walk builds a route the fact's query follows, ending where the walk ends |
| Network.AddFactRoute | terms/factset.py:96-105 | after `add_fact` of an admitted fact the route reaches the node the walk reached |
| Network.AddFactTerminal | terms/factset.py:102-105 | the node reached keeps its terminal if it had one and otherwise holds the fact |
| Network.RouteFound | terms/factset.py:198-228 | `dispatch` along a route records the match carrying the terminal at the route's end |
| Network.StoredFactFoundOn | terms/factset.py:96-228 | on any valid network that admits its shape, a ground fact added is found by its own query, carrying the fact or the terminal already at that node |
| Network.AddFactKeepsFindable | terms/factset.py:96-105 | adding any fact keeps every findable fact findable, at the same terminal |
| Network.FindableFound | terms/factset.py:198-228 | a findable ground fact is found by its own query with nothing bound and a stored fact |
| Network.AddChecked | terms/factset.py:96-105 | the checked `add_fact` refuses exactly the facts whose shape the network does not admit, and keeps the table valid |
| Network.AddAllChecked | terms/factset.py:96-105 | adding facts in turn with the check keeps the table valid and accepts only given facts |
| Network.AddAllKeepsFindable | terms/factset.py:96-105 | checked adds keep every findable fact findable |
| Network.AcceptedFactsFound | terms/factset.py:96-228 | with checked adds, every accepted fact is findable in the final network |
| Network.ClashWalkPrefix | terms/factset.py:96-121 | `f`'s walk over `g`'s chain follows the shared links, and the shape check refuses `f` at the fourth node |
| Network.ClashNewRows | terms/factset.py:109-121 | adding `f` keeps the fourth node testing `g`'s path and appends `f`'s verb child there; `f` becomes a terminal |
| Network.ClashOldTable | terms/factset.py:96-105 | the network holding only `g` is `g`'s chain, ending in `g` |
| Network.ClashAfter | terms/factset.py:198-228 | on that table the query for `f` records nothing |
| Network.ClashHidden | terms/factset.py:96-228 | as written: after `g`'s chain, `f` is stored as a terminal but its own query records nothing, and the checked add refuses `f` |
| Network.ShapeClash | terms/factset.py:72-85 | `likes(s=alice)` and `likes(s=loves())` are such a pair |
| Network.DispatchAnswers | terms/factset.py:220-228 | every recorded match carries a stored fact, has no remaining path, answers the same query, and keeps every binding it started with |
| Network.SweepAnswers | terms/factset.py:214-224 | the matches found by the child loop are answers |
| Network.VisitAnswers | terms/factset.py:215-224 | the matches found below one child are answers |
| Network.Submatches | terms/factset.py:139-146 | one submatch list per pattern |
| Network.SubmatchesAnswer | terms/factset.py:139-146 | every submatch of a pattern answers that pattern |
| FactSets.FactSet.constructor | terms/factset.py:56-58 | a fresh fact set is a valid table holding only the root |
| FactSets.FactSet.GetPaths | terms/factset.py:62-70 | computes `Facts.GetPaths` |
| FactSets.FactSet.RecursePaths | terms/factset.py:72-87 | appends exactly `PredPaths` of the predicate under the prefix |
| FactSets.FactSet.GetOrCreateNode | terms/factset.py:109-127 | the new table and node are `GetOrCreate`; the invariant is kept |
| FactSets.FactSet.AddFact | terms/factset.py:96-107 | the new table is `AddFactOn`; the invariant is kept |
| FactSets.FactSet.AddFactChecked | terms/factset.py:96-107 | accepts exactly a fact whose shape the network admits, then adds it as `add_fact` does and it is findable; a refused fact changes nothing |
| FactSets.FactSet.Dispatch | terms/factset.py:198-228 | appends `DispatchOn`, and every match appended is an answer to the starting match |
| FactSets.FactSet.SweepChildren | terms/factset.py:214-224 | the loop leaves `path`, the match and the found matches as `Sweep` does |
| FactSets.FactSet.VisitChild | terms/factset.py:215-224 | one iteration does what `Visit` does |
| Text.SplitJoin | terms/factset.py:187-193 | `'.'.join` then `split('.')` gives the parts back when no part contains `.` |
| Text.SortBySorted | terms/words.py:86 | `sorted` by key returns its input in key order |
| Text.SortByStable | terms/words.py:86 | `sorted` is stable: for every key, the elements with that key come out in their input order |
| Text.InsertKeyRun | terms/words.py:86 | inserting an element puts it ahead of the others with its key and leaves the other keys' elements in order |
| Text.SortByOrderIndependent | terms/factset.py:77 | with distinct keys, sorting does not depend on the input order |
| FactSets.FactSet.Query | terms/factset.py:130-147 | the result is `QueryOn`, and it is empty when there is no pattern or the root records no path |

## Left out

- SQLAlchemy mapping, sessions, `commit`, and the polymorphic mapper. `_get_nclass` is the total function `Facts.CategoryOf`, and stored rows are sequences.
- Concurrency and transactions: the store is a single in-memory sequence.
- `FactSet.facts_from_node` / `_recurse_facts_from_node`: they read `terminal` and `children` from the fact set instead of the node, so they have no coherent behaviour to model.
- `Lexicon._load_terms`: it reads `term.types` from terms/terms.py, which is not part of this model.
- terms/terms.py, terms/patterns.py and terms/utils.py are not part of this model. `isa` and `patterns.varpat` are fields of `Facts.Env`, and `merge_submatches` is the `merge` parameter of `Query`. `Term`, `Predicate` and `Match` keep only the fields the network reads.
- `get_object` (terms/terms.py) is modelled as slot lookup. A missing label or a non-predicate gives Python's None uniformly, whether the source raised KeyError or AttributeError.
- Python class creation is approximated:
  - `NewClass` unions the bases' ancestor names instead of computing the C3 method resolution order;
  - the metaclass is the union of the given one and the bases';
  - metaclass conflicts are not modelled.
- Words.GetAttrAsWritten / Words.GetAttrFallback: normal lookup reads only the predicate's own namespace. Names found on its metaclass chain (`objs`, `mro`, the `MetaAttrs` constant) are not modelled as results, and `GetAttrFallback` excludes them, because for such a name Python returns the metaclass attribute and never reaches the fallback.
- Words.MakePred: modelled for verbs under `exists` only; calling another kind of verb with three arguments is left out.
- Lexicon.SubwordRow: a subword row has no `term_type`. The bootstrap `word` row has none either, because the `_bootstrap` constructor of `Term` lives in terms/terms.py.
- Lexicon.Instantiate: `word(name)` yields Python's `str` for the root word; any other instance call outside `thing` is a TypeError.
- Network.Selected: the SQL filter without a join, on a bound term variable, is modelled as a value filter on all children.
- Network.Selected: `VerbFNode.get_children` on an unbound variable that is neither verb nor exists raises UnboundLocalError in the source. The model selects no child.
- Network.Selected: `TermFNode.get_children` reads `value.name` (terms/factset.py:319) on whatever `resolve` gave. When that is a predicate, whether the read succeeds depends on terms/terms.py, which is not part of this model. The model treats a predicate as a value that is no variable and selects no child for it.
- Network.Selected: `sbases` is a generator and is always truthy, so `return ()` is never reached. The model has no such branch.
- Network.FindChild: `.one()` raising MultipleResultsFound is excluded by the invariant `NoTwins`.
- Facts.Resolve: a predicate filler's `var` flag is taken as false, and an `Other` filler at a verb path resolves to None.
- Facts.Resolve: a slot filled by an exists-subclass term (not an instance) is treated as a term filler.
- Network.ChildPath: the caching write in `_get_path` after a reload is not modelled; the read value is.
- Network.Visit: `match.copy()` is a value copy; the in-place `remove` on the shared match is modelled by threading the match through the loop.
- Network.VerbCandidates: an unbound verb variable without bases ranges over nothing; the source raises IndexError on `get_bases(value)[0]` (terms/factset.py:380).
- Network.TermCandidates: an unbound term variable with neither bases nor a type ranges over nothing; the source calls `get_subterms(None)` (terms/factset.py:325).
- Network.TermCandidates, Network.VerbCandidates, Network.Selected: `Lexicon` (terms/lexicon.py:32-196) defines no `get_subterms` and no `__getattr__`, so as written the calls at terms/factset.py:323, 325, 380 and 382 raise AttributeError on every query with an unbound variable. The model takes `get_subterms` as the abstract field `Facts.Env.subterms` instead, and states the selection the code evidently means.
- Network.StoredFactFoundOn: proved only for networks that admit the fact's shape (`Agrees`); `Network.ClashHidden` shows this condition cannot be dropped.
- Network.StoredFactFound, Network.StoredFactFoundOn, Network.FindableFound: proved only for ground facts, whose paths resolve to no variable. A query holding a variable also binds it, and that case is not stated.
- Network.DispatchOn: it has no contract of its own; `DispatchUnfold`, `DispatchAnswers` and the lemmas above state what it records.

## Findings

| source | as written | input that shows it | evidently intended | confidence | as-written member | corrected member |
|---|---|---|---|---|---|---|
| terms/words.py:66-69 | the `__getattr__` fallback calls `super(exists, self).__getattr__`, which neither `type` nor `object` defines, so it always raises AttributeError | a predicate built with the argument `_x`, then reading `x` | the fallback returns the attribute stored under the `_`-prefixed label | not executed | Words.GetAttrAsWrittenFails | Words.GetAttrFallback |
| terms/factset.py:119-121 | `get_or_create_node` sets `child_path` only on a node that has none, so a node keeps testing the path of the first fact walked through it, and a later fact of another shape is attached where `dispatch` for it never arrives | `likes(s=alice)`, then `likes(s=loves())`: the second is stored as a terminal, yet the query for it returns no match, or raises at terms/factset.py:319 | a fact whose shape the network does not admit is refused, and every stored fact is found by its own query | not executed | Network.ClashHidden | Network.AcceptedFactsFound |
