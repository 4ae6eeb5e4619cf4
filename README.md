# ophyd-registry: the component registry, in Dafny

This project models the `Registry` of ophyd-registry. The registry remembers
ophyd devices and signals ("components") so that code can look them up later:

- by name;
- by label;
- by either of them (`any_of`);
- by a dotted path into a component (`"eiger.cam.gain"`);
- by a collection of such queries.

The model covers:

- registration, which recurses into each component's sub-signals and skips any
  component whose name is already taken;
- `clear` and the two name views;
- `find` and `findall`, with their two sub-resolvers for labels and names;
- the `remove_duplicates` and `is_iterable` helpers.

Modules:

- `Types`: component, query, error and result values.
- `Dedup`: `remove_duplicates`, as a method with a loop proved against the
  function `Unique`.
- `Paths`: dotted-name splitting, attribute traversal and the name
  arithmetic of the "user_readback" special case.
- `Lookup`: `find`, `findall`, `_findall_by_label` and `_findall_by_name`.
  They are mutually recursive functions over the registered list.
- `LookupFacts`: what lookups promise, stated over any registered list.
- `Registration`: the `Registry` class, with the registration function it
  is proved against and the invariant that registration keeps. The invariant
  has two parts: registered names are distinct, and every registered
  component's signals are registered by name.

A component is a value that carries an `id`, so two otherwise equal objects
remain distinct. Python's `is` becomes equality of these values. Lookups run
eagerly. Results are chained in the source's order: label results first, then
name results, then collection elements in order. The first failure wins. The
source builds the same chain from generators and consumes all of it, so it
raises the same first error.

The model follows the code as written:

- `find` returns whatever `findall` returns when that is a single component
  (registry.py:110-124). It does no filtering of sub-components against their
  parents.
- An attribute error during a dotted lookup is raised rather than skipped,
  because the `getattr` chains (registry.py:146-147 and 179-180) are not
  guarded.
- The readback test is "the last 13 characters are `user_readback`". The
  parent name is then the string with its last 14 characters dropped and `_`
  stripped from both ends (registry.py:159-163). A name shorter than 14
  characters gives the empty parent name.

In two places the code and the project's own text disagree, and the model
follows the code:

- Registration skips every component with a taken name, together with its
  signals (registry.py:295-299). The test `test_duplicate_device`
  (tests/test_instrument_registry.py:382-393) expects a second device with
  the same name to be found as well.
- A collection passed as `name` is resolved element by element with
  `allow_none` false, whatever the caller passed (registry.py:167). The
  `allow_none` documentation (registry.py:216-219) promises an empty list
  instead. A collection passed as `label` or `any_of` forwards `allow_none`.

## Model

| member | source | states |
|---|---|---|
| Types.IsIterable | src/ophydregistry/registry.py:20-21 | the definition of `is_iterable` on queries: true for every collection query, the empty one included, and false for a string, a component or an absent argument |
| Types.Names | src/ophydregistry/registry.py:51-53 | the names of the listed components, one per component, in list order |
| Dedup.Unique | src/ophydregistry/registry.py:24-30 | the output holds exactly the input's elements, without repeats |
| Dedup.UniqueFirstOccurrenceOrder | src/ophydregistry/registry.py:24-30 | the output lists elements in the order of their first occurrence in the input |
| Dedup.UniqueOfDistinct | src/ophydregistry/registry.py:24-30 | an input without repeats comes out unchanged |
| Dedup.RemoveDuplicates | src/ophydregistry/registry.py:24-30 | the loop that keeps each item not yet seen computes `Unique` of its input |
| Dedup.FirstIndex | src/ophydregistry/registry.py:28 | the first position holding an element, with no copy before it |
| Paths.Split | src/ophydregistry/registry.py:138 | `split(".")` gives at least one piece and no piece contains a dot; a string without dots is its own single piece |
| Paths.JoinSplit | src/ophydregistry/registry.py:138 | rejoining the pieces with dots gives back the query string |
| Paths.SplitJoin | src/ophydregistry/registry.py:171 | splitting dot-free pieces joined by dots gives back the pieces |
| Paths.Traverse | src/ophydregistry/registry.py:145-147 | an empty path returns the component; a missing attribute is an attribute error, the only error traversal raises |
| Paths.TrimLeft | src/ophydregistry/registry.py:163 | the result is a suffix of the input; only underscores were removed and none remains in front |
| Paths.TrimRight | src/ophydregistry/registry.py:163 | the result is a prefix of the input; only underscores were removed and none remains at the end |
| Paths.ReadbackParent | src/ophydregistry/registry.py:159-163 | the parent name of a readback name is shorter than the name |
| Paths.ReadbackTest | src/ophydregistry/registry.py:157-163 | the readback test (modelled by `Paths.EndsWithReadback`) accepts exactly the names ending in "user_readback", so none shorter than 13 characters; the bare suffix has the empty parent name |
| Paths.ReadbackParentOf | src/ophydregistry/registry.py:157-163 | "p_user_readback" and "p.user_readback" pass the readback test, and their parent name is `p` |
| Lookup.Concat | src/ophydregistry/registry.py:249 | chained results fail exactly when a part fails; the first failure wins, whichever part it comes from; otherwise the results are concatenated in order |
| Lookup.Selected | src/ophydregistry/registry.py:142-143 | exactly the registered components the selector picks |
| Lookup.TraverseAll | src/ophydregistry/registry.py:175-181 | one traversed result per component, in order; an attribute error only when some component lacks a path attribute |
| Lookup.Scan | src/ophydregistry/registry.py:170-181 | one traversed result per picked component, in order; an attribute error only when some picked component lacks a path attribute |
| Lookup.FindByLabel | src/ophydregistry/registry.py:126-150 | a component comes back as itself; a plain label yields exactly the registered components carrying it, in list order; a dotted label yields one result per carrier of its first piece and can fail only on a missing attribute (see also `LookupFacts.LabelLookup`, `LookupFacts.DottedLookup`, `LookupFacts.ObjectQuery`) |
| Lookup.FindByName | src/ophydregistry/registry.py:152-181 | a component comes back as itself; a plain name yields exactly the registered components with that name; a name without the readback suffix can fail only on a missing attribute; a readback name yields exactly one component; a nonempty name collection never succeeds empty (see also `LookupFacts.NameLookup`, `LookupFacts.ReadbackLookup`, `LookupFacts.NameListIgnoresAllowNone`) |
| Lookup.Gather | src/ophydregistry/registry.py:235-249 | no keyword at all gathers nothing; a non-collection `any_of` alone is searched as a label and then as a name, the first failure winning (see also `LookupFacts.AnyOfFillsIn`) |
| Lookup.Each | src/ophydregistry/registry.py:132-134 | a collection's element results (for `label`, and likewise for `name` and `any_of`) are chained in order: the empty collection gives nothing, the chain fails exactly when some element fails, and it starts with the first element's results (see also `LookupFacts.CollectionConcat`, `LookupFacts.SingletonCollection`) |
| Lookup.Element | src/ophydregistry/registry.py:238-240 | the `findall` call on one element of a collection gives results without repeats, empty only under `allow_none` |
| Lookup.Settle | src/ophydregistry/registry.py:248-263 | an empty result is not-found unless `allow_none`, which gives the empty list; a nonempty result is deduplicated, keeping its elements |
| Lookup.FindAll | src/ophydregistry/registry.py:183-263 | a successful result has no repeats, and is empty only under `allow_none` (`label` with `name` is the "or" of the two, see `LookupFacts.LabelOrName`) |
| Lookup.Find | src/ophydregistry/registry.py:110-124 | exactly one `findall` result is returned; more than one is the multiple-components error; none is `None` (only under `allow_none`); `findall`'s errors pass through |
| LookupFacts.LabelLookup | src/ophydregistry/registry.py:126-150 | `findall(label=l)` gives exactly the registered components carrying `l`; with none, `[]` under `allow_none` and not-found otherwise |
| LookupFacts.NameLookup | src/ophydregistry/registry.py:168-181 | `findall(name=n)` gives exactly the registered components named `n`, with the same empty handling |
| LookupFacts.FindByDistinctName | src/ophydregistry/registry.py:110-124 | with distinct names, `find(name=n)` returns the component named `n`; otherwise `None` or not-found |
| LookupFacts.SelectedDistinctName | src/ophydregistry/registry.py:175-176 | with distinct names, the scan by a registered name picks that one component |
| LookupFacts.FindAllByLabel | src/ophydregistry/registry.py:243-244 | `findall(label=q)` settles what the label resolver finds |
| LookupFacts.FindAllByName | src/ophydregistry/registry.py:246-247 | `findall(name=q)` settles what the name resolver finds |
| LookupFacts.SettledPicked | src/ophydregistry/registry.py:248-263 | a nonempty selection settles to exactly the picked components |
| LookupFacts.SettledSelection | src/ophydregistry/registry.py:248-263 | settling a plain-key selection gives exactly the picked components, or the empty-result handling when none is picked |
| LookupFacts.DottedLookup | src/ophydregistry/registry.py:136-148 | a dotted label or name query applies the attribute path to every component its first piece picks, in list order |
| LookupFacts.DottedNameFind | src/ophydregistry/registry.py:169-181 | with distinct names, `findall(name="p.a.b")` is the component `p` with `.a.b` applied, or that traversal's attribute error |
| LookupFacts.AmbiguousLabel | src/ophydregistry/registry.py:113-121 | two different components carrying a label make `find(label=l)` raise the multiple-components error |
| LookupFacts.ObjectQuery | src/ophydregistry/registry.py:128-130 | a component given as query comes back as itself under every keyword |
| LookupFacts.LabelOrName | src/ophydregistry/registry.py:193-196 | `label` and `name` together find every component either resolver finds and nothing else; the lookup fails exactly when either resolver fails or, without `allow_none`, both find nothing |
| LookupFacts.AnyOfFillsIn | src/ophydregistry/registry.py:235-247 | `any_of` stands in for whichever of `label` and `name` is absent; a collection `any_of` overrides both |
| LookupFacts.CollectionConcat | src/ophydregistry/registry.py:238-240 | a collection query resolves its elements one after the other and chains their results |
| LookupFacts.SingletonCollection | src/ophydregistry/registry.py:238-240 | a one-element collection query finds what its element finds |
| LookupFacts.ReadbackOfParent | src/ophydregistry/registry.py:157-164 | for any name ending in "user_readback" whose parent name `find` resolves to `p`, `findall` gives `p`'s `user_readback` attribute, or an attribute error if `p` has none |
| LookupFacts.ReadbackLookup | src/ophydregistry/registry.py:157-164 | "p_user_readback" finds the `user_readback` attribute of the component named `p`, or raises an attribute error if `p` has none |
| LookupFacts.NameListIgnoresAllowNone | src/ophydregistry/registry.py:165-167 | a missing name inside a name collection is not-found even under `allow_none`; the same label collection gives `[]` |
| Registration.Registered | src/ophydregistry/registry.py:295-305 | registration only appends: the old list is a prefix of the new one |
| Registration.RegisteredUpTo | src/ophydregistry/registry.py:303-305 | registering the first `n` signals only appends |
| Registration.Roots | src/ophydregistry/registry.py:57 | exactly the listed components without a parent |
| Registration.RootsAppend | src/ophydregistry/registry.py:57 | taking parentless components distributes over concatenation, so list order is kept |
| Registration.RegisteredRoots | src/ophydregistry/registry.py:55-57 | registration keeps the existing device names in place and appends new ones |
| Registration.RegisteredFromTree | src/ophydregistry/registry.py:295-305 | everything registration appends is the component itself or lies in its tree of signals |
| Registration.RegisteredUpToFromTree | src/ophydregistry/registry.py:303-305 | everything appended while registering signals lies in the component's tree of signals |
| Registration.NamesGrow | src/ophydregistry/registry.py:295 | a registered name stays registered as the list grows |
| Registration.RegisteredHasName | src/ophydregistry/registry.py:295-301 | after `register(c)` the name of `c` is registered; when it was free, `c` sits right after the old list |
| Registration.RegisteredUpToHasSignals | src/ophydregistry/registry.py:303-305 | after registering the first `n` signals, their names are all registered |
| Registration.RegisteredDistinct | src/ophydregistry/registry.py:294-301 | registration keeps registered names pairwise distinct |
| Registration.RegisteredUpToDistinct | src/ophydregistry/registry.py:303-305 | registering signals keeps registered names pairwise distinct |
| Registration.RegisteredClosedFrom | src/ophydregistry/registry.py:301-305 | every component registration appends has its signals' names registered |
| Registration.RegisteredUpToClosedFrom | src/ophydregistry/registry.py:303-305 | the same for the components appended while registering signals |
| Registration.RegisteredConsistent | src/ophydregistry/registry.py:273-306 | registration preserves the registry invariant: distinct names, and signals registered |
| Registration.RegisterIdempotent | src/ophydregistry/registry.py:295-299 | registering a component a second time changes nothing |
| Registration.RegisterThenFind | src/ophydregistry/registry.py:273-306 | a component registered under a fresh plain name is what `find(name=...)` returns |
| Registration.DuplicateKeepsIncumbent | src/ophydregistry/registry.py:295-299 | a component with a taken name is ignored, and `find` still returns the first holder of the name |
| Registration.Registry.constructor | src/ophydregistry/registry.py:44-45 | a new registry is empty and satisfies the invariant |
| Registration.Registry.Clear | src/ophydregistry/registry.py:47-49 | clearing empties the list and restores the invariant |
| Registration.Registry.ComponentNames | src/ophydregistry/registry.py:51-53 | one name per registered component, in order; no repeats while the invariant holds |
| Registration.Registry.DeviceNames | src/ophydregistry/registry.py:55-57 | a name is listed exactly when a registered component without a parent carries it |
| Registration.Registry.Register | src/ophydregistry/registry.py:273-306 | returns its argument; the new list is `Registered` of the old one; a taken name leaves the list unchanged; otherwise the old list followed by the component is a prefix of the new one; the invariant is kept |

## Left out

- Registering a class (registry.py:287-289) and `__new__wrapper` (registry.py:265-271) are not modelled. Both patch Python's object construction so that future instances get registered, and values cannot express that.
- Logging and exception messages are not modelled. The errors are modelled by kind only.
- `InvalidComponentLabel` (registry.py:149-150) is not modelled. It is raised only for a label that is unhashable and neither a string nor iterable, and a `Query` cannot be such a value.
- The `isinstance(..., OphydObject)` test becomes the `Obj` query form.
- Arbitrary `getattr` becomes the component's `attrs` map. A dotted path can only reach components, not plain Python attributes.
- `is_iterable` is modelled as `Types.IsIterable`. Only collection queries are iterable; the model does not consider components that define `__iter__`.
- Lookups are modelled as eager. Side effects of partially consuming the generators are not modelled, because `findall` always consumes them fully.
- Some features the repository's tests use are not part of the modelled `registry.py`: `pop`, `pop_disconnected`, item access and deletion, `root_devices`, weak references and a label index. They are not modelled.
- `src/ophydregistry/_typing.py` is a typing protocol only. It is not part of this model.
- Registration.Registered: the function's own contract says only that registration appends. What it appends is stated by lemmas beside it: `RegisteredHasName` (the component comes first when its name is free), `RegisteredFromTree` (nothing outside its tree), `RegisteredDistinct` and `RegisteredClosedFrom`.
- Registration.RegisteredUpTo: the function's own contract says only that registering signals appends. What it appends is stated by `RegisteredUpToHasSignals`, `RegisteredUpToFromTree`, `RegisteredUpToDistinct` and `RegisteredUpToClosedFrom`.
- Dedup.RemoveDuplicates: the `key` parameter of `remove_duplicates` (registry.py:24, 27) is not modelled. The registry never passes it, so items are always compared by themselves.
