/** `find`, `findall` and the label and name sub-resolvers of the registry,
    as functions of the registered component list `cs` (they only read it). */
module Lookup {
  import opened Types
  import opened Dedup
  import opened Paths

  /** How big a query is: every character and every collection counts, so
      that an element of a collection and the parent name of a readback name
      are both smaller than the query they come from. */
  function QSize(q: Query): (n: nat)
    ensures n >= 1
  {
    match q
    case Str(s) => |s| + 1
    case Obj(_) => 1
    case Many(qs) => 1 + ListSize(qs)
  }

  function ListSize(qs: seq<Query>): (n: nat)
    ensures forall i :: 0 <= i < |qs| ==> QSize(qs[i]) <= n
  {
    if qs == [] then 0
    else
      assert forall i :: 1 <= i < |qs| ==> qs[1..][i - 1] == qs[i];
      QSize(qs[0]) + ListSize(qs[1..])
  }

  function OptSize(q: Option<Query>): nat
  {
    if q.Some? then QSize(q.value) else 0
  }

  /** The keyword under which `findall` passes each element of a collection
      query back to itself. */
  datatype Keyword = AnyOfKw | LabelKw | NameKw

  /** What a plain (dot-free) key is compared with: a component's labels or
      its name. */
  datatype Selector = ByLabel | ByName

  predicate Selects(sel: Selector, c: Component, key: string)
  {
    match sel
    case ByLabel => key in c.labels
    case ByName => c.name == key
  }

  /** Chaining two result streams: the first failure wins, otherwise the
      results are concatenated in order. */
  function Concat(a: Result<seq<Component>>, b: Result<seq<Component>>): (r: Result<seq<Component>>)
    ensures r.Err? <==> a.Err? || b.Err?
    ensures a.Err? ==> r == a
    ensures a.Ok? && b.Err? ==> r == b
    ensures r.Ok? ==> r.value == a.value + b.value
  {
    if a.Err? then a else if b.Err? then b else Ok(a.value + b.value)
  }

  /** The registered components the selector picks for `key`, in list order. */
  function Selected(cs: seq<Component>, sel: Selector, key: string): (r: seq<Component>)
    ensures |r| <= |cs|
    ensures forall i :: 0 <= i < |r| ==> r[i] in cs && Selects(sel, r[i], key)
    ensures forall i :: 0 <= i < |cs| && Selects(sel, cs[i], key) ==> cs[i] in r
    ensures forall c :: c in r <==> c in cs && Selects(sel, c, key)
  {
    if cs == [] then []
    else (if Selects(sel, cs[0], key) then [cs[0]] else []) + Selected(cs[1..], sel, key)
  }

  /** The attribute path applied to each component in turn; the first
      component that lacks an attribute raises. */
  function TraverseAll(xs: seq<Component>, path: seq<string>): (r: Result<seq<Component>>)
    ensures path == [] ==> r == Ok(xs)
    ensures r.Ok? ==> |r.value| == |xs|
    ensures r.Ok? ==> forall j :: 0 <= j < |xs| ==> Traverse(xs[j], path) == Ok(r.value[j])
    ensures r.Err? ==> r.error == MissingAttribute
    ensures r.Err? ==> exists j :: 0 <= j < |xs| && Traverse(xs[j], path).Err?
  {
    if xs == [] then Ok([])
    else
      match Traverse(xs[0], path)
      case Err(e) => Err(e)
      case Ok(x) =>
        var rest := TraverseAll(xs[1..], path);
        if rest.Err? then
          assert forall k :: 0 <= k < |xs| - 1 ==> xs[1..][k] == xs[k + 1];
          rest
        else
          assert [xs[0]] + xs[1..] == xs;
          Ok([x] + rest.value)
  }

  /** One pass over the registered components: for every component the
      selector picks, the dotted attribute path applied to it. A missing
      attribute is raised, not skipped. */
  function Scan(cs: seq<Component>, sel: Selector, key: string, path: seq<string>): (r: Result<seq<Component>>)
    ensures path == [] ==> r == Ok(Selected(cs, sel, key))
    ensures r.Ok? ==> |r.value| == |Selected(cs, sel, key)|
    ensures r.Ok? ==> forall j :: 0 <= j < |r.value| ==>
      Traverse(Selected(cs, sel, key)[j], path) == Ok(r.value[j])
    ensures r.Err? ==> r.error == MissingAttribute
    ensures r.Err? ==>
      exists j :: 0 <= j < |Selected(cs, sel, key)| && Traverse(Selected(cs, sel, key)[j], path).Err?
  {
    TraverseAll(Selected(cs, sel, key), path)
  }

  /** The last step of `findall`: an empty result is an error unless
      `allowNone`; otherwise duplicates are removed, keeping first
      occurrences. */
  function Settle(found: Result<seq<Component>>, allowNone: bool): (r: Result<seq<Component>>)
    ensures found.Err? ==> r == found
    ensures found == Ok([]) ==> r == (if allowNone then Ok([]) else Err(ComponentNotFound))
    ensures found.Ok? && found.value != [] ==>
      r.Ok? && NoDuplicates(r.value) &&
      (forall c :: c in r.value <==> c in found.value)
  {
    match found
    case Err(e) => Err(e)
    case Ok(rs) => if rs == [] && !allowNone then Err(ComponentNotFound) else Ok(Unique(rs))
  }

  /** `findall`: everything found for the label query and for the name query
      (or, when `anyOf` is a collection, for each of its elements), settled. */
  function FindAll(cs: seq<Component>, anyOf: Option<Query>, lbl: Option<Query>,
                   name: Option<Query>, allowNone: bool): (r: Result<seq<Component>>)
    ensures r.Ok? ==> NoDuplicates(r.value)
    ensures r.Ok? && r.value == [] ==> allowNone
    decreases OptSize(anyOf) + OptSize(lbl) + OptSize(name), 2
  {
    Settle(Gather(cs, anyOf, lbl, name, allowNone), allowNone)
  }

  /** The chained results of `findall` before the empty check and the
      deduplication. `anyOf` stands in for whichever of `label` and `name`
      is absent; a collection `anyOf` replaces both. */
  function Gather(cs: seq<Component>, anyOf: Option<Query>, lbl: Option<Query>,
                  name: Option<Query>, allowNone: bool): (r: Result<seq<Component>>)
    ensures anyOf.None? && lbl.None? && name.None? ==> r == Ok([])
    ensures anyOf.Some? && !IsIterable(anyOf) && lbl.None? && name.None? ==>
      r == Concat(FindByLabel(cs, anyOf.value, allowNone), FindByName(cs, anyOf.value))
    decreases OptSize(anyOf) + OptSize(lbl) + OptSize(name), 1
  {
    if IsIterable(anyOf) then Each(cs, anyOf.value.qs, AnyOfKw, allowNone)
    else
      var effLabel := if lbl.Some? then lbl else anyOf;
      var effName := if name.Some? then name else anyOf;
      assert Concat(Ok([]), Ok([])) == Ok([]);
      Concat(if effLabel.Some? then FindByLabel(cs, effLabel.value, allowNone) else Ok([]),
             if effName.Some? then FindByName(cs, effName.value) else Ok([]))
  }

  /** `find`: `findall` narrowed to a single component. */
  function Find(cs: seq<Component>, anyOf: Option<Query>, lbl: Option<Query>,
                name: Option<Query>, allowNone: bool): (r: Result<Option<Component>>)
    ensures FindAll(cs, anyOf, lbl, name, allowNone).Err? ==>
      r == Err(FindAll(cs, anyOf, lbl, name, allowNone).error)
    ensures r.Ok? && r.value.Some? ==> FindAll(cs, anyOf, lbl, name, allowNone) == Ok([r.value.value])
    ensures FindAll(cs, anyOf, lbl, name, allowNone).Ok? && |FindAll(cs, anyOf, lbl, name, allowNone).value| == 1 ==>
      r == Ok(Some(FindAll(cs, anyOf, lbl, name, allowNone).value[0]))
    ensures FindAll(cs, anyOf, lbl, name, allowNone).Ok? && |FindAll(cs, anyOf, lbl, name, allowNone).value| > 1 ==>
      r == Err(MultipleComponentsFound)
    ensures r == Ok(None) <==> allowNone && FindAll(cs, anyOf, lbl, name, allowNone) == Ok([])
    decreases OptSize(anyOf) + OptSize(lbl) + OptSize(name), 3
  {
    match FindAll(cs, anyOf, lbl, name, allowNone)
    case Err(e) => Err(e)
    case Ok(rs) =>
      if |rs| == 1 then assert rs == [rs[0]]; Ok(Some(rs[0]))
      else if |rs| > 1 then Err(MultipleComponentsFound)
      else Ok(None)
  }

  /** `_findall_by_label`: a component is yielded as is; a plain label
      yields exactly the registered components carrying it; a dotted label
      yields one traversal per carrier of its first piece, and can only fail
      on a missing attribute. */
  function FindByLabel(cs: seq<Component>, q: Query, allowNone: bool): (r: Result<seq<Component>>)
    ensures q.Obj? ==> r == Ok([q.c])
    ensures q.Str? && '.' !in q.s ==> r == Ok(Selected(cs, ByLabel, q.s))
    ensures q.Str? && r.Ok? ==> |r.value| == |Selected(cs, ByLabel, Split(q.s)[0])|
    ensures q.Str? && r.Err? ==> r.error == MissingAttribute
    decreases QSize(q), 0
  {
    match q
    case Obj(c) => Ok([c])
    case Many(qs) => Each(cs, qs, LabelKw, allowNone)
    case Str(s) =>
      var parts := Split(s);
      Scan(cs, ByLabel, parts[0], parts[1..])
  }

  /** `_findall_by_name`. A name ending in "user_readback" is looked up as
      the `user_readback` attribute of the single component named after its
      parent part. A collection is looked up element by element with
      `allowNone` false, whatever the caller asked for, so it never succeeds
      with an empty result. Other names are looked up like labels, by name. */
  function FindByName(cs: seq<Component>, q: Query): (r: Result<seq<Component>>)
    ensures q.Obj? ==> r == Ok([q.c])
    ensures q.Str? && '.' !in q.s && !EndsWithReadback(q.s) ==> r == Ok(Selected(cs, ByName, q.s))
    ensures q.Str? && !EndsWithReadback(q.s) && r.Err? ==> r.error == MissingAttribute
    ensures q.Str? && EndsWithReadback(q.s) && r.Ok? ==> |r.value| == 1
    ensures q.Many? && q.qs != [] && r.Ok? ==> r.value != []
    decreases QSize(q), 0
  {
    match q
    case Obj(c) => Ok([c])
    case Many(qs) => Each(cs, qs, NameKw, false)
    case Str(s) =>
      if EndsWithReadback(s) then
        match Find(cs, None, None, Some(Str(ReadbackParent(s))), false)
        case Err(e) => Err(e)
        // `None.user_readback`: out of reach, since `find` with allowNone
        // false raises instead of returning None.
        case Ok(None) => Err(MissingAttribute)
        case Ok(Some(p)) =>
          if "user_readback" in p.attrs then Ok([p.attrs["user_readback"]]) else Err(MissingAttribute)
      else
        var parts := Split(s);
        Scan(cs, ByName, parts[0], parts[1..])
  }

  /** The elements of a collection query, each passed back to `findall`
      under keyword `kw`, their results chained in order: the chain fails
      exactly when some element fails, and starts with the first element's
      results. */
  function Each(cs: seq<Component>, qs: seq<Query>, kw: Keyword, allowNone: bool): (r: Result<seq<Component>>)
    ensures qs == [] ==> r == Ok([])
    ensures r.Ok? ==> forall i :: 0 <= i < |qs| ==> Element(cs, qs[i], kw, allowNone).Ok?
    ensures r.Err? ==> exists i :: 0 <= i < |qs| && Element(cs, qs[i], kw, allowNone).Err?
    ensures r.Ok? && qs != [] ==> Element(cs, qs[0], kw, allowNone).value <= r.value
    decreases ListSize(qs), 4
  {
    if qs == [] then Ok([])
    else
      assert forall i :: 1 <= i < |qs| ==> qs[1..][i - 1] == qs[i];
      Concat(Element(cs, qs[0], kw, allowNone), Each(cs, qs[1..], kw, allowNone))
  }

  /** The `findall` call that one element of a collection query is passed
      to: its results have no repeats, and are empty only under `allowNone`. */
  function Element(cs: seq<Component>, q: Query, kw: Keyword, allowNone: bool): (r: Result<seq<Component>>)
    ensures r.Ok? ==> NoDuplicates(r.value)
    ensures r.Ok? && r.value == [] ==> allowNone
    decreases QSize(q), 3
  {
    match kw
    case AnyOfKw => FindAll(cs, Some(q), None, None, allowNone)
    case LabelKw => FindAll(cs, None, Some(q), None, allowNone)
    case NameKw => FindAll(cs, None, None, Some(q), allowNone)
  }
}
