/** What `find` and `findall` promise, stated over the registered list. */
module LookupFacts {
  import opened Types
  import opened Dedup
  import opened Paths
  import opened Lookup

  /** A selector that picks nothing yields nothing. */
  lemma SelectedNone(cs: seq<Component>, sel: Selector, key: string)
    requires forall i :: 0 <= i < |cs| ==> !Selects(sel, cs[i], key)
    ensures Selected(cs, sel, key) == []
  {
  }

  /** Chaining with an empty success on either side changes nothing. */
  lemma ConcatUnit(x: Result<seq<Component>>)
    ensures Concat(Ok([]), x) == x && Concat(x, Ok([])) == x
  {
    if x.Ok? {
      assert [] + x.value == x.value && x.value + [] == x.value;
    }
  }

  /** Chaining is associative. */
  lemma ConcatAssoc(a: Result<seq<Component>>, b: Result<seq<Component>>, c: Result<seq<Component>>)
    ensures Concat(a, Concat(b, c)) == Concat(Concat(a, b), c)
  {
    if a.Ok? && b.Ok? && c.Ok? {
      assert a.value + (b.value + c.value) == (a.value + b.value) + c.value;
    }
  }

  /** A single component settles to itself. */
  lemma SettleSingleton(x: Component, allowNone: bool)
    ensures Settle(Ok([x]), allowNone) == Ok([x])
  {
    UniqueOfDistinct([x]);
  }

  /** `findall(name=q)` settles what the name resolver finds. */
  lemma FindAllByName(cs: seq<Component>, q: Query, allowNone: bool)
    ensures FindAll(cs, None, None, Some(q), allowNone) == Settle(FindByName(cs, q), allowNone)
  {
    ConcatUnit(FindByName(cs, q));
    assert Gather(cs, None, None, Some(q), allowNone) == FindByName(cs, q);
  }

  /** `findall(label=q)` settles what the label resolver finds. */
  lemma FindAllByLabel(cs: seq<Component>, q: Query, allowNone: bool)
    ensures FindAll(cs, None, Some(q), None, allowNone) == Settle(FindByLabel(cs, q, allowNone), allowNone)
  {
    ConcatUnit(FindByLabel(cs, q, allowNone));
    assert Gather(cs, None, Some(q), None, allowNone) == FindByLabel(cs, q, allowNone);
  }

  /** Under distinct names, selecting by a registered name yields exactly
      the one component carrying it. */
  lemma {:induction false} SelectedDistinctName(cs: seq<Component>, i: nat)
    requires NamesDistinct(cs) && i < |cs|
    ensures Selected(cs, ByName, cs[i].name) == [cs[i]]
  {
    var n := cs[i].name;
    assert forall k :: 0 <= k < |cs| - 1 ==> cs[1..][k] == cs[k + 1];
    if i == 0 {
      SelectedNone(cs[1..], ByName, n);
      assert Selected(cs, ByName, n) == [cs[0]] + Selected(cs[1..], ByName, n);
    } else {
      SelectedDistinctName(cs[1..], i - 1);
      assert Selected(cs, ByName, n) == Selected(cs[1..], ByName, n);
    }
  }

  /** A nonempty selection settles to exactly the components picked. */
  lemma SettledPicked(cs: seq<Component>, sel: Selector, key: string, allowNone: bool)
    requires Selected(cs, sel, key) != []
    ensures Settle(Ok(Selected(cs, sel, key)), allowNone).Ok?
    ensures forall c :: c in Settle(Ok(Selected(cs, sel, key)), allowNone).value <==> c in cs && Selects(sel, c, key)
  {
  }

  /** A lookup by a plain key settles what the selector picks. */
  lemma SettledSelection(cs: seq<Component>, sel: Selector, key: string, allowNone: bool)
    ensures (exists i :: 0 <= i < |cs| && Selects(sel, cs[i], key)) ==>
      Settle(Ok(Selected(cs, sel, key)), allowNone).Ok? &&
      forall c :: c in Settle(Ok(Selected(cs, sel, key)), allowNone).value <==> c in cs && Selects(sel, c, key)
    ensures (forall i :: 0 <= i < |cs| ==> !Selects(sel, cs[i], key)) ==>
      Settle(Ok(Selected(cs, sel, key)), allowNone) == if allowNone then Ok([]) else Err(ComponentNotFound)
  {
    var r := Selected(cs, sel, key);
    if exists i :: 0 <= i < |cs| && Selects(sel, cs[i], key) {
      var i :| 0 <= i < |cs| && Selects(sel, cs[i], key);
      assert cs[i] in r;
      SettledPicked(cs, sel, key, allowNone);
    } else {
      SelectedNone(cs, sel, key);
    }
  }

  /** `findall(label=l)` for a label without dots: exactly the registered
      components carrying `l`; when there are none, an empty list if
      `allowNone` and a not-found error otherwise. */
  lemma LabelLookup(cs: seq<Component>, l: string, allowNone: bool)
    requires '.' !in l
    ensures (exists i :: 0 <= i < |cs| && l in cs[i].labels) ==>
      FindAll(cs, None, Some(Str(l)), None, allowNone).Ok? &&
      forall c :: c in FindAll(cs, None, Some(Str(l)), None, allowNone).value <==> c in cs && l in c.labels
    ensures (forall i :: 0 <= i < |cs| ==> l !in cs[i].labels) ==>
      FindAll(cs, None, Some(Str(l)), None, allowNone) == if allowNone then Ok([]) else Err(ComponentNotFound)
  {
    assert FindByLabel(cs, Str(l), allowNone) == Ok(Selected(cs, ByLabel, l));
    FindAllByLabel(cs, Str(l), allowNone);
    SettledSelection(cs, ByLabel, l, allowNone);
  }

  /** `findall(name=n)` for a name without dots and without the readback
      suffix: exactly the registered components named `n`, with the same
      handling of an empty result. */
  lemma NameLookup(cs: seq<Component>, n: string, allowNone: bool)
    requires '.' !in n && !EndsWithReadback(n)
    ensures (exists i :: 0 <= i < |cs| && cs[i].name == n) ==>
      FindAll(cs, None, None, Some(Str(n)), allowNone).Ok? &&
      forall c :: c in FindAll(cs, None, None, Some(Str(n)), allowNone).value <==> c in cs && c.name == n
    ensures (forall i :: 0 <= i < |cs| ==> cs[i].name != n) ==>
      FindAll(cs, None, None, Some(Str(n)), allowNone) == if allowNone then Ok([]) else Err(ComponentNotFound)
  {
    assert FindByName(cs, Str(n)) == Ok(Selected(cs, ByName, n));
    FindAllByName(cs, Str(n), allowNone);
    SettledSelection(cs, ByName, n, allowNone);
  }

  /** With distinct registered names, `find(name=n)` returns the component
      named `n`, and when there is none, None or a not-found error. */
  lemma FindByDistinctName(cs: seq<Component>, n: string, allowNone: bool)
    requires NamesDistinct(cs) && '.' !in n && !EndsWithReadback(n)
    ensures forall i :: 0 <= i < |cs| && cs[i].name == n ==>
      Find(cs, None, None, Some(Str(n)), allowNone) == Ok(Some(cs[i]))
    ensures (forall i :: 0 <= i < |cs| ==> cs[i].name != n) ==>
      Find(cs, None, None, Some(Str(n)), allowNone) == if allowNone then Ok(None) else Err(ComponentNotFound)
  {
    NameLookup(cs, n, allowNone);
    assert FindByName(cs, Str(n)) == Ok(Selected(cs, ByName, n));
    FindAllByName(cs, Str(n), allowNone);
    forall i | 0 <= i < |cs| && cs[i].name == n
      ensures Find(cs, None, None, Some(Str(n)), allowNone) == Ok(Some(cs[i]))
    {
      SelectedDistinctName(cs, i);
      SettleSingleton(cs[i], allowNone);
      assert FindAll(cs, None, None, Some(Str(n)), allowNone) == Ok([cs[i]]);
    }
  }

  /** A dotted query "key.a1...an": every component the key picks, in list
      order, with the attributes a1..an applied in order; the result is then
      settled like any other. */
  lemma {:induction false} DottedLookup(cs: seq<Component>, key: string, attrs: seq<string>, allowNone: bool)
    requires '.' !in key
    requires forall k :: 0 <= k < |attrs| ==> '.' !in attrs[k]
    ensures FindAll(cs, None, Some(Str(Join([key] + attrs))), None, allowNone) ==
      Settle(Scan(cs, ByLabel, key, attrs), allowNone)
    ensures !EndsWithReadback(Join([key] + attrs)) ==>
      FindAll(cs, None, None, Some(Str(Join([key] + attrs))), allowNone) ==
      Settle(Scan(cs, ByName, key, attrs), allowNone)
  {
    var parts := [key] + attrs;
    var q := Str(Join(parts));
    SplitJoin(parts);
    assert parts[1..] == attrs;
    assert FindByLabel(cs, q, allowNone) == Scan(cs, ByLabel, key, attrs);
    FindAllByLabel(cs, q, allowNone);
    if !EndsWithReadback(Join(parts)) {
      assert FindByName(cs, q) == Scan(cs, ByName, key, attrs);
      FindAllByName(cs, q, allowNone);
    }
  }

  /** With distinct registered names, `find(name="p.a1...an")` is the
      component named `p` with the attributes applied, or the attribute
      error of the first attribute it lacks. */
  lemma DottedNameFind(cs: seq<Component>, i: nat, attrs: seq<string>, allowNone: bool)
    requires NamesDistinct(cs) && i < |cs| && '.' !in cs[i].name
    requires forall k :: 0 <= k < |attrs| ==> '.' !in attrs[k]
    requires !EndsWithReadback(Join([cs[i].name] + attrs))
    ensures FindAll(cs, None, None, Some(Str(Join([cs[i].name] + attrs))), allowNone) ==
      match Traverse(cs[i], attrs)
      case Ok(x) => Ok([x])
      case Err(e) => Err(e)
  {
    DottedLookup(cs, cs[i].name, attrs, allowNone);
    SelectedDistinctName(cs, i);
    var s := Scan(cs, ByName, cs[i].name, attrs);
    if s.Ok? {
      assert s.value == [s.value[0]];
      SettleSingleton(s.value[0], allowNone);
    }
  }

  /** Two different components carrying a label make `find(label=l)` fail
      with the multiple-components error. */
  lemma AmbiguousLabel(cs: seq<Component>, l: string, i: nat, j: nat, allowNone: bool)
    requires '.' !in l && i < |cs| && j < |cs|
    requires l in cs[i].labels && l in cs[j].labels && cs[i] != cs[j]
    ensures Find(cs, None, Some(Str(l)), None, allowNone) == Err(MultipleComponentsFound)
  {
    LabelLookup(cs, l, allowNone);
    var rs := FindAll(cs, None, Some(Str(l)), None, allowNone).value;
    assert cs[i] in rs && cs[j] in rs;
    var a :| 0 <= a < |rs| && rs[a] == cs[i];
    var b :| 0 <= b < |rs| && rs[b] == cs[j];
    assert a != b;
  }

  /** A component passed as `any_of` is found once, by label and by name. */
  lemma ObjectAnyOf(cs: seq<Component>, c: Component, allowNone: bool)
    ensures FindAll(cs, Some(Obj(c)), None, None, allowNone) == Ok([c])
  {
    var g := Gather(cs, Some(Obj(c)), None, None, allowNone);
    assert g == Concat(Ok([c]), Ok([c]));
    assert [c] + [c] == [c, c];
    UniqueOfDistinct([c]);
    assert [c, c][..1] == [c];
    assert Unique([c, c]) == [c];
  }

  /** A query that is already a component comes back as itself, whichever
      keyword carries it. */
  lemma ObjectQuery(cs: seq<Component>, c: Component, allowNone: bool)
    ensures FindAll(cs, Some(Obj(c)), None, None, allowNone) == Ok([c])
    ensures FindAll(cs, None, Some(Obj(c)), None, allowNone) == Ok([c])
    ensures FindAll(cs, None, None, Some(Obj(c)), allowNone) == Ok([c])
    ensures Find(cs, Some(Obj(c)), None, None, allowNone) == Ok(Some(c))
  {
    FindAllByLabel(cs, Obj(c), allowNone);
    FindAllByName(cs, Obj(c), allowNone);
    SettleSingleton(c, allowNone);
    ObjectAnyOf(cs, c, allowNone);
  }

  /** `label` and `name` given together combine in an "or" fashion: the
      result holds every component either resolver finds, and fails exactly
      when one of them fails or, without `allowNone`, when both find
      nothing. */
  lemma LabelOrName(cs: seq<Component>, l: Query, n: Query, allowNone: bool)
    ensures var r := FindAll(cs, None, Some(l), Some(n), allowNone);
            var a := FindByLabel(cs, l, allowNone);
            var b := FindByName(cs, n);
            (r.Err? <==> a.Err? || b.Err? || (a.value + b.value == [] && !allowNone)) &&
            (r.Ok? ==> forall c :: c in r.value <==> c in a.value || c in b.value)
  {
  }

  /** `anyOf` fills in whichever of `label` and `name` is absent, and a
      collection `anyOf` overrides both. */
  lemma AnyOfFillsIn(cs: seq<Component>, q: Query, lbl: Option<Query>, name: Option<Query>, allowNone: bool)
    ensures !q.Many? ==>
      FindAll(cs, Some(q), lbl, name, allowNone) ==
      FindAll(cs, None, if lbl.Some? then lbl else Some(q), if name.Some? then name else Some(q), allowNone)
    ensures q.Many? ==>
      FindAll(cs, Some(q), lbl, name, allowNone) == FindAll(cs, Some(q), None, None, allowNone)
  {
  }

  /** The elements of a collection query are resolved one after the other
      and their results chained. */
  lemma {:induction false} CollectionConcat(cs: seq<Component>, qs1: seq<Query>, qs2: seq<Query>,
                                            kw: Keyword, allowNone: bool)
    ensures Each(cs, qs1 + qs2, kw, allowNone) == Concat(Each(cs, qs1, kw, allowNone), Each(cs, qs2, kw, allowNone))
  {
    if qs1 == [] {
      assert qs1 + qs2 == qs2;
      ConcatUnit(Each(cs, qs2, kw, allowNone));
    } else {
      assert (qs1 + qs2)[0] == qs1[0] && (qs1 + qs2)[1..] == qs1[1..] + qs2;
      CollectionConcat(cs, qs1[1..], qs2, kw, allowNone);
      ConcatAssoc(Element(cs, qs1[0], kw, allowNone), Each(cs, qs1[1..], kw, allowNone), Each(cs, qs2, kw, allowNone));
    }
  }

  /** Wrapping a query in a one-element collection changes nothing. */
  lemma SingletonCollection(cs: seq<Component>, q: Query, allowNone: bool)
    ensures FindAll(cs, Some(Many([q])), None, None, allowNone) == FindAll(cs, Some(q), None, None, allowNone)
  {
    var inner := FindAll(cs, Some(q), None, None, allowNone);
    assert [q][1..] == [];
    assert Each(cs, [q], AnyOfKw, allowNone) == Concat(inner, Ok([]));
    if inner.Ok? {
      assert inner.value + [] == inner.value;
      UniqueOfDistinct(inner.value);
    }
    assert Gather(cs, Some(Many([q])), None, None, allowNone) == inner;
  }

  /** A readback name whose parent name `find` resolves to `p` finds the
      `user_readback` attribute of `p`, or raises an attribute error. */
  lemma ReadbackOfParent(cs: seq<Component>, s: string, p: Component, allowNone: bool)
    requires EndsWithReadback(s)
    requires Find(cs, None, None, Some(Str(ReadbackParent(s))), false) == Ok(Some(p))
    ensures FindAll(cs, None, None, Some(Str(s)), allowNone) ==
      if "user_readback" in p.attrs then Ok([p.attrs["user_readback"]]) else Err(MissingAttribute)
  {
    var expected: Result<seq<Component>> :=
      if "user_readback" in p.attrs then Ok([p.attrs["user_readback"]]) else Err(MissingAttribute);
    assert FindByName(cs, Str(s)) == expected;
    FindAllByName(cs, Str(s), allowNone);
    if expected.Ok? {
      SettleSingleton(p.attrs["user_readback"], allowNone);
    }
  }

  /** The readback special case: "<p>_user_readback" (or "<p>.user_readback")
      is the `user_readback` attribute of the component named `p`. */
  lemma ReadbackLookup(cs: seq<Component>, i: nat, sep: char, allowNone: bool)
    requires NamesDistinct(cs) && i < |cs|
    requires sep == '_' || sep == '.'
    requires '.' !in cs[i].name && !EndsWithReadback(cs[i].name)
    requires cs[i].name == [] || (cs[i].name[0] != '_' && cs[i].name[|cs[i].name| - 1] != '_')
    ensures FindAll(cs, None, None, Some(Str(cs[i].name + [sep] + "user_readback")), allowNone) ==
      if "user_readback" in cs[i].attrs then Ok([cs[i].attrs["user_readback"]]) else Err(MissingAttribute)
  {
    var p := cs[i].name;
    var s := p + [sep] + "user_readback";
    ReadbackParentOf(p, sep);
    FindByDistinctName(cs, p, false);
    ReadbackOfParent(cs, s, cs[i], allowNone);
  }

  /** The name branch resolves each element of a collection with `allowNone`
      false, so a missing name in a list is an error even when the caller
      allows an empty result; the label branch passes `allowNone` on. */
  lemma {:induction false} NameListIgnoresAllowNone(cs: seq<Component>, n: string)
    requires '.' !in n && !EndsWithReadback(n)
    requires forall i :: 0 <= i < |cs| ==> cs[i].name != n && n !in cs[i].labels
    ensures FindAll(cs, None, None, Some(Str(n)), true) == Ok([])
    ensures FindAll(cs, None, None, Some(Many([Str(n)])), true) == Err(ComponentNotFound)
    ensures FindAll(cs, None, Some(Many([Str(n)])), None, true) == Ok([])
  {
    NameLookup(cs, n, true);
    NameLookup(cs, n, false);
    LabelLookup(cs, n, true);
    assert [Str(n)][1..] == [];
    assert Element(cs, Str(n), NameKw, false) == Err(ComponentNotFound);
    assert Each(cs, [Str(n)], NameKw, false) == Err(ComponentNotFound);
    assert FindByName(cs, Many([Str(n)])) == Err(ComponentNotFound);
    assert Gather(cs, None, None, Some(Many([Str(n)])), true) == Err(ComponentNotFound);
    assert Element(cs, Str(n), LabelKw, true) == Ok([]);
    assert Each(cs, [Str(n)], LabelKw, true) == Ok([]);
    assert FindByLabel(cs, Many([Str(n)]), true) == Ok([]);
    assert Gather(cs, None, Some(Many([Str(n)])), None, true) == Ok([]);
  }
}
