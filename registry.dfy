/** The `Registry` class: an ordered list of registered components, with
    registration (recursing into sub-components) and the name views. Lookups
    over the list are the functions of module `Lookup`. */
module Registration {
  import opened Types
  import opened Dedup
  import opened Paths
  import opened Lookup
  import opened LookupFacts

  /** The list after `register(c)`: unchanged when `c`'s name is already
      taken; otherwise `c` is appended and then each of its signals is
      registered in turn. */
  function Registered(cs: seq<Component>, c: Component): (r: seq<Component>)
    ensures cs <= r
    decreases c, |c.signals| + 1
  {
    if c.name in Names(cs) then cs
    else RegisteredUpTo(cs + [c], c, |c.signals|)
  }

  /** The list after the first `n` signals of `c` have been registered,
      starting from `cs`. */
  function RegisteredUpTo(cs: seq<Component>, c: Component, n: nat): (r: seq<Component>)
    requires n <= |c.signals|
    ensures cs <= r
    decreases c, n
  {
    if n == 0 then cs else Registered(RegisteredUpTo(cs, c, n - 1), c.signals[n - 1])
  }

  /** Every registered component's signals are registered by name (possibly
      as another component that took the name first), from position `m` on. */
  ghost predicate ClosedFrom(cs: seq<Component>, m: nat)
  {
    forall j, k :: m <= j < |cs| && 0 <= k < |cs[j].signals| ==> cs[j].signals[k].name in Names(cs)
  }

  ghost predicate Closed(cs: seq<Component>)
  {
    ClosedFrom(cs, 0)
  }

  /** The registry invariant: names are unique and registration reached the
      signals of every registered component. */
  ghost predicate Consistent(cs: seq<Component>)
  {
    NamesDistinct(cs) && Closed(cs)
  }

  /** The components with no parent, in list order. */
  function Roots(cs: seq<Component>): (r: seq<Component>)
    ensures |r| <= |cs|
    ensures forall c :: c in r <==> c in cs && !c.hasParent
  {
    if cs == [] then []
    else (if cs[0].hasParent then [] else [cs[0]]) + Roots(cs[1..])
  }

  /** Taking roots distributes over concatenation, so it keeps list order. */
  lemma {:induction false} RootsAppend(a: seq<Component>, b: seq<Component>)
    ensures Roots(a + b) == Roots(a) + Roots(b)
  {
    if a == [] {
      assert a + b == b;
    } else {
      assert (a + b)[0] == a[0] && (a + b)[1..] == a[1..] + b;
      RootsAppend(a[1..], b);
    }
  }

  /** Registration only extends the list of parentless components: the ones
      already there keep their places, new ones follow in registration
      order. */
  lemma RegisteredRoots(cs: seq<Component>, c: Component)
    ensures Roots(Registered(cs, c)) == Roots(cs) + Roots(Registered(cs, c)[|cs|..])
  {
    var r := Registered(cs, c);
    assert cs + r[|cs|..] == r;
    RootsAppend(cs, r[|cs|..]);
  }

  /** A name in a list is still there once the list has grown. */
  lemma NamesGrow(a: seq<Component>, b: seq<Component>)
    requires a <= b
    ensures forall x :: x in Names(a) ==> x in Names(b)
  {
    forall x | x in Names(a) ensures x in Names(b) {
      var i :| 0 <= i < |a| && Names(a)[i] == x;
      assert Names(b)[i] == x;
    }
  }

  /** After `register(c)` the name of `c` is registered: by `c` itself when it
      was free, by the earlier holder otherwise. */
  lemma RegisteredHasName(cs: seq<Component>, c: Component)
    ensures c.name in Names(Registered(cs, c))
    ensures c.name !in Names(cs) ==> |Registered(cs, c)| > |cs| && Registered(cs, c)[|cs|] == c
  {
    var r := Registered(cs, c);
    if c.name !in Names(cs) {
      assert (cs + [c]) <= r;
      assert r[|cs|] == c;
      assert Names(r)[|cs|] == c.name;
    }
  }

  /** After the first `n` signals are registered, their names are. */
  lemma {:induction false} RegisteredUpToHasSignals(cs: seq<Component>, c: Component, n: nat)
    requires n <= |c.signals|
    ensures forall k :: 0 <= k < n ==> c.signals[k].name in Names(RegisteredUpTo(cs, c, n))
  {
    if n > 0 {
      var prev := RegisteredUpTo(cs, c, n - 1);
      var r := RegisteredUpTo(cs, c, n);
      assert r == Registered(prev, c.signals[n - 1]);
      RegisteredUpToHasSignals(cs, c, n - 1);
      RegisteredHasName(prev, c.signals[n - 1]);
      NamesGrow(prev, r);
    }
  }

  /** Registration keeps names pairwise distinct. */
  lemma {:induction false} RegisteredDistinct(cs: seq<Component>, c: Component)
    requires NamesDistinct(cs)
    ensures NamesDistinct(Registered(cs, c))
    decreases c, |c.signals| + 1
  {
    if c.name !in Names(cs) {
      forall i | 0 <= i < |cs| ensures cs[i].name != c.name {
        assert Names(cs)[i] == cs[i].name;
      }
      RegisteredUpToDistinct(cs + [c], c, |c.signals|);
    }
  }

  lemma {:induction false} RegisteredUpToDistinct(cs: seq<Component>, c: Component, n: nat)
    requires n <= |c.signals| && NamesDistinct(cs)
    ensures NamesDistinct(RegisteredUpTo(cs, c, n))
    decreases c, n
  {
    if n > 0 {
      var prev := RegisteredUpTo(cs, c, n - 1);
      assert RegisteredUpTo(cs, c, n) == Registered(prev, c.signals[n - 1]);
      RegisteredUpToDistinct(cs, c, n - 1);
      RegisteredDistinct(prev, c.signals[n - 1]);
    }
  }

  /** Every component that registration appends has its signals' names
      registered by the end. */
  lemma {:induction false} RegisteredClosedFrom(cs: seq<Component>, c: Component)
    ensures ClosedFrom(Registered(cs, c), |cs|)
    decreases c, |c.signals| + 1
  {
    if c.name !in Names(cs) {
      var r := Registered(cs, c);
      RegisteredUpToClosedFrom(cs + [c], c, |c.signals|);
      RegisteredUpToHasSignals(cs + [c], c, |c.signals|);
      assert (cs + [c]) <= r && r[|cs|] == c;
    }
  }

  lemma {:induction false} RegisteredUpToClosedFrom(cs: seq<Component>, c: Component, n: nat)
    requires n <= |c.signals|
    ensures ClosedFrom(RegisteredUpTo(cs, c, n), |cs|)
    decreases c, n
  {
    if n > 0 {
      var prev := RegisteredUpTo(cs, c, n - 1);
      var r := RegisteredUpTo(cs, c, n);
      assert r == Registered(prev, c.signals[n - 1]);
      RegisteredUpToClosedFrom(cs, c, n - 1);
      RegisteredClosedFrom(prev, c.signals[n - 1]);
      NamesGrow(prev, r);
      forall j, k | |cs| <= j < |prev| && 0 <= k < |r[j].signals|
        ensures r[j].signals[k].name in Names(r)
      {
        assert r[j] == prev[j];
      }
    }
  }

  /** `x` sits somewhere below `c` in its tree of signals. */
  ghost predicate Reaches(c: Component, x: Component)
    decreases c
  {
    exists k :: 0 <= k < |c.signals| && (c.signals[k] == x || Reaches(c.signals[k], x))
  }

  /** Registration appends only `c` and components from its tree of
      signals. */
  lemma {:induction false} RegisteredFromTree(cs: seq<Component>, c: Component)
    ensures forall j :: |cs| <= j < |Registered(cs, c)| ==>
      Registered(cs, c)[j] == c || Reaches(c, Registered(cs, c)[j])
    decreases c, |c.signals| + 1
  {
    if c.name !in Names(cs) {
      var r := Registered(cs, c);
      RegisteredUpToFromTree(cs + [c], c, |c.signals|);
      assert (cs + [c]) <= r && r[|cs|] == c;
    }
  }

  /** Registering the first `n` signals of `c` appends only components from
      the tree of `c`'s signals. */
  lemma {:induction false} RegisteredUpToFromTree(cs: seq<Component>, c: Component, n: nat)
    requires n <= |c.signals|
    ensures forall j :: |cs| <= j < |RegisteredUpTo(cs, c, n)| ==> Reaches(c, RegisteredUpTo(cs, c, n)[j])
    decreases c, n
  {
    if n > 0 {
      var prev := RegisteredUpTo(cs, c, n - 1);
      var r := RegisteredUpTo(cs, c, n);
      var s := c.signals[n - 1];
      assert r == Registered(prev, s);
      RegisteredUpToFromTree(cs, c, n - 1);
      RegisteredFromTree(prev, s);
      forall j | |cs| <= j < |r| ensures Reaches(c, r[j]) {
        if j < |prev| {
          assert r[j] == prev[j];
        } else {
          assert s == c.signals[n - 1] && (r[j] == s || Reaches(s, r[j]));
        }
      }
    }
  }

  /** Registration preserves the registry invariant. */
  lemma RegisteredConsistent(cs: seq<Component>, c: Component)
    requires Consistent(cs)
    ensures Consistent(Registered(cs, c))
  {
    var r := Registered(cs, c);
    RegisteredDistinct(cs, c);
    RegisteredClosedFrom(cs, c);
    NamesGrow(cs, r);
    forall j, k | 0 <= j < |cs| && 0 <= k < |r[j].signals|
      ensures r[j].signals[k].name in Names(r)
    {
      assert r[j] == cs[j];
    }
  }

  /** Registering the same component (or any component with a registered
      name) a second time changes nothing. */
  lemma RegisterIdempotent(cs: seq<Component>, c: Component)
    ensures Registered(Registered(cs, c), c) == Registered(cs, c)
  {
    RegisteredHasName(cs, c);
  }

  /** A component registered under a fresh, plain name is what `find` then
      returns for that name. */
  lemma RegisterThenFind(cs: seq<Component>, c: Component, allowNone: bool)
    requires NamesDistinct(cs) && c.name !in Names(cs)
    requires '.' !in c.name && !EndsWithReadback(c.name)
    ensures Find(Registered(cs, c), None, None, Some(Str(c.name)), allowNone) == Ok(Some(c))
  {
    var r := Registered(cs, c);
    RegisteredHasName(cs, c);
    RegisteredDistinct(cs, c);
    FindByDistinctName(r, c.name, allowNone);
  }

  /** A second component with a taken name is not registered: `find` still
      returns the first holder of the name. */
  lemma DuplicateKeepsIncumbent(cs: seq<Component>, i: nat, c: Component, allowNone: bool)
    requires NamesDistinct(cs) && i < |cs| && cs[i].name == c.name
    requires '.' !in c.name && !EndsWithReadback(c.name)
    ensures Registered(cs, c) == cs
    ensures Find(Registered(cs, c), None, None, Some(Str(c.name)), allowNone) == Ok(Some(cs[i]))
  {
    assert Names(cs)[i] == c.name;
    FindByDistinctName(cs, c.name, allowNone);
  }

  class Registry {
    var components: seq<Component>

    ghost predicate Valid()
      reads this
    {
      Consistent(components)
    }

    constructor ()
      ensures Valid() && components == []
    {
      new;
      Clear();
    }

    /** Forget every registered component. */
    method Clear()
      modifies this
      ensures Valid() && components == []
    {
      components := [];
    }

    /** The names of the registered components, in list order; pairwise
        distinct while the invariant holds. */
    function ComponentNames(): (names: seq<string>)
      reads this
      ensures |names| == |components|
      ensures forall i :: 0 <= i < |components| ==> names[i] == components[i].name
      ensures Valid() ==> NoDuplicates(names)
    {
      Names(components)
    }

    /** The names of the registered components that have no parent, in list
        order. */
    function DeviceNames(): (names: seq<string>)
      reads this
      ensures |names| <= |components|
      ensures forall n :: n in names <==> exists c :: c in components && !c.hasParent && c.name == n
    {
      var roots := Roots(components);
      assert forall n :: n in Names(roots) <==> exists i :: 0 <= i < |roots| && roots[i].name == n;
      Names(roots)
    }

    /** Register `c` and, recursively, its signals; a component whose name
        is already registered is skipped together with its signals. Returns
        `c`. */
    method Register(c: Component) returns (r: Component)
      modifies this
      ensures r == c
      ensures components == Registered(old(components), c)
      ensures c.name in Names(old(components)) ==> components == old(components)
      ensures c.name !in Names(old(components)) ==> old(components) + [c] <= components
      ensures old(Valid()) ==> Valid()
      decreases c
    {
      ghost var before := components;
      if c.name in Names(components) {
        return c;
      }
      components := components + [c];
      for i := 0 to |c.signals|
        invariant components == RegisteredUpTo(before + [c], c, i)
      {
        var sub := Register(c.signals[i]);
      }
      r := c;
      if Consistent(before) {
        RegisteredConsistent(before, c);
      }
    }
  }
}
