/** Values the registry works with: components, queries and the error kinds
    that lookups raise. */
module Types {

  /** A registered object (an ophyd device or signal).

      `id` tells apart objects that are otherwise alike, so that equality of
      these values plays the part of object identity. `labels` is the
      component's label set (empty when it has none), `hasParent` says whether
      its parent is set, `signals` holds its sub-components in the order of its
      signal mapping (empty when it has none), and `attrs` holds the attributes
      that a dotted query may traverse. */
  datatype Component = Component(
    id: nat,
    name: string,
    labels: set<string>,
    hasParent: bool,
    signals: seq<Component>,
    attrs: map<string, Component>)

  /** A lookup query: a string (possibly with dotted attribute suffixes), an
      already-built component, or a non-string collection of queries. */
  datatype Query = Str(s: string) | Obj(c: Component) | Many(qs: seq<Query>)

  /** The failures a lookup can raise. `MissingAttribute` is the attribute
      error of a dotted traversal (or of `.user_readback`) that names an
      attribute the component does not have. */
  datatype Error = ComponentNotFound | MultipleComponentsFound | MissingAttribute

  datatype Option<T> = None | Some(value: T)

  datatype Result<T> = Ok(value: T) | Err(error: Error)

  /** Only a collection query is iterable: a string is excluded explicitly,
      a component and an absent argument have no iteration. */
  function IsIterable(q: Option<Query>): (b: bool)
    ensures q.None? ==> !b
    ensures q.Some? && (q.value.Str? || q.value.Obj?) ==> !b
    ensures q.Some? && q.value.Many? ==> b
  {
    q.Some? && q.value.Many?
  }

  /** The list of the components' names, in list order. */
  function Names(cs: seq<Component>): (names: seq<string>)
    ensures |names| == |cs|
    ensures forall i :: 0 <= i < |cs| ==> names[i] == cs[i].name
  {
    if cs == [] then [] else [cs[0].name] + Names(cs[1..])
  }

  /** No two entries of the list carry the same name. */
  ghost predicate NamesDistinct(cs: seq<Component>)
  {
    forall i, j :: 0 <= i < j < |cs| ==> cs[i].name != cs[j].name
  }
}
