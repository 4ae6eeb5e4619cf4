/** The string handling of name and label queries: splitting off dotted
    attribute suffixes, applying them to a component, and the special case of
    names that end in "user_readback". */
module Paths {
  import opened Types

  /** `s.split(".")`: the pieces between the dots, in order; never empty. */
  function Split(s: string): (parts: seq<string>)
    ensures |parts| >= 1
    ensures forall i :: 0 <= i < |parts| ==> '.' !in parts[i]
    ensures '.' !in s ==> parts == [s]
  {
    if s == [] then [""]
    else
      var rest := Split(s[1..]);
      if s[0] == '.' then [""] + rest
      else
        assert '.' !in s ==> [s[0]] + s[1..] == s;
        [[s[0]] + rest[0]] + rest[1..]
  }

  /** `".".join(parts)`, the inverse of `Split`. */
  function Join(parts: seq<string>): (s: string)
    requires |parts| >= 1
  {
    if |parts| == 1 then parts[0] else parts[0] + "." + Join(parts[1..])
  }

  /** Splitting and joining again gives back the query string. */
  lemma {:induction false} JoinSplit(s: string)
    ensures Join(Split(s)) == s
  {
    if s != [] {
      var rest := Split(s[1..]);
      JoinSplit(s[1..]);
      if s[0] == '.' {
        assert Split(s) == [""] + rest;
        assert Join(Split(s)) == "" + "." + Join(rest);
      } else if |rest| == 1 {
        assert Join(Split(s)) == [s[0]] + rest[0];
      } else {
        assert Join(Split(s)) == [s[0]] + rest[0] + "." + Join(rest[1..]);
        assert Join(rest) == rest[0] + "." + Join(rest[1..]);
      }
    }
  }

  /** A dot-free prefix is glued to the first piece of what follows it. */
  lemma {:induction false} SplitPrefix(p: string, t: string)
    requires '.' !in p
    ensures Split(p + t) == [p + Split(t)[0]] + Split(t)[1..]
  {
    if p != [] {
      assert (p + t)[0] == p[0] && (p + t)[1..] == p[1..] + t;
      SplitPrefix(p[1..], t);
      assert [p[0]] + (p[1..] + Split(t)[0]) == p + Split(t)[0];
    } else {
      assert p + t == t && p + Split(t)[0] == Split(t)[0];
      assert [Split(t)[0]] + Split(t)[1..] == Split(t);
    }
  }

  /** Joining dot-free pieces and splitting again gives back the pieces. */
  lemma {:induction false} SplitJoin(parts: seq<string>)
    requires |parts| >= 1
    requires forall i :: 0 <= i < |parts| ==> '.' !in parts[i]
    ensures Split(Join(parts)) == parts
  {
    if |parts| == 1 {
      SplitPrefix(parts[0], "");
      assert parts[0] + "" == parts[0];
    } else {
      var tail := Join(parts[1..]);
      SplitJoin(parts[1..]);
      assert Join(parts) == parts[0] + ("." + tail);
      SplitPrefix(parts[0], "." + tail);
      assert ("." + tail)[1..] == tail;
      assert Split("." + tail) == [""] + parts[1..];
      assert parts[0] + "" == parts[0];
      assert [parts[0]] + parts[1..] == parts;
    }
  }

  /** Applying the attribute path `path` to `c` in order, as `getattr` does;
      a name `c` lacks is an attribute error. */
  function Traverse(c: Component, path: seq<string>): (r: Result<Component>)
    ensures path == [] ==> r == Ok(c)
    ensures |path| > 0 && path[0] !in c.attrs ==> r == Err(MissingAttribute)
    ensures r.Err? ==> r.error == MissingAttribute
  {
    if path == [] then Ok(c)
    else if path[0] in c.attrs then Traverse(c.attrs[path[0]], path[1..])
    else Err(MissingAttribute)
  }

  /** `name[-13:] == "user_readback"`: the last thirteen characters spell
      "user_readback" (a shorter string never matches). */
  predicate EndsWithReadback(s: string)
  {
    |s| >= 13 && s[|s| - 13..] == "user_readback"
  }

  /** `s.lstrip("_")`. */
  function TrimLeft(s: string): (r: string)
    ensures |r| <= |s| && r == s[|s| - |r|..]
    ensures forall i :: 0 <= i < |s| - |r| ==> s[i] == '_'
    ensures r == [] || r[0] != '_'
  {
    if s != [] && s[0] == '_' then TrimLeft(s[1..]) else s
  }

  /** `s.rstrip("_")`. */
  function TrimRight(s: string): (r: string)
    ensures |r| <= |s| && r == s[..|r|]
    ensures forall i :: |r| <= i < |s| ==> s[i] == '_'
    ensures r == [] || r[|r| - 1] != '_'
  {
    if s != [] && s[|s| - 1] == '_' then TrimRight(s[..|s| - 1]) else s
  }

  /** `name[:-14].strip("_")`: drop the last fourteen characters (all of them
      when there are fewer) and the underscores at both ends of the rest. */
  function ReadbackParent(s: string): (r: string)
    requires EndsWithReadback(s)
    ensures |r| < |s|
  {
    TrimRight(TrimLeft(if |s| >= 14 then s[..|s| - 14] else ""))
  }

  /** The parent name of a conventional motor readback name: "<p>_user_readback"
      or "<p>.user_readback" with `p` free of leading and trailing underscores
      resolves to `p`. */
  lemma ReadbackParentOf(p: string, sep: char)
    requires sep == '_' || sep == '.'
    requires p == [] || (p[0] != '_' && p[|p| - 1] != '_')
    ensures EndsWithReadback(p + [sep] + "user_readback")
    ensures ReadbackParent(p + [sep] + "user_readback") == p
  {
    var s := p + [sep] + "user_readback";
    assert s[|s| - 13..] == "user_readback";
    assert s[..|s| - 14] == p;
  }

  /** The readback test accepts exactly the names that end in
      "user_readback", so none shorter than the suffix; the bare suffix has
      the empty parent name. */
  lemma ReadbackTest(p: string, s: string)
    ensures EndsWithReadback(p + "user_readback")
    ensures EndsWithReadback(s) ==> s == s[..|s| - 13] + "user_readback"
    ensures |s| < 13 ==> !EndsWithReadback(s)
    ensures ReadbackParent("user_readback") == ""
  {
    var t := p + "user_readback";
    assert t[|t| - 13..] == "user_readback";
    if EndsWithReadback(s) {
      assert s == s[..|s| - 13] + s[|s| - 13..];
    }
  }
}
