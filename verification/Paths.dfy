/** Path resolution: components, the directory entries as a tree, and a new entry in it. */
module Paths {
  import opened Common

  const MAX_DENTRIES: nat := 256
  const SLASH: byte := 47

  type Name = seq<byte>

  /** Where the component starting at `pos` ends. */
  function EndOf(path: seq<byte>, pos: nat): (e: nat)
    requires pos <= |path|
    ensures pos <= e <= |path|
    ensures forall k :: pos <= k < e ==> path[k] != SLASH
    ensures e < |path| ==> path[e] == SLASH
    decreases |path| - pos
  {
    if pos == |path| || path[pos] == SLASH then pos else EndOf(path, pos + 1)
  }

  /** The non-empty pieces between slashes. */
  function Components(path: seq<byte>): seq<Name>
    decreases |path|
  {
    if |path| == 0 then []
    else
      var e := EndOf(path, 0);
      var rest := if e < |path| then Components(path[e + 1..]) else [];
      if e == 0 then rest else [path[..e]] + rest
  }

  predicate ProperName(name: Name) {
    name != [] && SLASH !in name
  }

  /** A path written from its components. */
  function Joined(names: seq<Name>): seq<byte> {
    if |names| == 0 then [] else [SLASH] + names[0] + Joined(names[1..])
  }

  lemma EndIsFirstSlash(path: seq<byte>, e: nat)
    requires e <= |path| && (forall k :: 0 <= k < e ==> path[k] != SLASH) && (e < |path| ==> path[e] == SLASH)
    ensures EndOf(path, 0) == e
  {
  }

  /** Components do not span a slash: `p/q` has those of `p` followed by those of `q`. */
  lemma {:induction false} ComponentsOfSlash(p: seq<byte>, q: seq<byte>)
    ensures Components(p + [SLASH] + q) == Components(p) + Components(q)
    decreases |p|
  {
    var path, e := p + [SLASH] + q, EndOf(p, 0);
    EndIsFirstSlash(path, e);
    assert path[..e] == p[..e];
    if e < |p| {
      assert path[e + 1..] == p[e + 1..] + [SLASH] + q;
      ComponentsOfSlash(p[e + 1..], q);
    } else {
      assert path[e + 1..] == q && p[..e] == p;
    }
  }

  /** A proper name is one component, and nothing else is its own single component. */
  lemma ProperNameIsOneComponent(name: Name)
    ensures Components(name) == [name] <==> ProperName(name)
  {
    var e := EndOf(name, 0);
    if ProperName(name) {
      EndIsFirstSlash(name, |name|);
      assert name[..|name|] == name;
    }
    if Components(name) == [name] && name != [] {
      ComponentsAreProper(name);
      assert name in Components(name);
    }
  }

  lemma {:induction false} ComponentsAreProper(path: seq<byte>)
    ensures forall c :: c in Components(path) ==> ProperName(c)
    decreases |path|
  {
    if |path| != 0 {
      var e := EndOf(path, 0);
      assert SLASH !in path[..e];
      if e < |path| {
        ComponentsAreProper(path[e + 1..]);
      }
    }
  }

  /** Writing a path and splitting it gives the names back. */
  lemma {:induction false} ComponentsOfJoined(names: seq<Name>)
    requires forall c :: c in names ==> ProperName(c)
    ensures Components(Joined(names)) == names
    decreases |names|
  {
    if |names| != 0 {
      var c, rest := names[0], names[1..];
      assert c in names;
      ComponentsOfJoined(rest);
      ProperNameIsOneComponent(c);
      assert Joined(names) == [] + [SLASH] + (c + Joined(rest));
      ComponentsOfSlash([], c + Joined(rest));
      if |rest| == 0 {
        assert c + Joined(rest) == c;
      } else {
        NameThenJoined(c, rest);
      }
    }
  }

  lemma NameThenJoined(c: Name, rest: seq<Name>)
    requires |rest| > 0
    ensures Components(c + Joined(rest)) == Components(c) + Components(Joined(rest))
  {
    hide Components;
    var tail := rest[0] + Joined(rest[1..]);
    assert Joined(rest) == [SLASH] + tail == [] + [SLASH] + tail;
    assert c + Joined(rest) == c + [SLASH] + tail;
    ComponentsOfSlash(c, tail);
    ComponentsOfSlash([], tail);
    NoComponents();
  }

  lemma NoComponents()
    ensures Components([]) == []
  {
  }

  // ---- Directory entries ----

  datatype Dentry = Dentry(name: Name, inode: nat, parent: int, active: bool)

  type Dentries = seq<Dentry>

  predicate IsChild(ds: Dentries, i: nat, parent: nat, name: Name) {
    i < |ds| && ds[i].active && ds[i].parent == parent && ds[i].name == name
  }

  /** The first active child of this name at or after `i`. */
  function FindChild(ds: Dentries, parent: nat, name: Name, i: nat): (r: Option<nat>)
    requires i <= |ds|
    ensures r.Some? ==> i <= r.value && IsChild(ds, r.value, parent, name)
    ensures forall j: nat :: i <= j < (if r.Some? then r.value else |ds|) ==> !IsChild(ds, j, parent, name)
    decreases |ds| - i
  {
    if i == |ds| then None
    else if IsChild(ds, i, parent, name) then Some(i)
    else FindChild(ds, parent, name, i + 1)
  }

  /** Child lookup folded over the components. */
  function Walk(ds: Dentries, cur: nat, names: seq<Name>): Option<nat>
    decreases |names|
  {
    if |names| == 0 then Some(cur)
    else
      match FindChild(ds, cur, names[0], 0)
      case None => None
      case Some(child) => Walk(ds, child, names[1..])
  }

  function Lookup(ds: Dentries, path: seq<byte>): Option<nat> {
    if path == [] then None else Walk(ds, 0, Components(path))
  }

  /** `path_lookup`: two nested loops over positions compute the fold over the components. */
  method PathLookup(dentries: array<Dentry>, path: seq<byte>) returns (r: Option<nat>)
    ensures r == Lookup(dentries[..], path)
  {
    if path == [] {
      return None;
    }
    var start := if path[0] == SLASH then 1 else 0;
    hide Components, EndOf, FindChild, Walk, RestFrom;
    LeadingSlash(path);
    if start >= |path| {
      WalkEnds(dentries[..], 0, path, start);
      return Some(0);
    }
    ghost var ds := dentries[..];
    var current, pos := 0, start;
    while pos < |path|
      invariant pos <= |path| + 1 && dentries[..] == ds
      invariant Walk(ds, current, RestFrom(path, pos)) == Walk(ds, 0, Components(path))
    {
      var end := FindEnd(path, pos);
      NextComponent(path, pos, end);
      if end == pos {
        assert [] + RestFrom(path, end + 1) == RestFrom(path, end + 1);
        pos := end + 1;
        continue;
      }
      WalkStep(ds, current, path[pos..end], RestFrom(path, end + 1));
      var found := FindChildDentry(dentries, current, path[pos..end]);
      match found {
        case Some(child) => current := child;
        case None => return None;
      }
      pos := end + 1;
    }
    WalkEnds(ds, current, path, pos);
    return Some(current);
  }

  /** The inner loop: the end of the component at `pos`. */
  method FindEnd(path: seq<byte>, pos: nat) returns (end: nat)
    requires pos <= |path|
    ensures end == EndOf(path, pos)
  {
    end := pos;
    while end < |path| && path[end] != SLASH
      invariant pos <= end <= |path|
      invariant EndOf(path, pos) == EndOf(path, end)
    {
      end := end + 1;
    }
  }

  function RestFrom(path: seq<byte>, pos: nat): seq<Name> {
    if pos >= |path| then [] else Components(path[pos..])
  }

  lemma LeadingSlash(path: seq<byte>)
    requires path != []
    ensures Components(path) == RestFrom(path, if path[0] == SLASH then 1 else 0)
  {
    NextComponent(path, 0, if path[0] == SLASH then 0 else EndOf(path, 0));
    assert path[0..] == path;
  }

  lemma NextComponent(path: seq<byte>, pos: nat, end: nat)
    requires pos < |path| && end == EndOf(path, pos)
    ensures RestFrom(path, pos) == (if end == pos then [] else [path[pos..end]]) + RestFrom(path, end + 1)
  {
    var tail, e := path[pos..], end - pos;
    assert tail[..e] == path[pos..end];
    EndIsFirstSlash(tail, e);
    var rest := RestFrom(path, end + 1);
    if end < |path| {
      assert tail[e + 1..] == path[end + 1..];
      NoComponents();
      assert Components(tail[e + 1..]) == rest;
    }
    UnfoldComponents(tail, e, rest);
    assert [] + rest == rest;
  }

  lemma UnfoldComponents(path: seq<byte>, e: nat, rest: seq<Name>)
    requires path != [] && e == EndOf(path, 0)
    requires rest == if e < |path| then Components(path[e + 1..]) else []
    ensures Components(path) == if e == 0 then rest else [path[..e]] + rest
  {
  }

  lemma WalkEnds(ds: Dentries, cur: nat, path: seq<byte>, pos: nat)
    requires pos >= |path|
    ensures Walk(ds, cur, RestFrom(path, pos)) == Some(cur)
  {
  }

  lemma WalkStep(ds: Dentries, cur: nat, name: Name, rest: seq<Name>)
    ensures Walk(ds, cur, [name] + rest) ==
      match FindChild(ds, cur, name, 0) case None => None case Some(child) => Walk(ds, child, rest)
  {
    assert ([name] + rest)[1..] == rest;
  }

  method FindChildDentry(dentries: array<Dentry>, parent: nat, name: Name) returns (r: Option<nat>)
    ensures r == FindChild(dentries[..], parent, name, 0)
  {
    for i := 0 to dentries.Length
      invariant FindChild(dentries[..], parent, name, 0) == FindChild(dentries[..], parent, name, i)
    {
      if dentries[i].active && dentries[i].parent == parent && dentries[i].name == name {
        return Some(i);
      }
    }
    return None;
  }

  // ---- Laws of resolution ----

  lemma {:induction false} WalkOfConcat(ds: Dentries, cur: nat, a: seq<Name>, b: seq<Name>)
    ensures Walk(ds, cur, a + b) == match Walk(ds, cur, a) case None => None case Some(d) => Walk(ds, d, b)
    decreases |a|
  {
    if |a| == 0 {
      assert a + b == b;
    } else {
      assert (a + b)[1..] == a[1..] + b;
      match FindChild(ds, cur, a[0], 0) {
        case Some(child) => WalkOfConcat(ds, child, a[1..], b);
        case None =>
      }
    }
  }

  /** `p/q` resolves `q` from where `p` leads. */
  lemma LookupComposes(ds: Dentries, p: seq<byte>, q: seq<byte>)
    requires p != []
    ensures Lookup(ds, p + [SLASH] + q) ==
      match Lookup(ds, p) case None => None case Some(d) => Walk(ds, d, Components(q))
  {
    ComponentsOfSlash(p, q);
    WalkOfConcat(ds, 0, Components(p), Components(q));
  }

  /** Repeated slashes, trailing slashes and a leading slash make no difference. */
  lemma SlashesIgnored(ds: Dentries, p: seq<byte>, q: seq<byte>)
    requires p != []
    ensures Lookup(ds, p + [SLASH] + [SLASH] + q) == Lookup(ds, p + [SLASH] + q)
    ensures Lookup(ds, p + [SLASH]) == Lookup(ds, p)
    ensures Lookup(ds, [SLASH] + p) == Lookup(ds, p)
  {
    hide Components, Walk;
    NoComponents();
    assert p + [SLASH] + [SLASH] + q == p + [SLASH] + ([] + [SLASH] + q);
    ComponentsOfSlash(p, [] + [SLASH] + q);
    ComponentsOfSlash([], q);
    ComponentsOfSlash(p, q);
    assert p + [SLASH] + [] == p + [SLASH];
    ComponentsOfSlash(p, []);
    assert [] + [SLASH] + p == [SLASH] + p;
    ComponentsOfSlash([], p);
    var a, b := Components(p), Components(q);
    assert a + ([] + b) == a + b && a + [] == a && [] + a == a;
  }
}
