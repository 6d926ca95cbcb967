/** Path names (kernel/fs/vfs.c): how a path falls into components, and what splitting it at the
    last slash has to do with that. */
module Paths {
  const NAME_MAX := 64

  /** The path from its first character that is not a slash. */
  function SkipSlashes(p: string): (q: string)
    ensures |q| <= |p| && (q != [] ==> q[0] != '/')
  {
    if p != [] && p[0] == '/' then SkipSlashes(p[1..]) else p
  }

  /** Its first characters up to a slash, at most `max` of them. */
  function TakeName(p: string, max: nat): (c: string)
    ensures |c| <= |p| && |c| <= max
    ensures p != [] && p[0] != '/' && max > 0 ==> c != []
  {
    if p == [] || p[0] == '/' || max == 0 then [] else [p[0]] + TakeName(p[1..], max - 1)
  }

  /** The components vfs_resolve sees: a name longer than 63 characters is cut, and what is left of
      it is the next component. */
  function Components(p: string): seq<string>
    decreases |p|
  {
    var q := SkipSlashes(p);
    if q == [] then []
    else
      var c := TakeName(q, NAME_MAX - 1);
      [c] + Components(q[|c|..])
  }

  lemma {:induction false} SkipAppend(p: string, s: string)
    ensures SkipSlashes(p) != [] ==> SkipSlashes(p + s) == SkipSlashes(p) + s
    ensures SkipSlashes(p) == [] ==> SkipSlashes(p + s) == SkipSlashes(s)
  {
    if p == [] {
      assert p + s == s;
    } else if p[0] == '/' {
      SkipAppend(p[1..], s);
      assert (p + s)[1..] == p[1..] + s;
    }
  }

  lemma {:induction false} TakeAppend(p: string, s: string, max: nat)
    requires s == [] || s[0] == '/'
    ensures TakeName(p + s, max) == TakeName(p, max)
  {
    if p == [] {
      assert p + s == s;
    } else if p[0] != '/' && max > 0 {
      TakeAppend(p[1..], s, max - 1);
      assert (p + s)[1..] == p[1..] + s;
    }
  }

  /** A slash separates: the components of two paths joined by one are those of the first followed
      by those of the second. */
  lemma {:induction false} ComponentsJoin(a: string, b: string)
    ensures Components(a + "/" + b) == Components(a) + Components(b)
    decreases |a|
  {
    hide Components, TakeName, SkipSlashes;
    var s := "/" + b;
    assert a + "/" + b == a + s;
    SkipAppend(a, s);
    ComponentsUnfold(a + s);
    ComponentsUnfold(a);
    var q := SkipSlashes(a);
    if q == [] {
      SkipLead(b);
      ComponentsUnfold(b);
    } else {
      var c := TakeName(q, NAME_MAX - 1);
      TakeAppend(q, s, NAME_MAX - 1);
      ComponentsJoin(q[|c|..], b);
      assert q[|c|..] + "/" + b == (q + s)[|c|..];
      assert [c] + (Components(q[|c|..]) + Components(b)) == [c] + Components(q[|c|..]) + Components(b);
    }
  }

  /** Repeated slashes, and leading and trailing ones, do not matter. */
  lemma RepeatedSlashes(a: string, b: string)
    ensures Components(a + "/" + ("/" + b)) == Components(a + "/" + b)
    ensures Components("/" + b) == Components(b) && Components(a + "/") == Components(a)
  {
    assert Components([]) == [];
    ComponentsJoin([], b);
    assert [] + "/" + b == "/" + b;
    ComponentsJoin(a, []);
    assert a + "/" + [] == a + "/";
    ComponentsJoin(a, "/" + b);
    ComponentsJoin(a, b);
  }

  lemma ComponentsUnfold(p: string)
    ensures var q := SkipSlashes(p);
            Components(p) ==
            if q == [] then [] else [TakeName(q, NAME_MAX - 1)] + Components(q[|TakeName(q, NAME_MAX - 1)|..])
  {
  }

  lemma SkipLead(b: string)
    ensures SkipSlashes("/" + b) == SkipSlashes(b)
  {
    assert ("/" + b)[1..] == b;
  }

  /** A slash-free name of at most 63 characters is one component. */
  lemma ComponentsOfName(n: string)
    requires n != [] && '/' !in n
    ensures Components(n) == [TakeName(n, NAME_MAX - 1)] + Components(n[|TakeName(n, NAME_MAX - 1)|..])
    ensures |n| < NAME_MAX ==> Components(n) == [n]
    ensures |n| >= NAME_MAX ==> |Components(n)| >= 2 && Components(n)[0] == n[..NAME_MAX - 1]
  {
    TakeAll(n, NAME_MAX - 1);
    assert SkipSlashes(n) == n;
    if |n| >= NAME_MAX {
      var rest := n[NAME_MAX - 1..];
      assert rest[0] == n[NAME_MAX - 1] && rest[0] != '/';
      assert SkipSlashes(rest) == rest;
    }
  }

  lemma {:induction false} TakeAll(n: string, max: nat)
    requires '/' !in n
    ensures TakeName(n, max) == if |n| <= max then n else n[..max]
  {
    if n != [] && max > 0 {
      assert n[0] != '/';
      TakeAll(n[1..], max - 1);
    }
  }

  /** Position of the last slash. */
  ghost predicate LastSlash(p: string, k: nat) {
    k < |p| && p[k] == '/' && '/' !in p[k + 1..]
  }

  /** What resolve_parent relies on: cutting a path at its last slash cuts off its last component,
      as long as that component is short enough to be one. */
  lemma LastSlashCutsLastComponent(p: string, k: nat)
    requires LastSlash(p, k) && k + 1 < |p|
    ensures Components(p) == Components(p[..k]) + Components(p[k + 1..])
    ensures |p| - (k + 1) < NAME_MAX ==> Components(p) == Components(p[..k]) + [p[k + 1..]]
  {
    hide Components;
    var a, n := p[..k], p[k + 1..];
    assert p == a + "/" + n;
    ComponentsJoin(a, n);
    ComponentsOfName(n);
  }

  lemma SkipOne(path: string, pos: nat)
    requires pos < |path| && path[pos] == '/'
    ensures SkipSlashes(path[pos..]) == SkipSlashes(path[pos + 1..])
  {
    assert path[pos..][1..] == path[pos + 1..];
  }

  lemma TakeOne(path: string, pos: nat, max: nat)
    requires pos < |path|
    ensures path[pos] != '/' && max > 0 ==>
              TakeName(path[pos..], max) == [path[pos]] + TakeName(path[pos + 1..], max - 1)
    ensures path[pos] == '/' || max == 0 ==> TakeName(path[pos..], max) == []
  {
    assert path[pos..][1..] == path[pos + 1..];
  }

  /** next_component, on the path from position `pos`. */
  method NextComponent(path: string, pos: nat) returns (found: bool, comp: string, next: nat)
    requires pos <= |path|
    ensures pos <= next <= |path|
    ensures !found ==> Components(path[pos..]) == []
    ensures found ==>
              Components(path[pos..]) == [comp] + Components(path[next..]) && next > pos && 1 <= |comp| < NAME_MAX
  {
    var start := pos;
    while start < |path| && path[start] == '/'
      invariant pos <= start <= |path|
      invariant SkipSlashes(path[start..]) == SkipSlashes(path[pos..])
    {
      SkipOne(path, start);
      start := start + 1;
    }
    assert SkipSlashes(path[pos..]) == path[start..];
    ComponentsUnfold(path[pos..]);
    if start == |path| { return false, [], pos; }
    comp, next := CopyName(path, start);
    assert path[start..][|comp|..] == path[next..];
    found := true;
  }

  /** The copying loop of next_component. */
  method CopyName(path: string, start: nat) returns (comp: string, next: nat)
    requires start < |path| && path[start] != '/'
    ensures comp == TakeName(path[start..], NAME_MAX - 1) && next == start + |comp| <= |path| && 1 <= |comp| < NAME_MAX
  {
    hide TakeName;
    comp, next := [], start;
    while next < |path| && path[next] != '/' && |comp| < NAME_MAX - 1
      invariant next == start + |comp| <= |path| && |comp| < NAME_MAX
      invariant TakeName(path[start..], NAME_MAX - 1) == comp + TakeName(path[next..], NAME_MAX - 1 - |comp|)
    {
      TakeOne(path, next, NAME_MAX - 1 - |comp|);
      comp := comp + [path[next]];
      next := next + 1;
    }
    if next < |path| { TakeOne(path, next, NAME_MAX - 1 - |comp|); }
  }

  /** The characters of a path that are not slashes. */
  function WithoutSlashes(p: string): string {
    if p == [] then [] else (if p[0] == '/' then [] else [p[0]]) + WithoutSlashes(p[1..])
  }

  function Joined(cs: seq<string>): string {
    if cs == [] then [] else cs[0] + Joined(cs[1..])
  }

  lemma {:induction false} SkipKeeps(p: string)
    ensures WithoutSlashes(SkipSlashes(p)) == WithoutSlashes(p)
  {
    if p != [] && p[0] == '/' { SkipKeeps(p[1..]); }
  }

  lemma {:induction false} TakeKeeps(p: string, max: nat)
    ensures var c := TakeName(p, max); WithoutSlashes(p) == c + WithoutSlashes(p[|c|..]) && '/' !in c
  {
    hide TakeName, WithoutSlashes;
    var c := TakeName(p, max);
    Unfold(p, max);
    if p != [] && p[0] != '/' && max > 0 {
      TakeKeeps(p[1..], max - 1);
      assert p[1..][|c| - 1..] == p[|c|..];
      assert WithoutSlashes(p) == [p[0]] + (c[1..] + WithoutSlashes(p[|c|..]));
    } else {
      assert p[0..] == p;
    }
  }

  lemma Unfold(p: string, max: nat)
    ensures p == [] || p[0] == '/' || max == 0 ==> TakeName(p, max) == []
    ensures p != [] && p[0] != '/' && max > 0 ==>
              TakeName(p, max) == [p[0]] + TakeName(p[1..], max - 1) &&
              WithoutSlashes(p) == [p[0]] + WithoutSlashes(p[1..])
  {
  }

  /** The components spell out the path without its slashes: nothing is lost or reordered, and each is a name of 1 to
      63 characters without a slash. */
  lemma {:induction false} ComponentsSpellPath(p: string)
    ensures Joined(Components(p)) == WithoutSlashes(p)
    ensures forall c :: c in Components(p) ==> 0 < |c| <= 63 && '/' !in c
    decreases |p|
  {
    hide Components, SkipSlashes, TakeName, WithoutSlashes;
    ComponentsUnfold(p);
    SkipKeeps(p);
    var q := SkipSlashes(p);
    if q == [] {
      NothingLeft();
    } else {
      var c := TakeName(q, NAME_MAX - 1);
      TakeKeeps(q, NAME_MAX - 1);
      ComponentsSpellPath(q[|c|..]);
      assert ([c] + Components(q[|c|..]))[1..] == Components(q[|c|..]);
    }
  }

  lemma NothingLeft()
    ensures WithoutSlashes([]) == []
  {
  }
}
