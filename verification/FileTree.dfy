/** The file tree (kernel/fs/vfs.c, kernel/fs/ramfs.c): nodes, walking a path, creating a node. */
module FileTree {
  import opened Paths
  import opened Ramfs

  /** A file or directory; the children of a directory are a list linked through `next`. */
  class Node {
    const name: string
    const isDir: bool
    const file: File?
    var children: Node?
    var next: Node?

    constructor (name: string, isDir: bool, file: File?)
      ensures this.name == name && this.isDir == isDir && this.file == file && children == null && next == null
    {
      this.name, this.isDir, this.file, this.children, this.next := name, isDir, file, null, null;
    }
  }

  /** Every node of the tree with its children, in list order. */
  type Tree = map<Node, seq<Node>>

  /** The first node with the given name. */
  ghost function Find(cs: seq<Node>, name: string): Node? {
    if cs == [] then null else if cs[0].name == name then cs[0] else Find(cs[1..], name)
  }

  /** Following component names down from a node. */
  ghost function Walk(t: Tree, n: Node, comps: seq<string>): Node?
    decreases |comps|
  {
    if comps == [] then n
    else if !n.isDir || n !in t then null
    else
      var c := Find(t[n], comps[0]);
      if c == null then null else Walk(t, c, comps[1..])
  }

  /** Siblings have different names. */
  ghost predicate DistinctNames(cs: seq<Node>) {
    forall i, j :: 0 <= i < j < |cs| ==> cs[i].name != cs[j].name
  }

  /** Children are nodes of the tree, names fit, siblings differ, plain files have no children. */
  ghost predicate TreeOk(t: Tree) {
    forall n :: n in t ==>
      && (forall c :: c in t[n] ==> c in t && |c.name| < NAME_MAX)
      && DistinctNames(t[n])
      && (!n.isDir ==> t[n] == [])
  }

  /** The tree with the new node `c` as first child of `d`. */
  ghost function Added(t: Tree, d: Node, c: Node): Tree
    requires d in t
  {
    t[d := [c] + t[d]][c := []]
  }

  lemma {:induction false} FindIs(cs: seq<Node>, name: string)
    ensures Find(cs, name) != null ==> Find(cs, name) in cs && Find(cs, name).name == name
    ensures Find(cs, name) == null ==> forall c :: c in cs ==> c.name != name
  {
    if cs != [] { FindIs(cs[1..], name); }
  }

  lemma AddedIsOk(t: Tree, d: Node, c: Node)
    requires TreeOk(t) && d in t && d.isDir && c !in t && |c.name| < NAME_MAX && Find(t[d], c.name) == null
    ensures TreeOk(Added(t, d, c))
  {
    FindIs(t[d], c.name);
  }

  /** Whatever a walk found before a creation it still finds. */
  lemma {:induction false} WalkKept(t: Tree, d: Node, c: Node, n: Node, comps: seq<string>)
    requires TreeOk(t) && d in t && c !in t && n in t && Find(t[d], c.name) == null
    requires Walk(t, n, comps) != null
    ensures Walk(Added(t, d, c), n, comps) == Walk(t, n, comps)
    decreases |comps|
  {
    if comps != [] {
      var m := Find(t[n], comps[0]);
      FindIs(t[n], comps[0]);
      assert m in t;
      assert Added(t, d, c)[n] == if n == d then [c] + t[d] else t[n];
      assert ([c] + t[d])[1..] == t[d];
      WalkKept(t, d, c, m, comps[1..]);
    }
  }

  lemma {:induction false} WalkAppend(t: Tree, n: Node, a: seq<string>, b: seq<string>)
    ensures Walk(t, n, a + b) == if Walk(t, n, a) == null then null else Walk(t, Walk(t, n, a), b)
    decreases |a|
  {
    if a == [] {
      assert a + b == b;
    } else if n.isDir && n in t {
      assert (a + b)[1..] == a[1..] + b;
      var c := Find(t[n], a[0]);
      if c != null { WalkAppend(t, c, a[1..], b); }
    }
  }

  lemma {:induction false} WalkStays(t: Tree, n: Node, comps: seq<string>)
    requires TreeOk(t) && n in t
    ensures Walk(t, n, comps) != null ==> Walk(t, n, comps) in t
    decreases |comps|
  {
    if comps != [] && n.isDir {
      var c := Find(t[n], comps[0]);
      FindIs(t[n], comps[0]);
      if c != null { WalkStays(t, c, comps[1..]); }
    }
  }

  /** After a creation the path to the parent followed by the new name leads to the new node, and
      anything further leads nowhere. */
  lemma WalkToNew(t: Tree, root: Node, d: Node, c: Node, parent: seq<string>, rest: seq<string>)
    requires TreeOk(t) && root in t && d in t && d.isDir && c !in t && Find(t[d], c.name) == null
    requires Walk(t, root, parent) == d
    ensures Walk(Added(t, d, c), root, parent + [c.name]) == c
    ensures rest != [] ==> Walk(Added(t, d, c), root, parent + ([c.name] + rest)) == null
  {
    var t' := Added(t, d, c);
    WalkKept(t, d, c, root, parent);
    assert t'[d][0] == c;
    WalkAppend(t', root, parent, [c.name]);
    WalkAppend(t', root, parent, [c.name] + rest);
    assert ([c.name] + rest)[1..] == rest && [c.name][1..] == [];
    assert t'[c] == [];
  }

  /** The node after position `i` of a child list. */
  ghost function After(cs: seq<Node>, i: int): Node? {
    if 0 <= i + 1 < |cs| then cs[i + 1] else null
  }

  /** The name of a node made by alloc_node: at most 63 characters. */
  function Clipped(name: string): (r: string)
    ensures |r| < NAME_MAX && r <= name
  {
    if |name| >= NAME_MAX then name[..NAME_MAX - 1] else name
  }

  const MAX_FDS := 32
  const PARENT_MAX := 256

  datatype Fd = Fd(node: Node?, offset: nat, used: bool)

  /** Resolving the path of a new node: it is found unless its name was clipped. */
  lemma TargetOfNew(t: Tree, root: Node, d: Node, c: Node, path: string, k: nat)
    requires TreeOk(t) && root in t && d in t && d.isDir && c !in t && Find(t[d], c.name) == null
    requires LastSlash(path, k) && k + 1 < |path| && c.name == Clipped(path[k + 1..]) &&
             Walk(t, root, Components(path[..k])) == d
    ensures Walk(Added(t, d, c), root, Components(path)) == c <==> |path| - (k + 1) < NAME_MAX
  {
    hide Components;
    var a, n := path[..k], path[k + 1..];
    LastSlashCutsLastComponent(path, k);
    ComponentsOfName(n);
    var rest := Components(n)[1..];
    WalkToNew(t, root, d, c, Components(a), rest);
    if |n| >= NAME_MAX {
      assert Components(n) == [c.name] + rest;
    }
  }

  /** The path names a place for a new node: an existing directory up to the last slash (position `k`,
      within the parent buffer), and after it a name the directory does not have yet. */
  ghost predicate RoomAt(t: Tree, root: Node, path: string, k: nat) {
    LastSlash(path, k) && path[0] == '/' && k + 1 < |path| && k < PARENT_MAX &&
    var d := Walk(t, root, Components(path[..k]));
    d != null && d in t && d.isDir && Find(t[d], Clipped(path[k + 1..])) == null
  }

  /** Tree `t'` is `t` with `node` created at that place. */
  ghost predicate CreatedAt(t: Tree, t': Tree, root: Node, path: string, k: nat, node: Node) {
    RoomAt(t, root, path, k) && node.name == Clipped(path[k + 1..]) &&
    t' == Added(t, Walk(t, root, Components(path[..k])), node)
  }

  lemma OneLastSlash(path: string, j: nat, k: nat)
    requires LastSlash(path, j) && LastSlash(path, k)
    ensures j == k
  {
  }

  /** Every descriptor in use refers to a node of the tree. */
  ghost predicate FdsOk(fds: seq<Fd>, t: Tree) {
    |fds| == MAX_FDS && forall i :: 0 <= i < MAX_FDS && fds[i].used ==> fds[i].node != null && fds[i].node in t
  }

  lemma FdsKept(fds: seq<Fd>, t: Tree, t': Tree)
    requires FdsOk(fds, t) && t.Keys <= t'.Keys
    ensures FdsOk(fds, t')
  {
  }

  /** First-child and next-sibling links that spell out the child lists of a tree. */
  ghost predicate Spells(t: Tree, first: map<Node, Node?>, next: map<Node, Node?>) {
    && t.Keys <= first.Keys && t.Keys <= next.Keys
    && (forall n :: n in t ==> first[n] == After(t[n], -1))
    && (forall n, i :: n in t && 0 <= i < |t[n]| ==> t[n][i] in t && next[t[n][i]] == After(t[n], i))
  }

  /** Linking a new node in front of its parent's list spells out the tree with the node added. */
  lemma SpellsAdded(t: Tree, first: map<Node, Node?>, next: map<Node, Node?>, d: Node, c: Node, nx: Node?)
    requires Spells(t, first, next) && d in t && c !in t && nx == first[d]
    ensures Spells(Added(t, d, c), first[d := c][c := null], next[c := nx])
  {
    var t' := Added(t, d, c);
    forall n, i | n in t' && 0 <= i < |t'[n]|
      ensures t'[n][i] in t' && next[c := nx][t'[n][i]] == After(t'[n], i)
    {
      if n == d && i > 0 {
        assert t'[d][i] == t[d][i - 1] && After(t'[d], i) == After(t[d], i - 1);
      }
    }
  }
}
