/** The virtual file system over the in-memory one (kernel/fs/vfs.c, kernel/fs/ramfs.c): nodes, files and
    the descriptor table, changed in place. Every call does what FileRuns says. */
module FileSystem {
  import opened Words
  import opened Paths
  import opened Ramfs
  import opened FileTree
  import opened FileRuns

  /** The file behind the descriptor went from `s` to `s'` by a write to a zero-extended sequence. */
  ghost predicate Spliced(s: Fs, s': Fs, fd: int, buf: seq<byte>) {
    Usable(s, fd) &&
    var w := s.fds[fd];
    w.node in s'.bytes && s'.bytes[w.node] == Splice(s.bytes[w.node], w.offset, buf)
  }

  /** The payload is valid and holds these bytes. */
  ghost predicate FileIs(f: File, c: seq<byte>)
    reads f, f.data
  {
    f.Valid() && f.Contents() == c
  }

  lemma FileFacts(f: File, c: seq<byte>)
    ensures FileIs(f, c) ==> f.Valid() && f.Contents() == c && f.size == |c|
    ensures f.Valid() ==> FileIs(f, f.Contents())
  {
  }

  /** Every plain file with a payload has an entry in `b`, which is its contents; payloads share neither
      objects nor buffers, all of which are in `files`. */
  ghost predicate FilesOk(t: Tree, b: map<Node, seq<byte>>, files: set<object>)
    reads files
  {
    && (forall n :: n in b ==> n in t && n.file != null) && (forall n :: n in t && n.file != null ==> n in b)
    && (forall n :: n in b ==>
      n.file in files && !n.isDir && (n.file.data != null ==> n.file.data in files) && FileIs(n.file, b[n]))
    && (forall m, n :: m in b && n in b && m != n ==>
      m.file != n.file && (m.file.data != null ==> m.file.data != n.file.data))
  }

  /** The same of every file but that of `node`, whose objects are not in `rest`. */
  ghost predicate OthersOk(t: Tree, b: map<Node, seq<byte>>, rest: set<object>, node: Node)
    reads rest
  {
    && (forall n :: n in b ==> n in t && n.file != null) && (forall n :: n in t && n.file != null ==> n in b)
    && (forall n :: n in b && n != node ==>
          n.file in rest && !n.isDir && (n.file.data != null ==> n.file.data in rest) && FileIs(n.file, b[n]))
    && (forall m, n :: m in b && n in b && m != n && m != node && n != node ==>
          m.file != n.file && (m.file.data != null ==> m.file.data != n.file.data))
  }

  /** The objects of all files but that of `node`. */
  ghost function Rest(files: set<object>, f: File): set<object>
    reads f
  {
    files - {f} - (if f.data != null then {f.data} else {})
  }

  lemma TakeOut(t: Tree, b: map<Node, seq<byte>>, files: set<object>, node: Node)
    requires FilesOk(t, b, files) && node in b
    ensures node.file != null && node.file in files && !node.isDir && node in t &&
            (node.file.data != null ==> node.file.data in files)
    ensures OthersOk(t, b, Rest(files, node.file), node) && FileIs(node.file, b[node])
  {
    hide FileIs;
  }

  lemma PutBack(t: Tree, b: map<Node, seq<byte>>, rest: set<object>, files: set<object>, node: Node, c: seq<byte>)
    requires OthersOk(t, b, rest, node) && node in b && node.file != null && !node.isDir && node.file !in rest &&
             FileIs(node.file, c)
    requires node.file.data != null ==> node.file.data !in rest && node.file.data in files
    requires rest <= files && node.file in files
    ensures FilesOk(t, b[node := c], files)
  {
    hide FileIs;
  }

  class Vfs {
    var root: Node?
    var fds: seq<Fd>
    ghost var tree: Tree
    /** The contents of every file. */
    ghost var bytes: map<Node, seq<byte>>
    /** The payloads and their buffers. */
    ghost var files: set<object>

    /** The child lists in memory spell out the tree. */
    ghost predicate ListsOk()
      reads this`tree, tree.Keys
    {
      forall n :: n in tree ==>
        && n.children == After(tree[n], -1)
        && forall i :: 0 <= i < |tree[n]| && tree[n][i] in tree ==> tree[n][i].next == After(tree[n], i)
    }

    ghost predicate Valid()
      reads this, tree.Keys, files
    {
      && (root != null ==> root in tree) && TreeOk(tree) && ListsOk() && FdsOk(fds, tree) && FilesOk(tree, bytes, files)
      && this !in files && forall n :: n in tree ==> n !in files
    }

    /** Everything the file system is made of. */
    ghost function Repr(): set<object>
      reads this
    {
      var nodes: set<object> := tree.Keys;
      {this} + nodes + files
    }

    /** The payloads of all files. */
    ghost function Payloads(): set<File>
      reads this
    {
      set n | n in bytes && n.file != null :: n.file
    }

    lemma PayloadsInRepr()
      requires Valid()
      ensures forall f :: f in Payloads() ==> f in Repr()
    {
    }

    /** What clients see. */
    ghost function State(): Fs
      reads this
    {
      Fs(tree, fds, bytes)
    }

    /** What a path leads to. */
    ghost function Target(path: string): Node?
      reads this
    {
      TargetIn(tree, root, path)
    }

    lemma StateIsSound()
      requires Valid()
      ensures Sound(State())
    {
    }

    /** vfs_init, and the root node of ramfs_init. */
    constructor ()
      ensures Valid() && fresh(Repr()) && root != null && root.isDir
      ensures State() == Fs(map[root := []], fds, map[]) && forall i :: 0 <= i < MAX_FDS ==> !fds[i].used
    {
      var r := new Node("/", true, null);
      root := r;
      fds := seq(MAX_FDS, _ => Fd(null, 0, false));
      tree, bytes, files := map[r := []], map[], {};
    }

    /** ramfs_lookup. */
    method Lookup(dir: Node, name: string) returns (r: Node?)
      requires Valid() && dir in tree
      ensures r == if dir.isDir then Find(tree[dir], name) else null
    {
      if !dir.isDir { return null; }
      r := dir.children;
      ghost var i := 0;
      ghost var cs := tree[dir];
      assert cs[0..] == cs;
      while r != null
        invariant 0 <= i <= |cs| && r == (if i < |cs| then cs[i] else null) && Find(cs, name) == Find(cs[i..], name)
        decreases |cs| - i
      {
        assert cs[i] in cs;
        if r.name == name { return; }
        r := r.next;
        assert cs[i..][1..] == cs[i + 1..];
        i := i + 1;
      }
    }

    /** vfs_resolve. */
    method Resolve(path: string) returns (r: Node?)
      requires Valid()
      ensures r == Target(path) && (r != null ==> r in tree)
    {
      if root == null { return null; }
      WalkStays(tree, root, Components(path));
      if path == "/" { return root; }
      r := root;
      var pos := 0;
      assert path[0..] == path;
      while true
        invariant pos <= |path| && r != null && r in tree && Walk(tree, r, Components(path[pos..])) == Target(path)
        decreases |path| - pos
      {
        var found, comp, next := NextComponent(path, pos);
        if !found { return; }
        if !r.isDir { return null; }
        FindIs(tree[r], comp);
        r := Lookup(r, comp);
        if r == null { return; }
        pos := next;
      }
    }

    /** vfs_readdir: entry `index` of the directory's list, newest first. */
    method Readdir(path: string, index: nat) returns (r: Option<(string, bool)>)
      requires Valid()
      ensures r.Some? <==>
                Target(path) != null && Target(path).isDir && Target(path) in tree && index < |tree[Target(path)]|
      ensures r.Some? ==> r.value == (tree[Target(path)][index].name, tree[Target(path)][index].isDir)
    {
      var dir := Resolve(path);
      if dir == null || !dir.isDir { return None; }
      ghost var cs := tree[dir];
      var c, i := dir.children, 0;
      while c != null
        invariant i <= |cs| && i <= index && c == if i < |cs| then cs[i] else null
        decreases |cs| - i
      {
        assert cs[i] in cs;
        if i == index { return Some((c.name, c.isDir)); }
        c, i := c.next, i + 1;
      }
      r := None;
    }

    /** resolve_parent: the node of the path up to the last slash (position `k`), and the clipped name after it. */
    method ResolveParent(path: string) returns (parent: Node?, leaf: string, ghost k: nat)
      requires Valid()
      ensures path == [] || path[0] != '/' ==> parent == null
      ensures path != [] && path[0] == '/' ==> LastSlash(path, k) && leaf == Clipped(path[k + 1..])
      ensures path != [] && path[0] == '/' ==>
                parent == if leaf == [] || k >= PARENT_MAX then null else Target(path[..k])
      ensures parent != null ==> parent in tree
    {
      if path == [] || path[0] != '/' { return null, [], 0; }
      var last := LastSlashOf(path);
      k := last;
      leaf := Clipped(path[last + 1..]);
      if leaf == [] { return null, leaf, k; }
      if last == 0 {
        assert path[..0] == [] && Components([]) == [];
        return root, leaf, k;
      }
      if last >= PARENT_MAX { return null, leaf, k; }
      parent := Resolve(path[..last]);
    }

    /** ramfs_create with alloc_node: `mem` says whether the node can be allocated, `payload` whether the
        payload of a plain file can. */
    method Create(parent: Node, name: string, isDir: bool, mem: bool, payload: bool) returns (node: Node?)
      requires Valid() && parent in tree && |name| < NAME_MAX
      modifies this`tree, this`bytes, this`files, parent`children
      ensures Valid() && fresh(Repr() - old(Repr()))
      ensures node == null <==> !parent.isDir || Find(old(tree)[parent], name) != null || !mem
      ensures node == null ==> State() == old(State())
      ensures node != null ==>
                fresh(node) && node.name == name && node.isDir == isDir && (node.file != null <==> !isDir && payload)
      ensures node != null ==> tree == Added(old(tree), parent, node) && bytes == WithNew(old(bytes), node)
      ensures node != null && node.file != null ==> fresh(node.file)
    {
      hide ListsOk, FilesOk, FdsOk;
      if !parent.isDir { return null; }
      var existing := Lookup(parent, name);
      if existing != null { return null; }
      if !mem { return null; }
      node := AllocNode(name, isDir, payload);
      AddedIsOk(tree, parent, node);
      Link(parent, node);
    }

    /** alloc_node, with an empty payload for a plain file if memory allows. */
    method AllocNode(name: string, isDir: bool, payload: bool) returns (node: Node)
      ensures fresh(node) && node.name == name && node.isDir == isDir && node.children == null &&
              (node.file != null <==> !isDir && payload)
      ensures node.file != null ==>
                fresh(node.file) && node.file.Valid() && node.file.data == null && node.file.size == 0
    {
      var file: File? := null;
      if !isDir && payload { file := new File(); }
      node := new Node(name, isDir, file);
    }

    /** Puts a new node, with an empty payload if any, at the head of its parent's list. */
    method Link(parent: Node, node: Node)
      requires Valid() && parent in tree && node !in tree && node !in files && node.children == null &&
               TreeOk(Added(tree, parent, node))
      requires node.file != null ==>
                 !node.isDir && node.file.Valid() && node.file !in files && node.file.data == null &&
                 node.file.size == 0
      modifies this`tree, this`bytes, this`files, parent`children, node`next
      ensures Valid() && tree == Added(old(tree), parent, node) && bytes == WithNew(old(bytes), node)
      ensures files == if node.file != null then old(files) + {node.file} else old(files)
    {
      hide TreeOk, ListsOk, FdsOk, FilesOk, Spells;
      ghost var t := tree;
      Relink(parent, node);
      FilesAfterAdding(t, bytes, files, parent, node);
      bytes := WithNew(bytes, node);
      if node.file != null { files := files + {node.file}; }
      FdsKept(fds, t, tree);
    }

    /** The list part. */
    method Relink(parent: Node, node: Node)
      requires TreeOk(tree) && ListsOk() && parent in tree && node !in tree && node.children == null
      modifies this`tree, parent`children, node`next
      ensures ListsOk() && tree == Added(old(tree), parent, node)
    {
      hide TreeOk, ListsOk, Spells;
      ghost var t := tree;
      ghost var first: map<Node, Node?> := map n: Node | n in t :: n.children;
      ghost var next: map<Node, Node?> := map n: Node | n in t :: n.next;
      ListFacts(first, next);
      node.next := parent.children;
      parent.children := node;
      SpellsAdded(t, first, next, parent, node, node.next);
      first, next := first[parent := node][node := null], next[node := node.next];
      tree := Added(t, parent, node);
      Relinked(first, next);
    }

    /** The lists in memory, read off as maps, spell out the tree. */
    lemma ListFacts(first: map<Node, Node?>, next: map<Node, Node?>)
      requires TreeOk(tree) && ListsOk()
      requires first == (map n | n in tree :: n.children) && next == (map n | n in tree :: n.next)
      ensures Spells(tree, first, next)
    {
    }

    lemma Relinked(first: map<Node, Node?>, next: map<Node, Node?>)
      requires first.Keys == next.Keys == tree.Keys && Spells(tree, first, next)
      requires forall n :: n in tree ==> n.children == first[n] && n.next == next[n]
      ensures ListsOk()
    {
    }

    /** vfs_mkdir and vfs_create_file. A success makes the path lead to the new node exactly when the
        name after its last slash has at most 63 characters; every path that led somewhere leads
        there still. */
    method CreateAt(path: string, isDir: bool, mem: bool, payload: bool) returns (node: Node?)
      requires Valid()
      modifies this`tree, this`bytes, this`files, tree.Keys
      ensures Valid() && root == old(root) && fresh(Repr() - old(Repr()))
      ensures node != null ==> fresh(node) && node in tree && (node.file != null ==> fresh(node.file))
      ensures node != null ==> node.isDir == isDir && (node.file != null <==> !isDir && payload)
      ensures Creates(root, old(State()), path, isDir, mem, payload, node, State())
      ensures node != null ==> exists k: nat ::
                CreatedAt(old(tree), tree, root, path, k, node) &&
                (Target(path) == node <==> |path| - (k + 1) < NAME_MAX)
      ensures root != null ==>
                forall cs: seq<string> :: Walk(old(tree), root, cs) != null ==>
                  Walk(tree, root, cs) == Walk(old(tree), root, cs)
    {
      hide FilesOk, ListsOk, FdsOk;
      var parent, leaf, k := ResolveParent(path);
      ghost var t := tree;
      CanCreateIff(t, root, path, parent, leaf, k);
      if parent == null || !parent.isDir { return null; }
      node := Create(parent, leaf, isDir, mem, payload);
      if node == null { return; }
      forall cs: seq<string> | Walk(t, root, cs) != null ensures Walk(tree, root, cs) == Walk(t, root, cs) {
        WalkKept(t, parent, node, root, cs);
      }
      TargetOfNew(t, root, parent, node, path, k);
      assert CreatedAt(t, tree, root, path, k, node);
    }

    /** alloc_fd: the lowest descriptor not in use. */
    method AllocFd() returns (fd: int)
      requires Valid()
      ensures fd >= 0 ==> fd < MAX_FDS && !fds[fd].used && forall i :: 0 <= i < fd ==> fds[i].used
      ensures fd < 0 ==> fd == -1 && forall i :: 0 <= i < MAX_FDS ==> fds[i].used
    {
      fd := 0;
      while fd < MAX_FDS
        invariant 0 <= fd <= MAX_FDS && forall i :: 0 <= i < fd ==> fds[i].used
      {
        if !fds[fd].used { return; }
        fd := fd + 1;
      }
      fd := -1;
    }

    /** The first half of vfs_open: resolve, or create if asked to. */
    method Locate(path: string, creat: bool, mem: bool, payload: bool, ghost c: Call) returns (node: Node?)
      requires Valid() && c.OpenCall? && c.path == path && c.creat == creat && c.mem == mem && c.payload == payload
      modifies this`tree, this`bytes, this`files, tree.Keys
      ensures Valid() && root == old(root) && fresh(Repr() - old(Repr())) && (node != null ==> node in tree)
      ensures Locates(root, old(State()), c, node, State()) && State() == Between(old(State()), State(), node)
      ensures node != null && node.file != null ==> fresh(node.file) || (node in old(bytes) && bytes == old(bytes))
    {
      hide CreatedAt, RoomAt, Walk, TreeOk, ListsOk, FilesOk, CanCreate;
      node := Resolve(path);
      if node != null { FileOf(node); }
      if node == null && creat {
        node := CreateAt(path, false, mem, payload);
      }
    }

    /** The second half: take the lowest free descriptor, at the start or the end, and truncate if asked to. */
    method Attach(node: Node, trunc: bool, append: bool) returns (fd: int)
      requires Valid() && node in tree
      modifies this`fds, this`bytes, node.file
      ensures Valid() && Attaches(old(State()), node, trunc, append, fd, State())
      ensures node.file != null ==> node.file.data == old(node.file.data)
    {
      hide TreeOk, ListsOk, FilesOk;
      fd := AllocFd();
      if fd < 0 { return; }
      FileOf(node);
      fds := fds[fd := Fd(node, if append && node.file != null then node.file.size else 0, true)];
      if trunc && node.file != null { Empty(node); }
    }

    /** What is known of the file of a node. */
    lemma FileOf(node: Node)
      requires FilesOk(tree, bytes, files) && node in tree
      ensures node in bytes <==> node.file != null
      ensures node.file != null ==>
                node.file.Valid() && node.file.Contents() == bytes[node] && node.file.size == |bytes[node]| &&
                node.file in files && !node.isDir
      ensures node.file != null && node.file.data != null ==> node.file.data in files
    {
      if node.file != null { FileFacts(node.file, bytes[node]); }
    }

    lemma DescribesFile(fd: int)
      requires Valid()
      ensures Usable(State(), fd) <==> FileBehind(fd) != null
      ensures var f := FileBehind(fd); f != null ==> f in files && (f.data != null ==> f.data in files)
    {
    }

    /** Resets the size of a file. */
    method Empty(node: Node)
      requires FilesOk(tree, bytes, files) && this !in files && node in tree && node.file != null
      modifies this`bytes, node.file
      ensures FilesOk(tree, bytes, files) && bytes == old(bytes)[node := []] && node.file.data == old(node.file.data)
    {
      hide FilesOk, OthersOk, FileIs;
      FileOf(node);
      TakeOut(tree, bytes, files, node);
      ghost var rest := Rest(files, node.file);
      node.file.Truncate();
      FileFacts(node.file, []);
      PutBack(tree, bytes, rest, files, node, []);
      bytes := bytes[node := []];
    }

    /** vfs_open; `mem` and `payload` are the outcome of the allocations a creation makes. */
    method Open(path: string, creat: bool, trunc: bool, append: bool, mem: bool, payload: bool)
      returns (fd: int, ghost node: Node?)
      requires Valid()
      modifies this`tree, this`bytes, this`files, this`fds, tree.Keys, Payloads()
      ensures Valid() && root == old(root) && fresh(Repr() - old(Repr()))
      ensures Does(root, old(State()), OpenCall(path, creat, trunc, append, mem, payload), Reply(fd, [], node), State())
      ensures forall n :: n in old(bytes) && n.file != null ==> n.file.data == old(n.file.data)
    {
      hide TreeOk, ListsOk, FdsOk, Walk, Locates, Attaches;
      var n := Locate(path, creat, mem, payload, OpenCall(path, creat, trunc, append, mem, payload));
      node := n;
      if n == null { return -1, node; }
      ghost var t := State();
      fd := Attach(n, trunc, append);
      AttachKeepsTree(t, n, trunc, append, fd, State());
    }

    /** vfs_close. */
    method Close(fd: int) returns (ok: bool)
      requires Valid()
      modifies this`fds
      ensures Valid() && Does(root, old(State()), CloseCall(fd), Reply(if ok then 0 else -1, [], null), State())
      ensures ok <==> 0 <= fd < MAX_FDS && old(fds)[fd].used
      ensures fds == if ok then old(fds)[fd := Fd(null, old(fds)[fd].offset, false)] else old(fds)
    {
      hide TreeOk, ListsOk, FilesOk;
      if fd < 0 || fd >= MAX_FDS || !fds[fd].used { return false; }
      fds := fds[fd := fds[fd].(used := false, node := null)];
      ok := true;
    }

    /** vfs_read: the next bytes of the file; the offset moves past them. Nothing for a closed descriptor
        or a directory. */
    method Read(fd: int, n: nat) returns (r: Option<seq<byte>>)
      requires Valid()
      modifies this`fds
      ensures Valid() && (r.Some? <==> Usable(old(State()), fd))
      ensures var reply := Reply(if r.Some? then |r.value| else -1, r.GetOr([]), null);
              Does(root, old(State()), ReadCall(fd, n), reply, State())
      ensures r.Some? ==> fds == old(fds)[fd := old(fds)[fd].(offset := old(fds)[fd].offset + |r.value|)]
    {
      hide TreeOk, ListsOk, FilesOk;
      if fd < 0 || fd >= MAX_FDS || !fds[fd].used { return None; }
      var node := fds[fd].node;
      FileOf(node);
      if node.file == null { return None; }
      var data := node.file.Read(fds[fd].offset, n);
      fds := fds[fd := fds[fd].(offset := fds[fd].offset + |data|)];
      r := Some(data);
    }

    /** vfs_write at the descriptor's offset, which moves past what was written. At or before the end of
        the file, and on a file with nothing but zeros beyond its end, it splices. */
    method Write(fd: int, buf: seq<byte>, mem: bool) returns (n: int)
      requires Valid() && (Usable(State(), fd) ==> fds[fd].offset + |buf| < TWO31)
      modifies this`fds, this`bytes, this`files
      modifies if FileBehind(fd) != null then {FileBehind(fd)} else {}
      modifies if FileBehind(fd) != null then {FileBehind(fd).data} else {}
      ensures Valid() && fresh(Repr() - old(Repr()))
      ensures Does(root, old(State()), WriteCall(fd, buf, mem), Reply(n, [], null), State())
      ensures n < 0 ==> n == -1 && fds == old(fds) && bytes == old(bytes)
      ensures n >= 0 ==> n == |buf| && fds == old(fds)[fd := old(fds)[fd].(offset := old(fds)[fd].offset + n)]
      ensures n >= 0 && old(fds)[fd].offset <= |old(bytes)[old(fds)[fd].node]| ==>
                Spliced(old(State()), State(), fd, buf)
      ensures n >= 0 <==>
                old(FileBehind(fd)) != null && (mem || old(fds)[fd].offset + |buf| <= old(FileBehind(fd).Capacity()))
      ensures n >= 0 ==>
                var f, off := old(FileBehind(fd)), old(fds)[fd].offset;
                forall i: nat :: f.At(i) == if off <= i < off + n then buf[i - off] else old(FileBehind(fd).At(i))
      ensures n >= 0 && old(FileBehind(fd).Clean()) ==>
                old(FileBehind(fd)).Clean() && Spliced(old(State()), State(), fd, buf)
    {
      hide TreeOk, ListsOk, FilesOk, Splice, Overwrites;
      if fd < 0 || fd >= MAX_FDS || !fds[fd].used { return -1; }
      var node := fds[fd].node;
      FileOf(node);
      if node.file == null { return -1; }
      n := WriteFile(node, fds[fd].offset, buf, mem);
      if n > 0 {
        fds := fds[fd := fds[fd].(offset := fds[fd].offset + n)];
      }
    }

    /** The file a descriptor in use refers to. */
    ghost function FileBehind(fd: int): File?
      reads this
    {
      if 0 <= fd < |fds| && fds[fd].used && fds[fd].node != null then fds[fd].node.file else null
    }

    /** The write to the file of a node. */
    method WriteFile(node: Node, off: nat, buf: seq<byte>, mem: bool) returns (n: int)
      requires FilesOk(tree, bytes, files) && this !in files && node in bytes && node.file != null &&
               off + |buf| < TWO31
      modifies this`bytes, this`files, node.file, node.file.data
      ensures FilesOk(tree, bytes, files) && fresh(files - old(files)) && old(files) <= files
      ensures n == if off + |buf| <= old(node.file.Capacity()) || mem then |buf| else -1
      ensures n < 0 ==> bytes == old(bytes)
      ensures n >= 0 ==> bytes.Keys == old(bytes).Keys && bytes == old(bytes)[node := bytes[node]]
      ensures n >= 0 ==> Overwrites(old(bytes)[node], off, buf, bytes[node])
      ensures n >= 0 && (old(node.file.Clean()) || off <= |old(bytes)[node]|) ==>
                bytes[node] == Splice(old(bytes)[node], off, buf)
      ensures n >= 0 && old(node.file.Clean()) ==> node.file.Clean()
      ensures n >= 0 ==>
                forall i: nat :: node.file.At(i) == if off <= i < off + n then buf[i - off] else old(node.file.At(i))
    {
      hide FilesOk, OthersOk, FileIs, Splice, Overwrites;
      TakeOut(tree, bytes, files, node);
      FileFacts(node.file, bytes[node]);
      ghost var rest := Rest(files, node.file);
      n := node.file.Write(off, buf, mem);
      ghost var c := node.file.Contents();
      FileFacts(node.file, c);
      if node.file.data != null { files := files + {node.file.data}; }
      PutBack(tree, bytes, rest, files, node, c);
      bytes := bytes[node := c];
    }

    /** The read loop of cmd_cat, with any positive chunk sizes: it ends, having read the rest of the file. */
    method ReadAll(fd: int, chunk: nat -> nat) returns (out: seq<byte>)
      requires Valid() && Usable(State(), fd) && forall k: nat :: chunk(k) > 0
      modifies this`fds
      ensures Valid()
      ensures var b, o := bytes[old(fds)[fd].node], old(fds)[fd].offset;
              && out == (if o <= |b| then b[o..] else [])
              && fds == old(fds)[fd := old(fds)[fd].(offset := if o <= |b| then |b| else o)]
    {
      hide TreeOk, ListsOk, FilesOk;
      ghost var start, all := fds[fd].offset, bytes[fds[fd].node];
      out := [];
      var k := 0;
      while true
        invariant Valid() && start <= fds[fd].offset && (fds[fd].offset <= |all| || fds[fd].offset == start)
        invariant fds == old(fds)[fd := old(fds)[fd].(offset := fds[fd].offset)]
        invariant out == if start <= |all| then all[start..fds[fd].offset] else []
        decreases |all| - fds[fd].offset
      {
        var r := Read(fd, chunk(k));
        if r.value == [] { break; }
        out := out + r.value;
        k := k + 1;
      }
    }

    method Perform(c: Call) returns (code: int, data: seq<byte>, ghost r: Reply)
      requires Valid() && (c.WriteCall? && Usable(State(), c.fd) ==> fds[c.fd].offset + |c.buf| < TWO31)
      modifies Repr()
      ensures Valid() && root == old(root) && fresh(Repr() - old(Repr()))
      ensures Does(root, old(State()), c, r, State()) && code == r.code && data == r.data
    {
      hide TreeOk, ListsOk, FilesOk, FdsOk, Creates, Locates, Attaches, Walk;
      data := [];
      match c
      case CreateCall(path, isDir, mem, payload) =>
        var node := CreateAt(path, isDir, mem, payload);
        code := if node != null then 0 else -1;
        r := Reply(code, data, node);
      case OpenCall(path, creat, trunc, append, mem, payload) =>
        ghost var node;
        PayloadsInRepr();
        code, node := Open(path, creat, trunc, append, mem, payload);
        r := Reply(code, data, node);
      case CloseCall(fd) =>
        var ok := Close(fd);
        code := if ok then 0 else -1;
        r := Reply(code, data, null);
      case ReadCall(fd, n) =>
        var b := Read(fd, n);
        code, data := if b.Some? then |b.value| else -1, b.GetOr([]);
        r := Reply(code, data, null);
      case WriteCall(fd, buf, mem) =>
        DescribesFile(fd);
        code := Write(fd, buf, mem);
        r := Reply(code, data, null);
    }

    /** Every run of calls on the nodes, files and descriptors in memory is a run on the tree, the table
        and the map from files to byte sequences. */
    method Run(cs: seq<Call>, ghost limit: nat)
      returns (codes: seq<int>, datas: seq<seq<byte>>, ghost trace: seq<Fs>, ghost rs: seq<Reply>)
      requires Valid() && Limited(State(), limit) && limit + Written(cs) < TWO31
      modifies Repr()
      ensures Valid() && root == old(root) && fresh(Repr() - old(Repr()))
      ensures IsRun(root, trace, cs, rs) && trace[0] == old(State()) && trace[|cs|] == State()
      ensures |codes| == |datas| == |cs| && forall i :: 0 <= i < |cs| ==>
                codes[i] == rs[i].code && datas[i] == rs[i].data
    {
      hide TreeOk, ListsOk, FilesOk, FdsOk, Does, Limited;
      codes, datas, trace, rs := [], [], [State()], [];
      var i := 0;
      while i < |cs|
        invariant i <= |cs| && Valid() && root == old(root) && fresh(Repr() - old(Repr()))
        invariant IsRun(root, trace, cs[..i], rs) && trace[0] == old(State()) && trace[i] == State()
        invariant |codes| == |datas| == i && forall j :: 0 <= j < i ==> codes[j] == rs[j].code && datas[j] == rs[j].data
        invariant Limited(State(), limit + Written(cs[..i]))
      {
        ghost var s := State();
        StateIsSound();
        WrittenGrows(cs, i + 1);
        assert cs[..i + 1][..i] == cs[..i];
        LimitFits(s, cs[i], limit + Written(cs[..i]));
        var code, data;
        ghost var r;
        code, data, r := Perform(cs[i]);
        StepKeepsLimit(root, s, cs[i], r, State(), limit + Written(cs[..i]));
        RunGrows(root, trace, cs[..i], rs, cs[i], r, State());
        assert cs[..i + 1] == cs[..i] + [cs[i]];
        codes, datas, trace, rs := codes + [code], datas + [data], trace + [State()], rs + [r];
        i := i + 1;
      }
      assert cs[..i] == cs;
    }
  }

  lemma CanCreateIff(t: Tree, root: Node?, path: string, parent: Node?, leaf: string, k: nat)
    requires root != null ==> root in t
    requires path == [] || path[0] != '/' ==> parent == null
    requires path != [] && path[0] == '/' ==> LastSlash(path, k) && leaf == Clipped(path[k + 1..])
    requires path != [] && path[0] == '/' ==>
               parent == if leaf == [] || k >= PARENT_MAX then null else TargetIn(t, root, path[..k])
    requires parent != null ==> parent in t
    ensures CanCreate(t, root, path) <==> parent != null && parent.isDir && Find(t[parent], leaf) == null
    ensures parent != null && parent.isDir && Find(t[parent], leaf) == null ==> RoomAt(t, root, path, k)
  {
    hide Walk, Components;
    if j: nat :| root != null && RoomAt(t, root, path, j) { OneLastSlash(path, j, k); }
    assert parent != null && parent.isDir && Find(t[parent], leaf) == null ==> RoomAt(t, root, path, k);
  }

  /** Attaching a descriptor adds no node. */
  lemma AttachKeepsTree(t: Fs, node: Node, trunc: bool, append: bool, code: int, s': Fs)
    requires Attaches(t, node, trunc, append, code, s')
    ensures s'.tree == t.tree
  {
  }

  lemma FilesAfterAdding(t: Tree, b: map<Node, seq<byte>>, files: set<object>, d: Node, node: Node)
    requires FilesOk(t, b, files) && d in t && node !in t
    requires node.file != null ==>
               !node.isDir && node.file.Valid() && node.file !in files && node.file.data == null && node.file.size == 0
    ensures FilesOk(Added(t, d, node), WithNew(b, node), if node.file != null then files + {node.file} else files)
  {
    assert node.file != null ==> node.file.Contents() == [];
  }

  /** The scan for the last slash in resolve_parent. */
  method LastSlashOf(path: string) returns (last: nat)
    requires path != [] && path[0] == '/'
    ensures LastSlash(path, last)
  {
    last := 0;
    var i := 0;
    while i < |path|
      invariant i <= |path| && last < |path| && path[last] == '/' && (i > 0 ==> last < i)
      invariant forall j :: last < j < i ==> path[j] != '/'
    {
      if path[i] == '/' { last := i; }
      i := i + 1;
    }
  }
}
