/** The file system as clients see it: a tree, a descriptor table, and a map from files to byte sequences;
    what each call does to them, and what holds over every run. */
module FileRuns {
  import opened Words
  import opened Paths
  import opened Ramfs
  import opened FileTree

  /** Tree, descriptors, and the contents of every file. */
  datatype Fs = Fs(tree: Tree, fds: seq<Fd>, bytes: map<Node, seq<byte>>)

  /** The calls. `mem`, and `payload` for the file part of a new node, say whether kmalloc succeeds. */
  datatype Call =
    | CreateCall(path: string, isDir: bool, mem: bool, payload: bool)
    | OpenCall(path: string, creat: bool, trunc: bool, append: bool, mem: bool, payload: bool)
    | CloseCall(fd: int)
    | ReadCall(fd: int, n: nat)
    | WriteCall(fd: int, buf: seq<byte>, mem: bool)

  /** The value returned, the bytes read, and the node a creation or an open arrived at. */
  datatype Reply = Reply(code: int, data: seq<byte>, node: Node?)

  ghost function TargetIn(t: Tree, root: Node?, path: string): Node? {
    if root == null then null else Walk(t, root, Components(path))
  }

  ghost predicate CanCreate(t: Tree, root: Node?, path: string) {
    root != null && exists k: nat :: RoomAt(t, root, path, k)
  }

  /** A new, empty file in the map; directories and files without payload have no entry. */
  ghost function WithNew(b: map<Node, seq<byte>>, node: Node): map<Node, seq<byte>> {
    if node.file != null then b[node := []] else b
  }

  ghost predicate Creates(root: Node?, s: Fs, path: string, isDir: bool, mem: bool, payload: bool, node: Node?,
                          s': Fs) {
    && (node != null <==> mem && CanCreate(s.tree, root, path))
    && (node == null ==> s' == s)
    && (node != null ==>
          && node !in s.tree && node.isDir == isDir && (node.file != null <==> !isDir && payload)
          && s'.fds == s.fds && s'.bytes == WithNew(s.bytes, node)
          && root != null && exists k: nat :: CreatedAt(s.tree, s'.tree, root, path, k, node))
  }

  /** The first half of an open: the node the path leads to, or a new one. */
  ghost predicate Locates(root: Node?, s: Fs, c: Call, node: Node?, t: Fs)
    requires c.OpenCall?
  {
    var n := TargetIn(s.tree, root, c.path);
    if n != null || !c.creat then node == n && t == s
    else Creates(root, s, c.path, false, c.mem, c.payload, node, t)
  }

  ghost predicate LowestFree(fds: seq<Fd>, fd: int) {
    0 <= fd < |fds| && !fds[fd].used && forall i :: 0 <= i < fd ==> fds[i].used
  }

  ghost predicate AllUsed(fds: seq<Fd>) { forall i :: 0 <= i < |fds| ==> fds[i].used }

  /** The second half: the lowest free descriptor, at the start or the end; the file emptied if asked to. */
  ghost predicate Attaches(t: Fs, node: Node, trunc: bool, append: bool, code: int, s': Fs) {
    if AllUsed(t.fds) then code == -1 && s' == t
    else
      && LowestFree(t.fds, code) && s'.tree == t.tree
      && s'.fds == t.fds[code := Fd(node, if append && node in t.bytes then |t.bytes[node]| else 0, true)]
      && s'.bytes == if trunc && node in t.bytes then t.bytes[node := []] else t.bytes
  }

  /** The state between the two halves. */
  ghost function Between(s: Fs, s': Fs, node: Node?): Fs {
    Fs(s'.tree, s.fds, if node != null && node !in s.tree then WithNew(s.bytes, node) else s.bytes)
  }

  ghost predicate Open(fds: seq<Fd>, fd: int) { 0 <= fd < |fds| && fds[fd].used }

  /** The descriptor refers to a file. */
  ghost predicate Usable(s: Fs, fd: int) { Open(s.fds, fd) && s.fds[fd].node != null && s.fds[fd].node in s.bytes }

  /** The bytes from `off` on, `n` of them or as many as there are. */
  function Slice(b: seq<byte>, off: nat, n: nat): seq<byte> {
    if off >= |b| then [] else b[off..if off + n > |b| then |b| else off + n]
  }

  ghost function Moved(fds: seq<Fd>, fd: int, n: nat): seq<Fd>
    requires 0 <= fd < |fds|
  {
    fds[fd := fds[fd].(offset := fds[fd].offset + n)]
  }

  /** What a call may do. */
  ghost predicate Does(root: Node?, s: Fs, c: Call, r: Reply, s': Fs) {
    match c
    case CreateCall(path, isDir, mem, payload) =>
      Creates(root, s, path, isDir, mem, payload, r.node, s') && r.code == if r.node != null then 0 else -1
    case OpenCall(_, _, trunc, append, _, _) =>
      var t := Between(s, s', r.node);
      && Locates(root, s, c, r.node, t)
      && if r.node == null then r.code == -1 && s' == t else Attaches(t, r.node, trunc, append, r.code, s')
    case CloseCall(fd) =>
      if Open(s.fds, fd) then r.code == 0 && s' == s.(fds := s.fds[fd := s.fds[fd].(used := false, node := null)])
      else r.code == -1 && s' == s
    case ReadCall(fd, n) =>
      if Usable(s, fd) then
        && r.data == Slice(s.bytes[s.fds[fd].node], s.fds[fd].offset, n)
        && r.code == |r.data| && s' == s.(fds := Moved(s.fds, fd, |r.data|))
      else r.code == -1 && s' == s
    case WriteCall(fd, buf, mem) =>
      if r.code < 0 then r.code == -1 && s' == s && !(mem && Usable(s, fd))
      else
        && Usable(s, fd) && r.code == |buf| && s'.tree == s.tree && s'.fds == Moved(s.fds, fd, |buf|)
        && var n := s.fds[fd].node;
           n in s'.bytes && s'.bytes == s.bytes[n := s'.bytes[n]] &&
           Overwrites(s.bytes[n], s.fds[fd].offset, buf, s'.bytes[n])
  }

  // ---------------------------------------------------------------- writes and offsets

  /** No descriptor stands beyond the end of its file. */
  ghost predicate OffsetsWithin(s: Fs) {
    forall fd :: 0 <= fd < |s.fds| && Usable(s, fd) ==> s.fds[fd].offset <= |s.bytes[s.fds[fd].node]|
  }

  /** Every open descriptor refers to a node of the tree, and so does every entry of the map. */
  ghost predicate Sound(s: Fs) {
    && FdsOk(s.fds, s.tree) && TreeOk(s.tree) && s.bytes.Keys <= s.tree.Keys
  }

  lemma CreatesKeeps(root: Node?, s: Fs, path: string, isDir: bool, mem: bool, payload: bool, node: Node?, s': Fs)
    requires Sound(s) && Creates(root, s, path, isDir, mem, payload, node, s')
    ensures Sound(s') && s'.fds == s.fds && s.tree.Keys <= s'.tree.Keys
    ensures forall n :: n in s.bytes ==> n in s'.bytes && s'.bytes[n] == s.bytes[n]
    ensures OffsetsWithin(s) ==> OffsetsWithin(s')
  {
    if node != null {
      var k: nat :| CreatedAt(s.tree, s'.tree, root, path, k, node);
      AddedIsOk(s.tree, Walk(s.tree, root, Components(path[..k])), node);
      hide TreeOk, CreatedAt, Creates;
      NewFileIsUnopened(s, node, s');
    }
  }

  lemma NewFileIsUnopened(s: Fs, node: Node, s': Fs)
    requires FdsOk(s.fds, s.tree) && node !in s.tree && s'.fds == s.fds && s'.bytes == WithNew(s.bytes, node)
    ensures OffsetsWithin(s) ==> OffsetsWithin(s')
  {
    if OffsetsWithin(s) {
      forall fd | 0 <= fd < |s.fds| && Usable(s', fd) ensures s.fds[fd].offset <= |s'.bytes[s.fds[fd].node]| {
        assert s.fds[fd].node != node && Usable(s, fd);
      }
    }
  }

  lemma LocatesKeeps(root: Node?, s: Fs, c: Call, node: Node?, t: Fs)
    requires Sound(s) && c.OpenCall? && Locates(root, s, c, node, t) && (root != null ==> root in s.tree)
    ensures Sound(t) && t.fds == s.fds && s.tree.Keys <= t.tree.Keys && (node != null ==> node in t.tree)
    ensures forall n :: n in s.bytes ==> n in t.bytes && t.bytes[n] == s.bytes[n]
    ensures OffsetsWithin(s) ==> OffsetsWithin(t)
  {
    var n := TargetIn(s.tree, root, c.path);
    if n != null || !c.creat {
      if n != null { WalkStays(s.tree, root, Components(c.path)); }
    } else {
      CreatesKeeps(root, s, c.path, false, c.mem, c.payload, node, t);
      if node != null {
        var k: nat :| CreatedAt(s.tree, t.tree, root, c.path, k, node);
      }
    }
  }

  /** Every call keeps the descriptors on nodes of the tree. */
  lemma StepKeepsSound(root: Node?, s: Fs, c: Call, r: Reply, s': Fs)
    requires Sound(s) && Does(root, s, c, r, s') && (root != null ==> root in s.tree)
    ensures Sound(s') && s.tree.Keys <= s'.tree.Keys
  {
    hide TreeOk;
    match c
    case CreateCall(path, isDir, mem, payload) => CreatesKeeps(root, s, path, isDir, mem, payload, r.node, s');
    case OpenCall(_, _, _, _, _, _) => LocatesKeeps(root, s, c, r.node, Between(s, s', r.node));
    case CloseCall(_) =>
    case ReadCall(_, _) =>
    case WriteCall(_, _, _) =>
  }

  /** Unless a call truncates, it leaves no descriptor beyond the end of its file. */
  lemma StepKeepsOffsets(root: Node?, s: Fs, c: Call, r: Reply, s': Fs)
    requires Sound(s) && Does(root, s, c, r, s') && OffsetsWithin(s) && (root != null ==> root in s.tree)
    requires c.OpenCall? ==> !c.trunc
    ensures OffsetsWithin(s')
  {
    hide TreeOk;
    match c
    case CreateCall(path, isDir, mem, payload) => CreatesKeeps(root, s, path, isDir, mem, payload, r.node, s');
    case OpenCall(_, _, _, _, _, _) => LocatesKeeps(root, s, c, r.node, Between(s, s', r.node));
    case CloseCall(_) =>
    case ReadCall(_, _) =>
    case WriteCall(fd, buf, _) =>
  }

  /** A truncating open of an existing file leaves a descriptor beyond the end exactly when it appends to a
      file that was not empty, or when another descriptor of the file is not at its start. */
  lemma TruncKeepsOffsetsIff(root: Node?, s: Fs, c: Call, r: Reply, s': Fs)
    requires Sound(s) && OffsetsWithin(s) && c.OpenCall? && c.trunc && Does(root, s, c, r, s')
    requires r.code >= 0 && r.node != null && r.node in s.bytes && TargetIn(s.tree, root, c.path) == r.node
    ensures OffsetsWithin(s') <==>
              && (c.append ==> s.bytes[r.node] == [])
              && (forall fd :: 0 <= fd < |s.fds| && s.fds[fd].used && s.fds[fd].node == r.node ==>
                s.fds[fd].offset == 0)
  {
    var n := r.node;
    assert Between(s, s', n) == s;
    assert s'.bytes == s.bytes[n := []] && !s.fds[r.code].used;
    assert Usable(s', r.code);
    if OffsetsWithin(s') {
      forall fd | 0 <= fd < |s.fds| && s.fds[fd].used && s.fds[fd].node == n ensures s.fds[fd].offset == 0 {
        assert fd != r.code && s'.fds[fd] == s.fds[fd] && Usable(s', fd);
      }
    } else {
      var fd :| 0 <= fd < |s'.fds| && Usable(s', fd) && s'.fds[fd].offset > |s'.bytes[s'.fds[fd].node]|;
      if fd != r.code {
        assert Usable(s, fd);
      }
    }
  }

  // ---------------------------------------------------------------- runs

  /** `trace` is a run of the calls `cs` with the answers `rs`. */
  ghost predicate IsRun(root: Node?, trace: seq<Fs>, cs: seq<Call>, rs: seq<Reply>) {
    && |trace| == |cs| + 1 && |rs| == |cs|
    && forall i, j :: 0 <= i < |cs| && j == i + 1 ==> Does(root, trace[i], cs[i], rs[i], trace[j])
  }

  lemma RunGrows(root: Node?, trace: seq<Fs>, cs: seq<Call>, rs: seq<Reply>, c: Call, r: Reply, s: Fs)
    requires IsRun(root, trace, cs, rs) && Does(root, trace[|cs|], c, r, s)
    ensures IsRun(root, trace + [s], cs + [c], rs + [r])
  {
    hide Does;
    var trace', cs', rs' := trace + [s], cs + [c], rs + [r];
    assert forall i, j :: 0 <= i < |cs'| && j == i + 1 ==> Does(root, trace'[i], cs'[i], rs'[i], trace'[j]);
  }

  lemma {:induction false} RunKeepsSound(root: Node?, trace: seq<Fs>, cs: seq<Call>, rs: seq<Reply>, i: nat)
    requires IsRun(root, trace, cs, rs) && Sound(trace[0]) && (root != null ==> root in trace[0].tree) && i < |trace|
    ensures Sound(trace[i]) && trace[0].tree.Keys <= trace[i].tree.Keys
  {
    if i > 0 {
      RunKeepsSound(root, trace, cs, rs, i - 1);
      StepKeepsSound(root, trace[i - 1], cs[i - 1], rs[i - 1], trace[i]);
    }
  }

  /** In runs without O_TRUNC no descriptor ever stands beyond the end of its file, so every write is a
      splice of the contents. */
  lemma {:induction false} WithoutTruncWritesSplice(root: Node?, trace: seq<Fs>, cs: seq<Call>, rs: seq<Reply>, i: nat)
    requires IsRun(root, trace, cs, rs) && Sound(trace[0]) && OffsetsWithin(trace[0]) &&
             (root != null ==> root in trace[0].tree)
    requires i < |trace| && forall j :: 0 <= j < i ==> cs[j].OpenCall? ==> !cs[j].trunc
    ensures OffsetsWithin(trace[i])
    ensures i < |cs| && cs[i].WriteCall? && rs[i].code >= 0 ==>
              Usable(trace[i], cs[i].fd) &&
              var s, n := trace[i], trace[i].fds[cs[i].fd].node;
              n in trace[i + 1].bytes && trace[i + 1].bytes[n] == Splice(s.bytes[n], s.fds[cs[i].fd].offset, cs[i].buf)
  {
    if i > 0 {
      WithoutTruncWritesSplice(root, trace, cs, rs, i - 1);
      RunKeepsSound(root, trace, cs, rs, i - 1);
      StepKeepsOffsets(root, trace[i - 1], cs[i - 1], rs[i - 1], trace[i]);
    }
    if i < |cs| && cs[i].WriteCall? && rs[i].code >= 0 {
      assert Does(root, trace[i], cs[i], rs[i], trace[i + 1]);
      var n := trace[i].fds[cs[i].fd].node;
      OverwriteIsSplice(trace[i].bytes[n], trace[i].fds[cs[i].fd].offset, cs[i].buf, trace[i + 1].bytes[n]);
    }
  }

  /** The call writes to file `n` or truncates it. */
  ghost predicate Touches(s: Fs, c: Call, r: Reply, n: Node) {
    match c
    case WriteCall(fd, _, _) => 0 <= fd < |s.fds| && s.fds[fd].node == n
    case OpenCall(_, _, trunc, _, _, _) => trunc && r.node == n
    case _ => false
  }

  /** Calls that do not touch a file leave its contents alone. */
  lemma StepKeepsOthers(root: Node?, s: Fs, c: Call, r: Reply, s': Fs, n: Node)
    requires Sound(s) && Does(root, s, c, r, s') && n in s.bytes && !Touches(s, c, r, n) &&
             (root != null ==> root in s.tree)
    ensures n in s'.bytes && s'.bytes[n] == s.bytes[n]
  {
    hide TreeOk;
    match c
    case CreateCall(path, isDir, mem, payload) => CreatesKeeps(root, s, path, isDir, mem, payload, r.node, s');
    case OpenCall(_, _, _, _, _, _) => LocatesKeeps(root, s, c, r.node, Between(s, s', r.node));
    case CloseCall(_) =>
    case ReadCall(_, _) =>
    case WriteCall(fd, buf, _) =>
  }

  /** Over any run whose calls do not touch a file its contents stay the same. */
  lemma {:induction false} UntouchedFileKeeps(root: Node?, trace: seq<Fs>, cs: seq<Call>, rs: seq<Reply>, i: nat,
                                              j: nat, n: Node)
    requires IsRun(root, trace, cs, rs) && Sound(trace[0]) && (root != null ==> root in trace[0].tree)
    requires i <= j < |trace| && n in trace[i].bytes
    requires forall k :: i <= k < j ==> !Touches(trace[k], cs[k], rs[k], n)
    ensures n in trace[j].bytes && trace[j].bytes[n] == trace[i].bytes[n]
    decreases j - i
  {
    hide Does, Sound, Touches;
    if i < j {
      UntouchedFileKeeps(root, trace, cs, rs, i, j - 1, n);
      RunKeepsSound(root, trace, cs, rs, j - 1);
      assert Does(root, trace[j - 1], cs[j - 1], rs[j - 1], trace[j]);
      StepKeepsOthers(root, trace[j - 1], cs[j - 1], rs[j - 1], trace[j], n);
    }
  }

  /** What was written is read back: through any descriptor, after any calls that do not touch the file,
      closing and opening it included. */
  lemma ReadsBackWhatWasWritten(root: Node?, trace: seq<Fs>, cs: seq<Call>, rs: seq<Reply>, i: nat, j: nat)
    requires IsRun(root, trace, cs, rs) && Sound(trace[0]) && (root != null ==> root in trace[0].tree)
    requires i < j < |cs| && cs[i].WriteCall? && rs[i].code >= 0 && cs[j].ReadCall? && Usable(trace[i], cs[i].fd) &&
             Usable(trace[j], cs[j].fd)
    requires trace[i].fds[cs[i].fd].node == trace[j].fds[cs[j].fd].node
    requires trace[i].fds[cs[i].fd].offset <= |trace[i].bytes[trace[i].fds[cs[i].fd].node]|
    requires forall k :: i < k < j ==> !Touches(trace[k], cs[k], rs[k], trace[i].fds[cs[i].fd].node)
    ensures var w, r := trace[i].fds[cs[i].fd], trace[j].fds[cs[j].fd];
            rs[j].data == Slice(Splice(trace[i].bytes[w.node], w.offset, cs[i].buf), r.offset, cs[j].n)
  {
    var n := trace[i].fds[cs[i].fd].node;
    assert Does(root, trace[i], cs[i], rs[i], trace[i + 1]) && Does(root, trace[j], cs[j], rs[j], trace[j + 1]);
    OverwriteIsSplice(trace[i].bytes[n], trace[i].fds[cs[i].fd].offset, cs[i].buf, trace[i + 1].bytes[n]);
    UntouchedFileKeeps(root, trace, cs, rs, i + 1, j, n);
  }

  lemma CreatesKeepsPaths(root: Node?, s: Fs, path: string, isDir: bool, mem: bool, payload: bool, node: Node?, s': Fs,
                          comps: seq<string>)
    requires Sound(s) && Creates(root, s, path, isDir, mem, payload, node, s') && root != null && root in s.tree
    requires Walk(s.tree, root, comps) != null
    ensures Walk(s'.tree, root, comps) == Walk(s.tree, root, comps)
  {
    if node != null {
      var k: nat :| CreatedAt(s.tree, s'.tree, root, path, k, node);
      WalkKept(s.tree, Walk(s.tree, root, Components(path[..k])), node, root, comps);
    }
  }

  /** Over every run, a path that led to a node leads to that node still. */
  lemma {:induction false} PathsKeepTheirMeaning(root: Node, trace: seq<Fs>, cs: seq<Call>, rs: seq<Reply>, i: nat,
                                                 comps: seq<string>)
    requires IsRun(root, trace, cs, rs) && Sound(trace[0]) && root in trace[0].tree && i < |trace|
    requires Walk(trace[0].tree, root, comps) != null
    ensures Walk(trace[i].tree, root, comps) == Walk(trace[0].tree, root, comps)
  {
    if i > 0 {
      PathsKeepTheirMeaning(root, trace, cs, rs, i - 1, comps);
      RunKeepsSound(root, trace, cs, rs, i - 1);
      var s, s', c, r := trace[i - 1], trace[i], cs[i - 1], rs[i - 1];
      assert Does(root, s, c, r, s');
      match c
      case CreateCall(path, isDir, mem, payload) =>
        CreatesKeepsPaths(root, s, path, isDir, mem, payload, r.node, s', comps);
      case OpenCall(path, creat, _, _, mem, payload) =>
        if TargetIn(s.tree, root, path) == null && creat {
          CreatesKeepsPaths(root, s, path, false, mem, payload, r.node, Between(s, s', r.node), comps);
        }
      case _ =>
    }
  }

  // ---------------------------------------------------------------- how far offsets can grow

  /** No offset and no file size is beyond `limit`. */
  ghost predicate Limited(s: Fs, limit: nat) {
    && (forall fd :: 0 <= fd < |s.fds| ==> s.fds[fd].offset <= limit)
    && (forall n :: n in s.bytes ==> |s.bytes[n]| <= limit)
  }

  lemma LimitFits(s: Fs, c: Call, limit: nat)
    requires Limited(s, limit)
    ensures c.WriteCall? && Usable(s, c.fd) ==> s.fds[c.fd].offset + |c.buf| <= limit + WrittenBy(c)
  {
  }

  function WrittenBy(c: Call): nat { if c.WriteCall? then |c.buf| else 0 }

  function Written(cs: seq<Call>): nat {
    if cs == [] then 0 else Written(cs[..|cs| - 1]) + WrittenBy(cs[|cs| - 1])
  }

  lemma {:induction false} WrittenGrows(cs: seq<Call>, i: nat)
    requires i <= |cs|
    ensures Written(cs[..i]) <= Written(cs)
    decreases |cs|
  {
    if i < |cs| {
      WrittenGrows(cs[..|cs| - 1], i);
      assert cs[..|cs| - 1][..i] == cs[..i];
    } else {
      assert cs[..i] == cs;
    }
  }

  /** Only writes move anything beyond what there was. */
  lemma StepKeepsLimit(root: Node?, s: Fs, c: Call, r: Reply, s': Fs, limit: nat)
    requires Sound(s) && Does(root, s, c, r, s') && Limited(s, limit) && (root != null ==> root in s.tree)
    ensures Limited(s', limit + WrittenBy(c))
  {
    hide Creates, Locates;
    match c
    case CreateCall(path, isDir, mem, payload) =>
      CreatesKeepsLimit(root, s, path, isDir, mem, payload, r.node, s', limit);
    case OpenCall(path, _, _, _, mem, payload) =>
      var t := Between(s, s', r.node);
      LocatesKeepsLimit(root, s, c, r.node, t, limit);
    case CloseCall(_) =>
    case ReadCall(_, _) =>
    case WriteCall(fd, buf, _) =>
      if r.code >= 0 { WriteKeepsLimit(s, fd, buf, s', limit); }
  }

  lemma WriteKeepsLimit(s: Fs, fd: int, buf: seq<byte>, s': Fs, limit: nat)
    requires Limited(s, limit) && Usable(s, fd) && s'.fds == Moved(s.fds, fd, |buf|) && s.fds[fd].node in s'.bytes
    requires var n := s.fds[fd].node;
             s'.bytes == s.bytes[n := s'.bytes[n]] && Overwrites(s.bytes[n], s.fds[fd].offset, buf, s'.bytes[n])
    ensures Limited(s', limit + |buf|)
  {
  }

  lemma CreatesKeepsLimit(root: Node?, s: Fs, path: string, isDir: bool, mem: bool, payload: bool, node: Node?, s': Fs,
                          limit: nat)
    requires Creates(root, s, path, isDir, mem, payload, node, s') && Limited(s, limit)
    ensures Limited(s', limit)
  {
    hide CanCreate, CreatedAt;
  }

  lemma LocatesKeepsLimit(root: Node?, s: Fs, c: Call, node: Node?, t: Fs, limit: nat)
    requires c.OpenCall? && Locates(root, s, c, node, t) && Limited(s, limit)
    ensures Limited(t, limit)
  {
    hide Creates, TargetIn, Limited;
    var n := TargetIn(s.tree, root, c.path);
    if n == null && c.creat { CreatesKeepsLimit(root, s, c.path, false, c.mem, c.payload, node, t, limit); }
  }
}
