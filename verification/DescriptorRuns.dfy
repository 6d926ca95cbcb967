/** What clients of the file system rely on, call by call and over whole runs: where a descriptor stands, what
    writes through it leave in the file, and what an open, a creation and a close do. */
module DescriptorRuns {
  import opened Words
  import opened Paths
  import opened Ramfs
  import opened FileTree
  import opened FileRuns

  // ---------------------------------------------------------------- one call

  function Min(a: int, b: int): int { if a < b then a else b }

  /** A read returns as many bytes as asked for and there are, from the offset on, and moves this offset past
      them; nothing else changes. */
  lemma ReadEffect(root: Node?, s: Fs, c: Call, r: Reply, s': Fs)
    requires c.ReadCall? && Does(root, s, c, r, s')
    ensures r.code >= 0 <==> Usable(s, c.fd)
    ensures r.code < 0 ==> r.code == -1 && s' == s
    ensures r.code >= 0 ==>
              var d := s.fds[c.fd];
              var b := s.bytes[d.node];
              && r.code == |r.data| == (if d.offset <= |b| then Min(c.n, |b| - d.offset) else 0)
              && (forall i :: 0 <= i < |r.data| ==> r.data[i] == b[d.offset + i])
              && s' == s.(fds := s.fds[c.fd := d.(offset := d.offset + r.code)])
  {
  }

  /** A write moves this offset past what it wrote, all of the buffer, and changes no other file. */
  lemma WriteEffect(root: Node?, s: Fs, c: Call, r: Reply, s': Fs)
    requires c.WriteCall? && Does(root, s, c, r, s')
    ensures r.code < 0 ==> r.code == -1 && s' == s && !(c.mem && Usable(s, c.fd))
    ensures r.code >= 0 ==>
              && Usable(s, c.fd) && r.code == |c.buf|
              && var d := s.fds[c.fd];
                 && s'.tree == s.tree && s'.fds == s.fds[c.fd := d.(offset := d.offset + |c.buf|)]
                 && s'.bytes.Keys == s.bytes.Keys
                 && (forall n :: n in s.bytes && n != d.node ==> s'.bytes[n] == s.bytes[n])
                 && (d.offset <= |s.bytes[d.node]| ==>
                       s'.bytes[d.node] == s.bytes[d.node][..d.offset] + c.buf +
                       s.bytes[d.node][Min(d.offset + |c.buf|, |s.bytes[d.node]|)..])
  {
    if r.code >= 0 {
      var d := s.fds[c.fd];
      var b, b' := s.bytes[d.node], s'.bytes[d.node];
      if d.offset <= |b| { OverwriteIsSplice(b, d.offset, c.buf, b'); }
    }
  }

  /** A close frees this descriptor and nothing else. */
  lemma CloseEffect(root: Node?, s: Fs, c: Call, r: Reply, s': Fs)
    requires c.CloseCall? && Does(root, s, c, r, s')
    ensures s'.tree == s.tree && s'.bytes == s.bytes && |s'.fds| == |s.fds|
    ensures forall i :: 0 <= i < |s.fds| && i != c.fd ==> s'.fds[i] == s.fds[i]
    ensures 0 <= c.fd < |s.fds| ==> !s'.fds[c.fd].used
    ensures r.code == 0 <==> 0 <= c.fd < |s.fds| && s.fds[c.fd].used
    ensures r.code != 0 ==> r.code == -1 && s' == s
  {
  }

  /** A creation makes an empty node of the kind asked for, at the head of a directory's list; or it fails and
      changes nothing. */
  lemma CreateEffect(root: Node?, s: Fs, c: Call, r: Reply, s': Fs)
    requires c.CreateCall? && Sound(s) && Does(root, s, c, r, s') && (root != null ==> root in s.tree)
    ensures r.code == if c.mem && CanCreate(s.tree, root, c.path) then 0 else -1
    ensures r.code == -1 ==> s' == s
    ensures r.code == 0 ==>
              && r.node != null && r.node !in s.tree && r.node.isDir == c.isDir && s'.fds == s.fds
              && (exists d: Node :: d in s.tree && d.isDir &&
                    s'.tree == s.tree[d := [r.node] + s.tree[d]][r.node := []])
              && s'.bytes == if !c.isDir && c.payload then s.bytes[r.node := []] else s.bytes
  {
    if r.node != null {
      var k: nat :| CreatedAt(s.tree, s'.tree, root, c.path, k, r.node);
      WalkStays(s.tree, root, Components(c.path[..k]));
      var d := Walk(s.tree, root, Components(c.path[..k]));
      assert d in s.tree && d.isDir && s'.tree == Added(s.tree, d, r.node);
    }
  }

  /** An open of a missing path without O_CREAT changes nothing. An open of an existing one adds no node; it takes
      the lowest free descriptor, at the start of the file or, with O_APPEND, at what was its end, and with
      O_TRUNC empties it. */
  lemma OpenEffect(root: Node?, s: Fs, c: Call, r: Reply, s': Fs)
    requires c.OpenCall? && Sound(s) && Does(root, s, c, r, s') && (root != null ==> root in s.tree)
    ensures var n := TargetIn(s.tree, root, c.path);
            && (n == null && !c.creat ==> r.code == -1 && s' == s)
            && (n == null && c.creat ==>
                  && (r.node != null <==> c.mem && CanCreate(s.tree, root, c.path))
                  && (r.node != null ==> r.node !in s.tree) && (r.node == null ==> r.code == -1 && s' == s))
            && (n != null ==>
                  && r.node == n && n in s.tree && s'.tree == s.tree
                  && (r.code < 0 ==> s' == s && AllUsed(s.fds))
                  && (r.code >= 0 ==> s'.bytes == if c.trunc && n in s.bytes then s.bytes[n := []] else s.bytes))
    ensures r.code < 0 ==> r.code == -1 && s'.fds == s.fds && (r.node == null || AllUsed(s.fds))
    ensures r.code >= 0 ==>
              && r.node != null && 0 <= r.code < |s.fds| && !s.fds[r.code].used
              && (forall i :: 0 <= i < r.code ==> s.fds[i].used)
              && s'.fds == s.fds[r.code := s'.fds[r.code]] && s'.fds[r.code].used && s'.fds[r.code].node == r.node
              && s'.fds[r.code].offset == if c.append && r.node in s.bytes then |s.bytes[r.node]| else 0
    ensures forall n :: n in s.bytes && n != r.node ==> n in s'.bytes && s'.bytes[n] == s.bytes[n]
    ensures r.node != null && r.node !in s.tree ==>
              && c.creat && r.node in s'.tree && !r.node.isDir
              && (r.node in s'.bytes <==> c.payload) && (c.payload ==> s'.bytes[r.node] == [])
  {
    hide TreeOk, Walk, CanCreate, CreatedAt, FdsOk;
    var t := Between(s, s', r.node);
    LocatesKeeps(root, s, c, r.node, t);
    var n := TargetIn(s.tree, root, c.path);
    if n != null {
      WalkStays(s.tree, root, Components(c.path));
      assert t == s;
    }
  }

  // ---------------------------------------------------------------- descriptors over runs

  /** The call reads, writes or closes through descriptor `fd`. */
  predicate Uses(c: Call, fd: int) {
    match c
    case CloseCall(f) => f == fd
    case ReadCall(f, _) => f == fd
    case WriteCall(f, _, _) => f == fd
    case _ => false
  }

  /** No call but one through it changes a descriptor in use: an open does not reuse it. */
  lemma StepKeepsDescriptor(root: Node?, s: Fs, c: Call, r: Reply, s': Fs, fd: int)
    requires Sound(s) && Does(root, s, c, r, s') && (root != null ==> root in s.tree)
    requires FileRuns.Open(s.fds, fd) && !Uses(c, fd)
    ensures FileRuns.Open(s'.fds, fd) && s'.fds[fd] == s.fds[fd]
  {
    match c
    case CreateCall(_, _, _, _) => CreateEffect(root, s, c, r, s');
    case OpenCall(_, _, _, _, _, _) => OpenEffect(root, s, c, r, s');
    case CloseCall(_) => CloseEffect(root, s, c, r, s');
    case ReadCall(_, _) => ReadEffect(root, s, c, r, s');
    case WriteCall(_, _, _) => WriteEffect(root, s, c, r, s');
  }

  /** A run from a state in order. */
  ghost predicate GoodRun(root: Node?, trace: seq<Fs>, cs: seq<Call>, rs: seq<Reply>) {
    IsRun(root, trace, cs, rs) && Sound(trace[0]) && (root != null ==> root in trace[0].tree)
  }

  lemma StepOf(root: Node?, trace: seq<Fs>, cs: seq<Call>, rs: seq<Reply>, k: nat)
    requires GoodRun(root, trace, cs, rs) && k < |cs|
    ensures Sound(trace[k]) && (root != null ==> root in trace[k].tree)
    ensures Does(root, trace[k], cs[k], rs[k], trace[k + 1])
  {
    RunKeepsSound(root, trace, cs, rs, k);
  }

  /** The bytes read or written through `fd` by call `k`. */
  function Moves(cs: seq<Call>, rs: seq<Reply>, fd: int, k: nat): nat
    requires k < |cs| == |rs|
  {
    if Uses(cs[k], fd) && rs[k].code > 0 then rs[k].code else 0
  }

  /** Those of the calls from `i` up to `j`. */
  function Transferred(cs: seq<Call>, rs: seq<Reply>, fd: int, i: nat, j: nat): nat
    requires j <= |cs| == |rs|
  {
    if i >= j then 0 else Transferred(cs, rs, fd, i, j - 1) + Moves(cs, rs, fd, j - 1)
  }

  /** Over every run in which a descriptor is not closed it stays on its node, and its offset is what it was plus
      all the bytes read and written through it. */
  lemma {:induction false} OffsetCounts(root: Node?, trace: seq<Fs>, cs: seq<Call>, rs: seq<Reply>, i: nat, j: nat,
                                        fd: int)
    requires GoodRun(root, trace, cs, rs) && i <= j < |trace| && FileRuns.Open(trace[i].fds, fd)
    requires forall k :: i <= k < j ==> cs[k] != CloseCall(fd)
    ensures FileRuns.Open(trace[j].fds, fd)
    ensures var d := trace[i].fds[fd];
            trace[j].fds[fd] == d.(offset := d.offset + Transferred(cs, rs, fd, i, j))
    decreases j - i
  {
    if i < j {
      OffsetCounts(root, trace, cs, rs, i, j - 1, fd);
      StepOf(root, trace, cs, rs, j - 1);
      var s, c, r, s' := trace[j - 1], cs[j - 1], rs[j - 1], trace[j];
      hide Does, Sound, GoodRun;
      if !Uses(c, fd) {
        StepKeepsDescriptor(root, s, c, r, s', fd);
      } else if c.ReadCall? {
        ReadEffect(root, s, c, r, s');
      } else {
        WriteEffect(root, s, c, r, s');
      }
    }
  }

  /** What call `k` wrote through `fd`. */
  function Piece(cs: seq<Call>, rs: seq<Reply>, fd: int, k: nat): seq<byte>
    requires k < |cs| == |rs|
  {
    if cs[k].WriteCall? && cs[k].fd == fd && rs[k].code >= 0 then cs[k].buf else []
  }

  /** What the calls from `i` up to `j` wrote through `fd`, in order. */
  function Stream(cs: seq<Call>, rs: seq<Reply>, fd: int, i: nat, j: nat): seq<byte>
    requires j <= |cs| == |rs|
  {
    if i >= j then [] else Stream(cs, rs, fd, i, j - 1) + Piece(cs, rs, fd, j - 1)
  }

  /** `c` with `a` in place of what it had from `off` on, longer if need be. */
  function Over(c: seq<byte>, off: nat, a: seq<byte>): (r: seq<byte>)
    requires off <= |c|
    ensures |r| >= off + |a| && |r| >= |c|
  {
    c[..off] + a + c[Min(off + |a|, |c|)..]
  }

  lemma OverTwice(c: seq<byte>, off: nat, a: seq<byte>, b: seq<byte>)
    requires off <= |c|
    ensures Over(Over(c, off, a), off + |a|, b) == Over(c, off, a + b)
  {
    var d := Over(c, off, a);
    assert d[..off + |a|] == c[..off] + a;
    var rest := c[Min(off + |a|, |c|)..];
    assert d == d[..off + |a|] + rest;
    assert d[Min(off + |a| + |b|, |d|)..] == c[Min(off + |a| + |b|, |c|)..];
  }

  /** Descriptor `fd` stands at offset `off` of file `n`, which holds `c`. */
  ghost predicate Stands(s: Fs, fd: int, n: Node, off: nat, c: seq<byte>) {
    Usable(s, fd) && s.fds[fd].node == n && s.fds[fd].offset == off && s.bytes[n] == c
  }

  /** The call writes through `fd`, or neither uses that descriptor nor touches file `n`. */
  ghost predicate WritesOrSpares(s: Fs, c: Call, r: Reply, fd: int, n: Node) {
    (c.WriteCall? && c.fd == fd) || (!Uses(c, fd) && !Touches(s, c, r, n))
  }

  lemma StepAppends(root: Node?, s: Fs, c: Call, r: Reply, s': Fs, fd: int, n: Node, off: nat, b: seq<byte>)
    requires Sound(s) && Does(root, s, c, r, s') && (root != null ==> root in s.tree)
    requires Stands(s, fd, n, off, b) && off <= |b| && WritesOrSpares(s, c, r, fd, n)
    ensures var a := if c.WriteCall? && c.fd == fd && r.code >= 0 then c.buf else [];
            Stands(s', fd, n, off + |a|, Over(b, off, a))
  {
    hide Does, Sound, Touches;
    if c.WriteCall? && c.fd == fd {
      WriteEffect(root, s, c, r, s');
    } else {
      StepKeepsDescriptor(root, s, c, r, s', fd);
      FileRuns.StepKeepsOthers(root, s, c, r, s', n);
    }
    assert Over(b, off, []) == b;
  }

  lemma ReadStep(root: Node?, s: Fs, c: Call, r: Reply, s': Fs, n: Node, off: nat, b: seq<byte>)
    requires c.ReadCall? && Does(root, s, c, r, s') && Stands(s, c.fd, n, off, b) && off <= |b|
    ensures r.data == b[off..][..Min(c.n, |b| - off)] && Stands(s', c.fd, n, off + |r.data|, b)
  {
    hide Does;
    ReadEffect(root, s, c, r, s');
  }

  /** Writes through one descriptor append to each other: over any run in which nobody else touches the file and
      nothing but writes goes through the descriptor, all of them together leave the file as one write of their
      concatenation would, and the descriptor behind it. */
  lemma {:induction false} WritesConcatenate(root: Node?, trace: seq<Fs>, cs: seq<Call>, rs: seq<Reply>, i: nat,
                                             j: nat, fd: int, n: Node, off: nat, c: seq<byte>)
    requires GoodRun(root, trace, cs, rs) && i <= j < |trace| && Stands(trace[i], fd, n, off, c) && off <= |c|
    requires forall k :: i <= k < j ==> WritesOrSpares(trace[k], cs[k], rs[k], fd, n)
    ensures var a := Stream(cs, rs, fd, i, j); Stands(trace[j], fd, n, off + |a|, Over(c, off, a))
    decreases j - i
  {
    hide Does, Sound, WritesOrSpares, Stands, Over, Stream, Piece;
    StreamUnfold(cs, rs, fd, i, j);
    if i < j {
      WritesConcatenate(root, trace, cs, rs, i, j - 1, fd, n, off, c);
      StepOf(root, trace, cs, rs, j - 1);
      AppendMore(root, trace[j - 1], cs[j - 1], rs[j - 1], trace[j], fd, n, off, c, Stream(cs, rs, fd, i, j - 1));
    } else {
      OverNothing(c, off);
    }
  }

  lemma StreamUnfold(cs: seq<Call>, rs: seq<Reply>, fd: int, i: nat, j: nat)
    requires j <= |cs| == |rs|
    ensures i < j ==>
              Stream(cs, rs, fd, i, j) == Stream(cs, rs, fd, i, j - 1) +
              if cs[j - 1].WriteCall? && cs[j - 1].fd == fd && rs[j - 1].code >= 0 then cs[j - 1].buf else []
    ensures i >= j ==> Stream(cs, rs, fd, i, j) == []
  {
  }

  lemma OverNothing(c: seq<byte>, off: nat)
    requires off <= |c|
    ensures Over(c, off, []) == c
  {
  }

  lemma AppendMore(root: Node?, s: Fs, c: Call, r: Reply, s': Fs, fd: int, n: Node, off: nat, b: seq<byte>,
                   a: seq<byte>)
    requires Sound(s) && Does(root, s, c, r, s') && (root != null ==> root in s.tree) && off <= |b|
    requires Stands(s, fd, n, off + |a|, Over(b, off, a)) && WritesOrSpares(s, c, r, fd, n)
    ensures var more := a + if c.WriteCall? && c.fd == fd && r.code >= 0 then c.buf else [];
            Stands(s', fd, n, off + |more|, Over(b, off, more))
  {
    hide Does, Sound, WritesOrSpares, Stands, Over;
    StepAppends(root, s, c, r, s', fd, n, off + |a|, Over(b, off, a));
    OverTwice(b, off, a, if c.WriteCall? && c.fd == fd && r.code >= 0 then c.buf else []);
  }

  /** Calls that do not use the descriptor write nothing through it. */
  lemma {:induction false} StreamOfNone(cs: seq<Call>, rs: seq<Reply>, fd: int, i: nat, j: nat)
    requires i <= j <= |cs| == |rs| && forall k :: i <= k < j ==> !Uses(cs[k], fd)
    ensures Stream(cs, rs, fd, i, j) == []
    decreases j
  {
    hide Stream, Piece;
    StreamUnfold(cs, rs, fd, i, j);
    if i < j {
      StreamOfNone(cs, rs, fd, i, j - 1);
      assert !Uses(cs[j - 1], fd);
    }
  }

  /** The calls between `i` and `j` neither use the descriptor nor touch the file. */
  ghost predicate Quiet(trace: seq<Fs>, cs: seq<Call>, rs: seq<Reply>, i: nat, j: nat, fd: int, n: Node) {
    |trace| == |cs| + 1 && |rs| == |cs| && j <= |cs| &&
    forall k :: i <= k < j ==> !Uses(cs[k], fd) && !Touches(trace[k], cs[k], rs[k], n)
  }

  lemma QuietKeeps(root: Node?, trace: seq<Fs>, cs: seq<Call>, rs: seq<Reply>, i: nat, j: nat, fd: int, n: Node,
                   off: nat, c: seq<byte>)
    requires GoodRun(root, trace, cs, rs) && i <= j < |trace| && Stands(trace[i], fd, n, off, c) && off <= |c|
    requires Quiet(trace, cs, rs, i, j, fd, n)
    ensures Stands(trace[j], fd, n, off, c)
  {
    StreamOfNone(cs, rs, fd, i, j);
    forall k | i <= k < j ensures WritesOrSpares(trace[k], cs[k], rs[k], fd, n) {
    }
    hide GoodRun, WritesOrSpares, Stream, Quiet, Stands;
    WritesConcatenate(root, trace, cs, rs, i, j, fd, n, off, c);
    assert Over(c, off, []) == c;
  }

  /** One write, and calls that have nothing to do with it. */
  lemma OneWrite(root: Node?, trace: seq<Fs>, cs: seq<Call>, rs: seq<Reply>, i: nat, j: nat, fd: int, n: Node,
                 off: nat, c: seq<byte>)
    requires GoodRun(root, trace, cs, rs) && i < j <= |cs| && Stands(trace[i], fd, n, off, c) && off <= |c|
    requires cs[i].WriteCall? && cs[i].fd == fd && rs[i].code >= 0 && Quiet(trace, cs, rs, i + 1, j, fd, n)
    ensures Stands(trace[j], fd, n, off + |cs[i].buf|, Over(c, off, cs[i].buf))
  {
    StepOf(root, trace, cs, rs, i);
    hide Does, Sound, GoodRun, Quiet, Over, Stands;
    StepAppends(root, trace[i], cs[i], rs[i], trace[i + 1], fd, n, off, c);
    QuietKeeps(root, trace, cs, rs, i + 1, j, fd, n, off + |cs[i].buf|, Over(c, off, cs[i].buf));
  }

  /** Two successful writes through one descriptor leave the second behind the first. */
  lemma TwoWritesAppend(root: Node?, trace: seq<Fs>, cs: seq<Call>, rs: seq<Reply>, i: nat, j: nat, fd: int, n: Node,
                        off: nat, c: seq<byte>)
    requires GoodRun(root, trace, cs, rs) && i < j < |cs| && Stands(trace[i], fd, n, off, c) && off <= |c|
    requires cs[i].WriteCall? && cs[i].fd == fd && rs[i].code >= 0 && Quiet(trace, cs, rs, i + 1, j, fd, n)
    requires cs[j].WriteCall? && cs[j].fd == fd && rs[j].code >= 0
    ensures Stands(trace[j + 1], fd, n, off + |cs[i].buf| + |cs[j].buf|, Splice(c, off, cs[i].buf + cs[j].buf))
  {
    var a, b := cs[i].buf, cs[j].buf;
    assert Quiet(trace, cs, rs, j + 1, j + 1, fd, n);
    hide GoodRun, Quiet, Stands;
    OneWrite(root, trace, cs, rs, i, j, fd, n, off, c);
    OneWrite(root, trace, cs, rs, j, j + 1, fd, n, off + |a|, Over(c, off, a));
    OverTwice(c, off, a, b);
    OverIsSplice(c, off, a + b);
  }

  lemma OverIsSplice(c: seq<byte>, off: nat, a: seq<byte>)
    requires off <= |c|
    ensures Over(c, off, a) == Splice(c, off, a)
  {
  }

  /** A read through the descriptor just written through starts behind what was written. */
  lemma ReadAfterWrite(root: Node?, trace: seq<Fs>, cs: seq<Call>, rs: seq<Reply>, i: nat, j: nat, fd: int, n: Node,
                       off: nat, c: seq<byte>)
    requires GoodRun(root, trace, cs, rs) && i < j < |cs| && Stands(trace[i], fd, n, off, c) && off <= |c|
    requires cs[i].WriteCall? && cs[i].fd == fd && rs[i].code >= 0 && Quiet(trace, cs, rs, i + 1, j, fd, n)
    requires cs[j].ReadCall? && cs[j].fd == fd
    ensures var rest := c[Min(off + |cs[i].buf|, |c|)..];
            && rs[j].data == rest[..Min(cs[j].n, |rest|)]
            && Stands(trace[j + 1], fd, n, off + |cs[i].buf| + |rs[j].data|, Splice(c, off, cs[i].buf))
  {
    var a := cs[i].buf;
    StepOf(root, trace, cs, rs, j);
    hide Does, Sound, GoodRun, Quiet, Stands;
    OneWrite(root, trace, cs, rs, i, j, fd, n, off, c);
    OverIsSplice(c, off, a);
    ReadStep(root, trace[j], cs[j], rs[j], trace[j + 1], n, off + |a|, Over(c, off, a));
    assert Over(c, off, a)[off + |a|..] == c[Min(off + |a|, |c|)..];
  }

  /** Two reads through one descriptor return consecutive bytes. */
  lemma TwoReadsContinue(root: Node?, trace: seq<Fs>, cs: seq<Call>, rs: seq<Reply>, i: nat, j: nat, fd: int, n: Node,
                         off: nat, c: seq<byte>)
    requires GoodRun(root, trace, cs, rs) && i < j < |cs| && Stands(trace[i], fd, n, off, c) && off <= |c|
    requires cs[i].ReadCall? && cs[i].fd == fd && Quiet(trace, cs, rs, i + 1, j, fd, n)
    requires cs[j].ReadCall? && cs[j].fd == fd
    ensures var got := rs[i].data + rs[j].data;
            && got == c[off..][..Min(cs[i].n + cs[j].n, |c| - off)]
            && Stands(trace[j + 1], fd, n, off + |got|, c)
  {
    StepOf(root, trace, cs, rs, i);
    StepOf(root, trace, cs, rs, j);
    hide Does, Sound, GoodRun, Quiet, Stands;
    ReadStep(root, trace[i], cs[i], rs[i], trace[i + 1], n, off, c);
    var at := off + |rs[i].data|;
    QuietKeeps(root, trace, cs, rs, i + 1, j, fd, n, at, c);
    ReadStep(root, trace[j], cs[j], rs[j], trace[j + 1], n, at, c);
    assert c[at..] == c[off..][|rs[i].data|..];
  }

  // ---------------------------------------------------------------- the shell

  /** The calls of cmd_write: open with O_CREAT and O_TRUNC, the text, a newline, close. */
  ghost predicate IsWriteCommand(cs: seq<Call>, rs: seq<Reply>, text: seq<byte>, newline: seq<byte>) {
    && |cs| == |rs| >= 4 && cs[0].OpenCall? && cs[0].creat && cs[0].trunc && !cs[0].append && rs[0].code >= 0
    && cs[1].WriteCall? && cs[1].fd == rs[0].code && cs[1].buf == text && rs[1].code >= 0
    && cs[2].WriteCall? && cs[2].fd == rs[0].code && cs[2].buf == newline && rs[2].code >= 0
    && cs[3] == CloseCall(rs[0].code)
  }

  /** Whatever the file held, if it existed at all, after the shell's write command it holds the text and the
      newline, and the descriptor is free again. */
  lemma WriteCommandWrites(root: Node?, trace: seq<Fs>, cs: seq<Call>, rs: seq<Reply>, text: seq<byte>,
                           newline: seq<byte>)
    requires GoodRun(root, trace, cs, rs) && IsWriteCommand(cs, rs, text, newline)
    ensures rs[0].node != null && rs[0].node in trace[4].bytes && trace[4].bytes[rs[0].node] == text + newline
    ensures |trace[4].fds| == |trace[0].fds| && rs[0].code < |trace[4].fds| && !trace[4].fds[rs[0].code].used
    ensures forall i :: 0 <= i < |trace[0].fds| && i != rs[0].code ==> trace[4].fds[i] == trace[0].fds[i]
    ensures forall n :: n in trace[0].bytes && n != rs[0].node ==>
              n in trace[4].bytes && trace[4].bytes[n] == trace[0].bytes[n]
  {
    hide Does, Sound;
    var fd := rs[0].code;
    StepOf(root, trace, cs, rs, 0);
    StepOf(root, trace, cs, rs, 1);
    StepOf(root, trace, cs, rs, 2);
    StepOf(root, trace, cs, rs, 3);
    OpenEffect(root, trace[0], cs[0], rs[0], trace[1]);
    var n: Node := rs[0].node;
    TextIsIn(root, trace, cs, rs, fd, n, text, newline);
    WriteSpares(root, trace[1], cs[1], rs[1], trace[2], n);
    WriteSpares(root, trace[2], cs[2], rs[2], trace[3], n);
    CloseEffect(root, trace[3], cs[3], rs[3], trace[4]);
  }

  lemma TextIsIn(root: Node?, trace: seq<Fs>, cs: seq<Call>, rs: seq<Reply>, fd: int, n: Node, text: seq<byte>,
                 newline: seq<byte>)
    requires GoodRun(root, trace, cs, rs) && IsWriteCommand(cs, rs, text, newline)
    requires fd == rs[0].code && n == rs[0].node
    ensures Stands(trace[1], fd, n, 0, []) && Stands(trace[2], fd, n, |text|, text)
    ensures Stands(trace[3], fd, n, |text| + |newline|, text + newline)
  {
    assert |trace| > 4 && Quiet(trace, cs, rs, 2, 2, fd, n) && Quiet(trace, cs, rs, 3, 3, fd, n);
    hide GoodRun, IsRun, Quiet, Stands;
    OpenedEmpty(root, trace, cs, rs, fd, n, text, newline);
    OneWrite(root, trace, cs, rs, 1, 2, fd, n, 0, []);
    assert Over([], 0, text) == text;
    OneWrite(root, trace, cs, rs, 2, 3, fd, n, |text|, text);
    assert Over(text, |text|, newline) == text + newline;
  }

  lemma OpenedEmpty(root: Node?, trace: seq<Fs>, cs: seq<Call>, rs: seq<Reply>, fd: int, n: Node, text: seq<byte>,
                    newline: seq<byte>)
    requires GoodRun(root, trace, cs, rs) && IsWriteCommand(cs, rs, text, newline)
    requires fd == rs[0].code && n == rs[0].node
    ensures Stands(trace[1], fd, n, 0, [])
  {
    StepOf(root, trace, cs, rs, 0);
    StepOf(root, trace, cs, rs, 1);
    hide Does, Sound, GoodRun;
    EmptyAfterTrunc(root, trace[0], cs[0], rs[0], trace[1]);
    WriteEffect(root, trace[1], cs[1], rs[1], trace[2]);
  }

  /** A write through a descriptor of `n` spares all other descriptors and files. */
  lemma WriteSpares(root: Node?, s: Fs, c: Call, r: Reply, s': Fs, n: Node)
    requires c.WriteCall? && Does(root, s, c, r, s') && r.code >= 0 && Usable(s, c.fd) && s.fds[c.fd].node == n
    ensures |s'.fds| == |s.fds| && forall i :: 0 <= i < |s.fds| && i != c.fd ==> s'.fds[i] == s.fds[i]
    ensures s'.bytes.Keys == s.bytes.Keys && forall m :: m in s.bytes && m != n ==> s'.bytes[m] == s.bytes[m]
  {
    hide Does;
    WriteEffect(root, s, c, r, s');
  }

  /** A file opened with O_TRUNC is empty and its descriptor at the start, unless O_APPEND was given too. */
  lemma EmptyAfterTrunc(root: Node?, s: Fs, c: Call, r: Reply, s': Fs)
    requires c.OpenCall? && c.trunc && !c.append && Sound(s) && Does(root, s, c, r, s') &&
             (root != null ==> root in s.tree)
    requires r.code >= 0
    ensures r.node != null && r.code < |s'.fds| && s'.fds[r.code] == Fd(r.node, 0, true)
    ensures r.node in s'.bytes ==> s'.bytes[r.node] == []
  {
    OpenEffect(root, s, c, r, s');
    if r.node in s.tree {
      var t := Between(s, s', r.node);
      assert t.bytes == s.bytes;
    }
  }

  /** The name after the last slash is not longer than the names nodes can have. */
  ghost predicate ShortName(path: string) {
    forall k: nat :: LastSlash(path, k) ==> |path| - (k + 1) < NAME_MAX
  }

  /** After an open the path leads to the node opened, unless it had to be created and its name was clipped. */
  lemma OpenedIsFound(root: Node, s: Fs, c: Call, r: Reply, s': Fs)
    requires c.OpenCall? && Sound(s) && Does(root, s, c, r, s') && root in s.tree && r.node != null
    ensures TargetIn(s.tree, root, c.path) != null || ShortName(c.path) ==> TargetIn(s'.tree, root, c.path) == r.node
  {
    OpenEffect(root, s, c, r, s');
    if TargetIn(s.tree, root, c.path) == null && ShortName(c.path) {
      var t := Between(s, s', r.node);
      var k: nat :| CreatedAt(s.tree, t.tree, root, c.path, k, r.node);
      hide Does, Components, Walk;
      TargetOfNew(s.tree, root, Walk(s.tree, root, Components(c.path[..k])), r.node, c.path, k);
    }
  }

  /** After a creation the path leads to the new node, unless its name was clipped. */
  lemma CreatedIsFound(root: Node, s: Fs, c: Call, r: Reply, s': Fs)
    requires c.CreateCall? && Sound(s) && Does(root, s, c, r, s') && root in s.tree && r.code == 0
    ensures ShortName(c.path) ==> r.node != null && TargetIn(s'.tree, root, c.path) == r.node
  {
    if ShortName(c.path) {
      var k: nat :| CreatedAt(s.tree, s'.tree, root, c.path, k, r.node);
      hide Does, Components, Walk;
      TargetOfNew(s.tree, root, Walk(s.tree, root, Components(c.path[..k])), r.node, c.path, k);
    }
  }

  lemma LaterRun(root: Node?, trace: seq<Fs>, cs: seq<Call>, rs: seq<Reply>)
    requires GoodRun(root, trace, cs, rs) && cs != []
    ensures GoodRun(root, trace[1..], cs[1..], rs[1..])
  {
    hide Does, Sound;
    StepOf(root, trace, cs, rs, 0);
    RunKeepsSound(root, trace, cs, rs, 1);
    var trace', cs', rs' := trace[1..], cs[1..], rs[1..];
    assert forall i, j :: 0 <= i < |cs'| && j == i + 1 ==>
        trace'[i] == trace[i + 1] && cs'[i] == cs[i + 1] && rs'[i] == rs[i + 1] && trace'[j] == trace[j + 1];
  }

  /** What the write command wrote, a later open of the same path and read from it return, whatever happened in
      between that did not write to the file or truncate it. */
  lemma CatAfterWrite(root: Node, trace: seq<Fs>, cs: seq<Call>, rs: seq<Reply>, text: seq<byte>, newline: seq<byte>,
                      p: nat, n: Node)
    requires GoodRun(root, trace, cs, rs) && IsWriteCommand(cs, rs, text, newline) && 4 <= p && p + 1 < |cs|
    requires ShortName(cs[0].path) && rs[0].node == n && forall k :: 4 <= k < p ==> !Touches(trace[k], cs[k], rs[k], n)
    requires cs[p].OpenCall? && cs[p].path == cs[0].path && !cs[p].trunc && !cs[p].append && rs[p].code >= 0
    requires cs[p + 1].ReadCall? && cs[p + 1].fd == rs[p].code
    ensures var all := text + newline; rs[p + 1].data == all[..Min(cs[p + 1].n, |all|)]
  {
    hide Does, Sound, Touches;
    WriteCommandWrites(root, trace, cs, rs, text, newline);
    UntouchedFileKeeps(root, trace, cs, rs, 4, p, n);
    FoundLater(root, trace, cs, rs, p);
    StepOf(root, trace, cs, rs, p);
    StepOf(root, trace, cs, rs, p + 1);
    OpenEffect(root, trace[p], cs[p], rs[p], trace[p + 1]);
    assert Stands(trace[p + 1], rs[p].code, n, 0, text + newline);
    ReadStep(root, trace[p + 1], cs[p + 1], rs[p + 1], trace[p + 2], n, 0, text + newline);
    assert (text + newline)[0..] == text + newline;
  }

  /** The path opened first leads to the same node later. */
  lemma FoundLater(root: Node, trace: seq<Fs>, cs: seq<Call>, rs: seq<Reply>, p: nat)
    requires GoodRun(root, trace, cs, rs) && 0 < p < |trace| && cs[0].OpenCall? && rs[0].node != null
    requires ShortName(cs[0].path)
    ensures TargetIn(trace[p].tree, root, cs[0].path) == rs[0].node
  {
    hide Does, Sound, ShortName;
    StepOf(root, trace, cs, rs, 0);
    OpenedIsFound(root, trace[0], cs[0], rs[0], trace[1]);
    LaterRun(root, trace, cs, rs);
    PathsKeepTheirMeaning(root, trace[1..], cs[1..], rs[1..], p - 1, Components(cs[0].path));
  }
}
