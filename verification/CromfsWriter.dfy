/** The image generator: one pass over the tree that emits each directory node after its subtree. */
module CromfsWriter {
  import opened Bytes
  import opened CromfsFormat
  import opened CromfsReadback
  import opened CromfsModes
  import Lzf

  /** Unsigned 32-bit addition. */
  function Add32(a: nat, b: nat): nat {
    (a + b) % U32
  }

  // ---------------------------------------------------------------- fields only depend on the value mod 2^32

  lemma Le32Wraps(x: nat)
    ensures Le32(x % U32) == Le32(x)
  {
    LeWraps(x, 4);
    assert Pow256(4) == U32;
  }

  lemma {:induction false} LeWraps(x: nat, n: nat)
    ensures LeBytes(x % Pow256(n), n) == LeBytes(x, n)
    decreases n
  {
    if n > 0 {
      var m := Pow256(n - 1);
      var y := x % (256 * m);
      ModStep(x, m);
      assert y % 256 == x % 256 && y / 256 == x / 256 % m;
      LeWraps(x / 256, n - 1);
    }
  }

  lemma NodeWraps(mode: nat, name: nat, size: nat, peer: nat, u: nat)
    ensures NodeBytes(mode, name % U32, size % U32, peer % U32, u % U32) == NodeBytes(mode, name, size, peer, u)
  {
    Le32Wraps(name);
    Le32Wraps(size);
    Le32Wraps(peer);
    Le32Wraps(u);
  }

  lemma AddWraps(a: nat, b: nat)
    ensures Add32(a % U32, b) == (a + b) % U32
  {
  }

  lemma LinkWraps(name: Name, off: nat, to: nat, last: bool)
    ensures var a := Add32(off % U32, NODE);
            var b := Add32(a, |name| + 1);
            && b == (off + NODE + |name| + 1) % U32
            && NodeBytes(DIRLINK, a, 0, if last then 0 else b, to % U32) + name + [0] == LinkBytes(name, off, to, last)
  {
    AddWraps(off, NODE);
    AddWraps(off + NODE, |name| + 1);
    NodeWraps(DIRLINK, off + NODE, 0, if last then 0 else off + NODE + |name| + 1, to);
  }

  lemma HeaderWraps(name: Name, mode: nat, off: nat, size: nat, peer: nat)
    ensures var a := Add32(off % U32, NODE);
            NodeBytes(mode, a, size % U32, peer % U32, Add32(a, |name| + 1)) + name + [0] ==
            Header(name, mode, off, size, peer)
  {
    AddWraps(off, NODE);
    AddWraps(off + NODE, |name| + 1);
    NodeWraps(mode, off + NODE, size, peer, off + NODE + |name| + 1);
  }

  // ---------------------------------------------------------------- growing a layout at its end

  lemma SplitSum(a: seq<byte>, b: seq<byte>, k: nat)
    requires k <= |a|
    ensures (a + b)[..k] == a[..k] && (a + b)[k..] == a[k..] + b
  {
  }

  lemma OneBlock(b: seq<byte>, chunk: seq<byte>)
    requires 0 < |chunk| <= 512 && Lzf.BlockLength(b) == Some(|b|) && Lzf.DecodeBlock(b) == Some(chunk)
    ensures IsBlocks(b, chunk)
  {
    assert b[..|b|] == b && b[|b|..] == [] && chunk[..|chunk|] == chunk && chunk[|chunk|..] == [];
  }

  lemma {:induction false} AddBlock(s: seq<byte>, data: seq<byte>, n: nat, b: seq<byte>, chunk: seq<byte>)
    requires IsBlocks(s, data) && |data| == 512 * n && 0 < |chunk| <= 512
    requires Lzf.BlockLength(b) == Some(|b|) && Lzf.DecodeBlock(b) == Some(chunk)
    ensures IsBlocks(s + b, data + chunk)
    decreases |data|
  {
    if data == [] {
      assert s + b == b && data + chunk == chunk;
      OneBlock(b, chunk);
    } else {
      var k := Lzf.BlockLength(s).value;
      DecodePrefix(s, s + b);
      assert Min(512, |data|) == Min(512, |data + chunk|) == 512;
      SplitSum(s, b, k);
      SplitSum(data, chunk, 512);
      AddBlock(s[k..], data[512..], n - 1, b, chunk);
    }
  }

  /** n blocks hold the first ntotal bytes of a file, all but the last of them 512. */
  ghost predicate BlocksSoFar(s: seq<byte>, data: seq<byte>, ntotal: nat, n: nat) {
    && ntotal <= |data| && IsBlocks(s, data[..ntotal])
    && if ntotal < |data| then ntotal == 512 * n else 512 * n - 512 < ntotal <= 512 * n
  }

  lemma NextBlock(s: seq<byte>, data: seq<byte>, ntotal: nat, n: nat, b: seq<byte>, nread: nat)
    requires BlocksSoFar(s, data, ntotal, n) && ntotal < |data| && nread == Min(512, |data| - ntotal)
    requires Lzf.BlockLength(b) == Some(|b|) && Lzf.DecodeBlock(b) == Some(data[ntotal..ntotal + nread])
    ensures BlocksSoFar(s + b, data, ntotal + nread, n + 1)
  {
    AddBlock(s, data[..ntotal], n, b, data[ntotal..ntotal + nread]);
    assert data[..ntotal] + data[ntotal..ntotal + nread] == data[..ntotal + nread];
  }

  lemma AllBlocks(s: seq<byte>, data: seq<byte>, n: nat)
    requires BlocksSoFar(s, data, |data|, n)
    ensures IsBlocks(s, data) && n == (|data| + 511) / 512
  {
    assert data[..|data|] == data;
  }

  lemma {:induction false} AddEntry(s: seq<byte>, off: nat, L: seq<Entry>, lo: nat, hi: nat, self: nat, b: seq<byte>,
                                    end: nat)
    requires lo <= hi < |L| && IsChain(s, off, L, lo, hi, self) && end == off + |s|
    requires if Real(L[hi]) then IsEntry(b, end, L[hi], hi + 1 == |L|, self) else b == []
    ensures IsChain(s + b, off, L, lo, hi + 1, self)
    decreases hi - lo
  {
    if lo == hi {
      assert s + b == b;
      if Real(L[hi]) {
        assert b[..|b|] == b && b[|b|..] == [];
        assert IsChain([], off + |b|, L, hi + 1, hi + 1, self);
        assert IsSplit(b, |b|, off, L, lo, hi + 1, self);
      } else {
        assert s + b == [] && IsChain([], off, L, hi + 1, hi + 1, self);
      }
    } else if !Real(L[lo]) {
      AddEntry(s, off, L, lo + 1, hi, self, b, end);
    } else {
      var k: nat :| IsSplit(s, k, off, L, lo, hi, self);
      SplitSum(s, b, k);
      AddEntry(s[k..], off + k, L, lo + 1, hi, self, b, end);
      assert IsSplit(s + b, k, off, L, lo, hi + 1, self);
    }
  }

  lemma Concatenated(a: seq<byte>, b: seq<byte>, c: seq<byte>)
    ensures (a + b) + c == a + (b + c)
  {
  }

  lemma FileRecord(off: nat, e: Entry, last: bool, self: nat, b: seq<byte>) returns (s: seq<byte>)
    requires e.kind.Regular? && IsBlocks(b, e.kind.data)
    ensures s == Header(e.name, IFREG + Permissions(e.mode), off, |e.kind.data|,
                        if last then 0 else off + NODE + |e.name| + 1 + |b|) + b
    ensures IsEntry(s, off, e, last, self)
  {
    var h := NODE + |e.name| + 1;
    var head := Header(e.name, IFREG + Permissions(e.mode), off, |e.kind.data|, if last then 0 else off + h + |b|);
    s := head + b;
    HeadTail(head, b);
  }

  lemma HeadTail(a: seq<byte>, b: seq<byte>)
    ensures (a + b)[..|a|] == a && (a + b)[|a|..] == b
  {
  }

  lemma DirContents(off: nat, L: seq<Entry>, parent: nat, chain: seq<byte>) returns (b: seq<byte>)
    requires IsChain(chain, off + LINKS, L, 0, |L|, off)
    ensures b == LinkBytes(DOT, off, off, false) + LinkBytes(DOTDOT, off + 22, parent, !NotEmpty(L, 0)) + chain
    ensures IsDir(b, off, L, parent)
  {
    var links := LinkBytes(DOT, off, off, false) + LinkBytes(DOTDOT, off + 22, parent, !NotEmpty(L, 0));
    b := links + chain;
    assert b[..LINKS] == links && b[LINKS..] == chain;
  }

  lemma {:induction false} EmptyChain(L: seq<Entry>, lo: nat, off: nat, self: nat)
    requires lo <= |L| && !NotEmpty(L, lo)
    ensures IsChain([], off, L, lo, |L|, self)
    ensures Nodes(L, |L|) == Nodes(L, lo) && Blocks(L, |L|) == Blocks(L, lo)
    decreases |L| - lo
  {
    if lo < |L| {
      assert !Real(L[lo]);
      EmptyChain(L, lo + 1, off, self);
    }
  }

  lemma DirRecord(off: nat, e: Entry, last: bool, self: nat, b: seq<byte>) returns (s: seq<byte>)
    requires e.kind.Directory? && IsDir(b, off + NODE + |e.name| + 1, e.kind.listing, self)
    ensures s == Header(e.name, IFDIR + Permissions(e.mode), off, 0,
                        if last then 0 else off + NODE + |e.name| + 1 + |b|) + b
    ensures IsEntry(s, off, e, last, self)
  {
    var h := NODE + |e.name| + 1;
    var head := Header(e.name, IFDIR + Permissions(e.mode), off, 0, if last then 0 else off + h + |b|);
    s := head + b;
    HeadTail(head, b);
  }

  lemma Le16Wraps(x: nat)
    ensures Le16(x % U32) == Le16(x)
  {
    LeWraps(x % U32, 2);
    LeWraps(x, 2);
    assert Pow256(2) == U16;
    ModMod(x);
  }

  lemma ModMod(x: nat)
    ensures x % U32 % U16 == x % U16
  {
    var q := x / U32;
    assert x == U32 * q + x % U32 && x % U32 == U16 * (x % U32 / U16) + x % U32 % U16;
    DivUnique(x, U16, U16 * q + x % U32 / U16, x % U32 % U16);
  }

  lemma VolumeWraps(nnodes: nat, nblocks: nat, fsize: nat)
    ensures VolumeBytes(nnodes % U32, nblocks % U32, fsize % U32) == VolumeBytes(nnodes, nblocks, fsize)
  {
    Le16Wraps(nnodes);
    Le16Wraps(nblocks);
    Le32Wraps(fsize);
  }

  lemma ThreeParts(a: seq<byte>, b: seq<byte>, c: seq<byte>)
    ensures var s := a + (b + c);
            s[..|a|] == a && s[|a|..|a| + |b|] == b && s[|a| + |b|..] == c
  {
  }

  lemma VolumeComplete(image: seq<byte>, L: seq<Entry>, nodes: nat, blocks: nat, pos: nat, chain: seq<byte>)
    requires nodes == 1 + Nodes(L, |L|) && blocks == Blocks(L, |L|) && pos == VOLUME + 22 + |chain|
    requires image == VolumeBytes(nodes % U32, blocks % U32, pos % U32)
                      + (LinkBytes(DOT, VOLUME, VOLUME, !NotEmpty(L, 0)) + chain)
    requires IsChain(chain, VOLUME + 22, L, 0, |L|, VOLUME)
    ensures IsVolume(image, L)
  {
    VolumeWraps(nodes, blocks, pos);
    ThreeParts(VolumeBytes(nodes, blocks, pos), LinkBytes(DOT, VOLUME, VOLUME, !NotEmpty(L, 0)), chain);
  }

  lemma VolumeReadBack(image: seq<byte>, L: seq<Entry>)
    requires IsVolume(image, L)
    ensures |image| < U32 ==> (Readable(image, L) <==> Good(L, 0))
    ensures |image| < U32 && Good(L, 0) ==> |image| >= VOLUME && Counted(image, ReadVolume(image).value)
  {
    if |image| < U32 {
      ReadBack(image, L);
    }
  }

  // ---------------------------------------------------------------- the generator

  /** Where the next record starts, after a header of h and blocks of blktotal bytes at off. */
  method PeerOffset(nodeoffs: nat, h: nat, blktotal: nat, ghost off: nat) returns (peer: nat)
    requires nodeoffs == off % U32
    ensures peer == (off + h + blktotal) % U32
  {
    peer := Add32(Add32(nodeoffs, h), blktotal);
    AddWraps(off, h);
    AddWraps(off + h, blktotal);
  }

  class Generator {
    var offset: nat        // g_offset, modulo 2^32
    var diroffset: nat     // g_diroffset
    var parentOffset: nat  // g_parent_offset
    var nnodes: nat
    var nblocks: nat
    var stream: seq<byte>  // the bytes written to g_tmpstream
    const lzf: Lzf.Compressor

    ghost var pos: nat     // the true image offset
    ghost var dir: nat     // the true offset of the current directory's "."
    ghost var nodes: nat
    ghost var blocks: nat

    ghost predicate Valid()
      reads this
    {
      && offset == pos % U32 && diroffset == dir % U32
      && nnodes == nodes % U32 && nblocks == blocks % U32
      && lzf.Valid()
    }

    constructor ()
      ensures Valid() && pos == VOLUME && dir == VOLUME && stream == [] && nodes == 0 && blocks == 0
      ensures fresh(lzf.hashtab)
    {
      lzf := new Lzf.Compressor();
      offset, diroffset, parentOffset := VOLUME, VOLUME, VOLUME;
      nnodes, nblocks, stream := 0, 0, [];
      pos, dir, nodes, blocks := VOLUME, VOLUME, 0, 0;
    }

    /** A hard link; target is an offset modulo 2^32 and to is its true value. */
    method GenDirlink(name: Name, target: nat, dirempty: bool, ghost to: nat)
      requires Valid() && target == to % U32
      modifies this
      ensures Valid() && dir == old(dir) && parentOffset == old(parentOffset)
      ensures pos == old(pos) + NODE + |name| + 1 && blocks == old(blocks) && nodes == old(nodes) + 1
      ensures stream == old(stream) + LinkBytes(name, old(pos), to, dirempty)
    {
      offset := Add32(offset, NODE);
      var nameoff := offset;
      offset := Add32(offset, |name| + 1);
      var peer := if dirempty then 0 else offset;
      LinkWraps(name, pos, to, dirempty);
      stream := stream + (NodeBytes(DIRLINK, nameoff, 0, peer, target) + name + [0]);
      pos := pos + NODE + |name| + 1;
      AddWraps(nodes, 1);
      nnodes := Add32(nnodes, 1);
      nodes := nodes + 1;
    }
  
    ghost predicate Same(d: nat, p: nat, n: nat)
      reads this
    {
      dir == d && parentOffset == p && nodes == n
    }

    /** Compresses one chunk of a file and appends the block. */
    method GenBlock(chunk: seq<byte>, iobuffer: array<byte>, result: array<byte>) returns (ghost b: seq<byte>)
      requires Valid() && 0 < |chunk| <= Lzf.BUFSIZE
      requires iobuffer.Length == Lzf.BUFSIZE && result.Length == Lzf.RESULT_SIZE && iobuffer != result
      modifies this, lzf.hashtab, iobuffer, result
      ensures Valid() && Same(old(dir), old(parentOffset), old(nodes))
      ensures Lzf.BlockLength(b) == Some(|b|) && Lzf.DecodeBlock(b) == Some(chunk)
      ensures stream == old(stream) + b && pos == old(pos) + |b| && blocks == old(blocks) + 1
    {
      forall k | 0 <= k < |chunk| { iobuffer[k] := chunk[k]; }
      assert iobuffer[..|chunk|] == chunk;
      var blklen := lzf.Compress(iobuffer, |chunk|, result);
      assert iobuffer[..|chunk|] == chunk;
      b := result[..blklen];
      stream := stream + result[..blklen];
      AddWraps(pos, blklen);
      AddWraps(blocks, 1);
      offset := Add32(offset, blklen);
      nblocks := Add32(nblocks, 1);
      pos, blocks := pos + blklen, blocks + 1;
    }

    /** Writes the blocks of a file, 512 bytes of data at a time. */
    method GenBlocks(data: seq<byte>) returns (ntotal: nat, ghost s: seq<byte>)
      requires Valid()
      modifies this, lzf.hashtab
      ensures Valid() && Same(old(dir), old(parentOffset), old(nodes))
      ensures ntotal == |data| && stream == old(stream) + s && IsBlocks(s, data)
      ensures pos == old(pos) + |s| && blocks == old(blocks) + (|data| + 511) / 512
    {
      var iobuffer := new byte[Lzf.BUFSIZE];
      var result := new byte[Lzf.RESULT_SIZE];
      ntotal, s := 0, [];
      ghost var n := 0;
      while ntotal < |data|
        invariant Valid() && Same(old(dir), old(parentOffset), old(nodes))
        invariant stream == old(stream) + s && BlocksSoFar(s, data, ntotal, n)
        invariant pos == old(pos) + |s| && blocks == old(blocks) + n
      {
        var nread := Min(Lzf.BUFSIZE, |data| - ntotal);
        ghost var b := GenBlock(data[ntotal..ntotal + nread], iobuffer, result);
        NextBlock(s, data, ntotal, n, b, nread);
        Concatenated(old(stream), s, b);
        s := s + b;
        ntotal, n := ntotal + nread, n + 1;
      }
      AllBlocks(s, data, n);
    }

    /** Writes a node and its name, then what was generated below it; nodeoffs and next are taken modulo 2^32. */
    method PutNode(name: Name, mode: nat, nodeoffs: nat, size: nat, last: bool, next: nat, subtree: seq<byte>,
                   ghost off: nat, ghost end: nat)
      requires Valid() && nodeoffs == off % U32 && next == end % U32
      modifies this
      ensures Valid() && Same(old(dir), old(parentOffset), old(nodes) + 1)
      ensures pos == old(pos) && blocks == old(blocks)
      ensures stream == old(stream) + (Header(name, mode, off, size, if last then 0 else end) + subtree)
    {
      var o := Add32(nodeoffs, NODE);
      var nameoff := o;
      o := Add32(o, |name| + 1);
      HeaderWraps(name, mode, off, size, if last then 0 else end);
      var header := NodeBytes(mode, nameoff, size % U32, if last then 0 else next, o) + name + [0];
      Concatenated(stream, header, subtree);
      stream := stream + header;
      AddWraps(nodes, 1);
      nnodes := Add32(nnodes, 1);
      nodes := nodes + 1;
      stream := stream + subtree;
    }

    /** Starts a fresh stream for what follows the node, and accounts for the node not yet written. */
    method OpenNode(name: Name) returns (nodeoffs: nat, saved: seq<byte>)
      requires Valid()
      modifies this
      ensures Valid() && Same(old(dir), old(parentOffset), old(nodes))
      ensures nodeoffs == old(pos) % U32 && saved == old(stream) && stream == []
      ensures pos == old(pos) + NODE + |name| + 1 && blocks == old(blocks)
    {
      nodeoffs, saved := offset, stream;
      stream := [];
      AddWraps(pos, NODE + |name| + 1);
      offset := Add32(offset, NODE + |name| + 1);
      pos := pos + NODE + |name| + 1;
    }

    /** A regular file: its node and name go in front of the blocks already written. */
    method GenFile(e: Entry, last: bool) returns (ghost s: seq<byte>)
      requires Valid() && e.kind.Regular?
      modifies this, lzf.hashtab
      ensures Valid() && Same(old(dir), old(parentOffset), old(nodes) + 1)
      ensures stream == old(stream) + s && IsEntry(s, old(pos), e, last, dir)
      ensures |s| >= NODE && ModeShows(LeValue(s[..2]), 15, e.mode)
      ensures pos == old(pos) + |s| && blocks == old(blocks) + EntryBlocks(e)
    {
      ghost var off := pos;
      var nodeoffs, saved := OpenNode(e.name);
      var ntotal;
      ghost var b;
      ntotal, b := GenBlocks(e.kind.data);
      var outstream := stream;
      assert outstream == b;
      stream := saved;
      s := CloseFile(e, last, nodeoffs, ntotal, outstream, off);
      RecordMode(s, off, e, last, dir);
    }

    /** The node of a file whose blocks are in outstream. */
    method CloseFile(e: Entry, last: bool, nodeoffs: nat, ntotal: nat, outstream: seq<byte>, ghost off: nat)
      returns (ghost s: seq<byte>)
      requires Valid() && e.kind.Regular? && IsBlocks(outstream, e.kind.data) && ntotal == |e.kind.data|
      requires nodeoffs == off % U32
      modifies this
      ensures Valid() && Same(old(dir), old(parentOffset), old(nodes) + 1)
      ensures stream == old(stream) + s && IsEntry(s, off, e, last, dir)
      ensures |s| == NODE + |e.name| + 1 + |outstream| && pos == old(pos) && blocks == old(blocks)
    {
      ghost var end := off + (NODE + |e.name| + 1) + |outstream|;
      var peer := PeerOffset(nodeoffs, NODE + |e.name| + 1, |outstream|, off);
      assert peer == end % U32;
      s := FileRecord(off, e, last, dir, outstream);
      PutNode(e.name, IFREG + Permissions(e.mode), nodeoffs, ntotal, last, peer, outstream, off, end);
    }

    /** First pass over a directory: stops at the first file or directory. */
    method DirNotEmpty(L: seq<Entry>) returns (found: bool)
      ensures found <==> NotEmpty(L, 0)
    {
      found := false;
      for i := 0 to |L|
        invariant found <==> exists k :: 0 <= k < i && Real(L[k])
      {
        if L[i].name != DOT && L[i].name != DOTDOT {
          found := L[i].kind.Regular? || L[i].kind.Directory?;
          if found {
            assert Real(L[i]);
            return;
          }
        }
      }
    }

    /** Second pass: the records of all entries, in order. */
    method Traverse(L: seq<Entry>) returns (ghost s: seq<byte>)
      requires Valid()
      modifies this, lzf.hashtab
      ensures Valid() && Same(old(dir), old(parentOffset), old(nodes) + Nodes(L, |L|))
      ensures stream == old(stream) + s && IsChain(s, old(pos), L, 0, |L|, dir)
      ensures pos == old(pos) + |s| && blocks == old(blocks) + Blocks(L, |L|)
      decreases L, 0
    {
      s := [];
      for i := 0 to |L|
        invariant Valid() && Same(old(dir), old(parentOffset), old(nodes) + Nodes(L, i))
        invariant stream == old(stream) + s && IsChain(s, old(pos), L, 0, i, dir)
        invariant pos == old(pos) + |s| && blocks == old(blocks) + Blocks(L, i)
      {
        ghost var b := GenEntry(L[i], i + 1 == |L|);
        AddEntry(s, old(pos), L, 0, i, dir, b, old(pos) + |s|);
        Concatenated(old(stream), s, b);
        s := s + b;
      }
    }

    /** One entry: "." and ".." are skipped, special files are omitted. */
    method GenEntry(e: Entry, last: bool) returns (ghost b: seq<byte>)
      requires Valid()
      modifies this, lzf.hashtab
      ensures Valid() && Same(old(dir), old(parentOffset), old(nodes) + if Real(e) then EntryNodes(e) else 0)
      ensures stream == old(stream) + b && if Real(e) then IsEntry(b, old(pos), e, last, dir) else b == []
      ensures pos == old(pos) + |b| && blocks == old(blocks) + if Real(e) then EntryBlocks(e) else 0
      decreases e, 2
    {
      b := [];
      if e.name != DOT && e.name != DOTDOT {
        match e.kind
        case Directory(_) => b := GenDirectory(e, last);
        case Regular(_) => b := GenFile(e, last);
        case Other =>
      }
    }

    /** A directory: links, then the subtree, then, in front of both, its node. */
    method GenDirectory(e: Entry, last: bool) returns (ghost s: seq<byte>)
      requires Valid() && e.kind.Directory?
      modifies this, lzf.hashtab
      ensures Valid() && Same(old(dir), old(parentOffset), old(nodes) + EntryNodes(e))
      ensures stream == old(stream) + s && IsEntry(s, old(pos), e, last, dir)
      ensures |s| >= NODE && ModeShows(LeValue(s[..2]), 14, e.mode)
      ensures pos == old(pos) + |s| && blocks == old(blocks) + EntryBlocks(e)
      decreases e, 1
    {
      ghost var off, h := pos, NODE + |e.name| + 1;
      var nodeoffs, saved := OpenNode(e.name);
      ghost var b := GenBelow(e.kind.listing);
      var subtree := stream;
      stream := saved;
      s := DirRecord(off, e, last, dir, b);
      PutNode(e.name, IFDIR + Permissions(e.mode), nodeoffs, 0, last, offset, subtree, off, off + h + |b|);
      RecordMode(s, off, e, last, dir);
    }

    /** The inside of a new directory below the current one; the saved offsets come back. */
    method GenBelow(L: seq<Entry>) returns (ghost b: seq<byte>)
      requires Valid() && stream == []
      modifies this, lzf.hashtab
      ensures Valid() && Same(old(dir), old(parentOffset), old(nodes) + 2 + Nodes(L, |L|))
      ensures stream == b && IsDir(b, old(pos), L, dir)
      ensures pos == old(pos) + |b| && blocks == old(blocks) + Blocks(L, |L|)
      decreases L, 2
    {
      ghost var self := dir;
      var saveDir, saveParent := diroffset, parentOffset;
      parentOffset := diroffset;
      diroffset := offset;
      dir := pos;
      b := GenContents(L, self);
      diroffset, parentOffset := saveDir, saveParent;
      dir := self;
    }

    /** The inside of a directory whose "." is the current position. */
    method GenContents(L: seq<Entry>, ghost parent: nat) returns (ghost b: seq<byte>)
      requires Valid() && dir == pos && parentOffset == parent % U32 && stream == []
      modifies this, lzf.hashtab
      ensures Valid() && Same(old(dir), old(parentOffset), old(nodes) + 2 + Nodes(L, |L|))
      ensures stream == b && IsDir(b, old(pos), L, parent)
      ensures pos == old(pos) + |b| && blocks == old(blocks) + Blocks(L, |L|)
      decreases L, 1
    {
      ghost var off := pos;
      var result := DirNotEmpty(L);
      GenDirlink(DOT, diroffset, false, dir);
      assert stream == LinkBytes(DOT, off, off, false);
      GenDirlink(DOTDOT, parentOffset, !result, parent);
      ghost var chain: seq<byte> := [];
      if result {
        chain := Traverse(L);
      } else {
        EmptyChain(L, 0, pos, dir);
      }
      b := DirContents(off, L, parent, chain);
    }

    /** The root directory: its link, and the entries below it. */
    method GenRoot(L: seq<Entry>) returns (ghost chain: seq<byte>)
      requires Valid() && pos == VOLUME && dir == VOLUME && stream == [] && nodes == 0 && blocks == 0
      modifies this, lzf.hashtab
      ensures Valid() && nodes == 1 + Nodes(L, |L|) && blocks == Blocks(L, |L|) && pos == VOLUME + 22 + |chain|
      ensures stream == LinkBytes(DOT, VOLUME, VOLUME, !NotEmpty(L, 0)) + chain
      ensures IsChain(chain, VOLUME + 22, L, 0, |L|, VOLUME)
    {
      chain := [];
      var result := DirNotEmpty(L);
      GenDirlink(DOT, diroffset, !result, VOLUME);
      if result {
        chain := Traverse(L);
      } else {
        EmptyChain(L, 0, pos, dir);
      }
    }
  }

  /** The whole program: the image of the tree under the root directory. */
  method Generate(L: seq<Entry>) returns (image: seq<byte>)
    ensures IsVolume(image, L)
    ensures |image| < U32 ==> (Readable(image, L) <==> Good(L, 0))
    ensures |image| < U32 && Good(L, 0) ==> |image| >= VOLUME && Counted(image, ReadVolume(image).value)
  {
    var g := new Generator();
    ghost var chain := g.GenRoot(L);
    image := VolumeBytes(g.nnodes, g.nblocks, g.offset) + g.stream;
    VolumeComplete(image, L, g.nodes, g.blocks, g.pos, chain);
    VolumeReadBack(image, L);
  }
}
