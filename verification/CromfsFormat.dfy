/** The CROMFS image format: the source tree, the records an image is made of, and an independent reader. */
module CromfsFormat {
  import opened Bytes
  import Lzf

  // ---------------------------------------------------------------- the source tree

  type Name = s: seq<byte> | 0 !in s

  datatype Kind = Regular(data: seq<byte>) | Directory(listing: seq<Entry>) | Other

  /** A directory entry as readdir() and stat() report it. */
  datatype Entry = Entry(name: Name, mode: nat, kind: Kind)

  const DOT: Name := ['.' as byte]
  const DOTDOT: Name := ['.' as byte, '.' as byte]

  /** Entries that get a record: "." and ".." are skipped, special files are omitted. */
  predicate Real(e: Entry) {
    e.name != DOT && e.name != DOTDOT && !e.kind.Other?
  }

  predicate NotEmpty(L: seq<Entry>, lo: nat)
    requires lo <= |L|
  {
    exists i :: lo <= i < |L| && Real(L[i])
  }

  // ---------------------------------------------------------------- records

  const NODE: nat := 20    // sizeof(struct cromfs_node_s)
  const VOLUME: nat := 20  // sizeof(struct cromfs_volume_s)
  const IFDIR: nat := 4 * 4096
  const IFREG: nat := 8 * 4096
  const DIRLINK: nat := 10 * 4096 + 0x16D
  const MAGIC: nat := 0x4d4f5243

  /** Bit k of x, the lowest being bit 0. */
  predicate HasBit(x: nat, k: nat)
    decreases k, x
  {
    if k == 0 then x % 2 == 1 else HasBit(x / 2, k - 1)
  }

  /** get_mode: the read and execute permissions of the host mode. */
  function Permissions(mode: nat): (r: nat)
    ensures r < 512
  {
    (if HasBit(mode, 0) then 1 else 0) + (if HasBit(mode, 2) then 4 else 0) +
    (if HasBit(mode, 3) then 8 else 0) + (if HasBit(mode, 5) then 32 else 0) +
    (if HasBit(mode, 6) then 64 else 0) + (if HasBit(mode, 8) then 256 else 0)
  }

  function NodeBytes(mode: nat, name: nat, size: nat, peer: nat, u: nat): (r: seq<byte>)
    ensures |r| == NODE
  {
    Le16(mode) + Le16(0) + Le32(name) + Le32(size) + Le32(peer) + Le32(u)
  }

  function VolumeBytes(nnodes: nat, nblocks: nat, fsize: nat): (r: seq<byte>)
    ensures |r| == VOLUME
  {
    Le32(MAGIC) + Le16(nnodes) + Le16(nblocks) + Le32(VOLUME) + Le32(fsize) + Le32(512)
  }

  function LinkBytes(name: Name, off: nat, target: nat, last: bool): (r: seq<byte>)
    ensures |r| == NODE + |name| + 1
  {
    NodeBytes(DIRLINK, off + NODE, 0, if last then 0 else off + NODE + |name| + 1, target) + name + [0]
  }

  /** The node and name of a file or directory at off. */
  function Header(name: Name, mode: nat, off: nat, size: nat, peer: nat): (r: seq<byte>)
    ensures |r| == NODE + |name| + 1
  {
    NodeBytes(mode, off + NODE, size, peer, off + NODE + |name| + 1) + name + [0]
  }

  /** s is a run of blocks that decode, 512 bytes at a time, to data. */
  ghost predicate IsBlocks(s: seq<byte>, data: seq<byte>)
    decreases |data|
  {
    if data == [] then s == []
    else
      var n := Lzf.BlockLength(s);
      var k := Min(512, |data|);
      n.Some? && n.value <= |s| && Lzf.DecodeBlock(s[..n.value]) == Some(data[..k]) && IsBlocks(s[n.value..], data[k..])
  }

  /** s is the record of e, with everything below it, for absolute offset off in a directory that starts at self. */
  ghost predicate IsEntry(s: seq<byte>, off: nat, e: Entry, last: bool, self: nat)
    decreases e, 1
  {
    var h := NODE + |e.name| + 1;
    var peer := if last then 0 else off + |s|;
    |s| >= h &&
    match e.kind
    case Other => false
    case Regular(data) =>
      s[..h] == Header(e.name, IFREG + Permissions(e.mode), off, |data|, peer) && IsBlocks(s[h..], data)
    case Directory(L) =>
      s[..h] == Header(e.name, IFDIR + Permissions(e.mode), off, 0, peer) && IsDir(s[h..], off + h, L, self)
  }

  const LINKS: nat := 45

  ghost predicate IsDir(s: seq<byte>, off: nat, L: seq<Entry>, parent: nat)
    decreases L, |L| + 1
  {
    && |s| >= LINKS
    && s[..LINKS] == LinkBytes(DOT, off, off, false) + LinkBytes(DOTDOT, off + 22, parent, !NotEmpty(L, 0))
    && IsChain(s[LINKS..], off + LINKS, L, 0, |L|, off)
  }

  /** s holds the records of the real entries among L[lo..hi], one after the other. */
  ghost predicate IsChain(s: seq<byte>, off: nat, L: seq<Entry>, lo: nat, hi: nat, self: nat)
    requires lo <= hi <= |L|
    decreases L, hi - lo
  {
    if lo == hi then s == []
    else if !Real(L[lo]) then IsChain(s, off, L, lo + 1, hi, self)
    else exists k :: IsSplit(s, k, off, L, lo, hi, self)
  }

  ghost predicate IsSplit(s: seq<byte>, k: nat, off: nat, L: seq<Entry>, lo: nat, hi: nat, self: nat)
    requires lo < hi <= |L|
    decreases L, hi - lo, 0
  {
    && k <= |s| && IsEntry(s[..k], off, L[lo], lo + 1 == |L|, self)
    && IsChain(s[k..], off + k, L, lo + 1, hi, self)
  }

  /** A whole image of the listing L. */
  ghost predicate IsVolume(img: seq<byte>, L: seq<Entry>) {
    && |img| >= VOLUME + 22
    && img[..VOLUME] == VolumeBytes(1 + Nodes(L, |L|), Blocks(L, |L|), |img|)
    && img[VOLUME..VOLUME + 22] == LinkBytes(DOT, VOLUME, VOLUME, !NotEmpty(L, 0))
    && IsChain(img[VOLUME + 22..], VOLUME + 22, L, 0, |L|, VOLUME)
  }

  /** Number of node records for the first hi entries of L and everything below them. */
  function Nodes(L: seq<Entry>, hi: nat): nat
    requires hi <= |L|
    decreases L, hi
  {
    if hi == 0 then 0 else Nodes(L, hi - 1) + if Real(L[hi - 1]) then EntryNodes(L[hi - 1]) else 0
  }

  function EntryNodes(e: Entry): nat
    decreases e, 1
  {
    1 + if e.kind.Directory? then 2 + Nodes(e.kind.listing, |e.kind.listing|) else 0
  }

  /** Number of data blocks for the first hi entries of L and everything below them. */
  function Blocks(L: seq<Entry>, hi: nat): nat
    requires hi <= |L|
    decreases L, hi
  {
    if hi == 0 then 0 else Blocks(L, hi - 1) + if Real(L[hi - 1]) then EntryBlocks(L[hi - 1]) else 0
  }

  function EntryBlocks(e: Entry): nat
    decreases e, 1
  {
    match e.kind
    case Regular(data) => (|data| + 511) / 512
    case Directory(L) => Blocks(L, |L|)
    case Other => 0
  }

  // ---------------------------------------------------------------- the reader

  datatype Item = FileItem(name: seq<byte>, mode: nat, data: seq<byte>)
                | DirItem(name: seq<byte>, mode: nat, items: seq<Item>)

  datatype Node = Node(mode: nat, name: nat, size: nat, peer: nat, u: nat)

  function ReadNode(img: seq<byte>, off: nat): Node
    requires off + NODE <= |img|
  {
    Node(LeValue(img[off..off + 2]), LeValue(img[off + 4..off + 8]), LeValue(img[off + 8..off + 12]),
         LeValue(img[off + 12..off + 16]), LeValue(img[off + 16..off + 20]))
  }

  /** Decodes blocks from off, each as long as its own header says, until size bytes are produced. */
  function ReadBlocks(img: seq<byte>, off: nat, size: nat): (r: Option<seq<byte>>)
    ensures r.Some? ==> |r.value| == size
    decreases size
  {
    if size == 0 then Some([])
    else if off > |img| then None
    else
      var n, d := Lzf.BlockLength(img[off..]), Lzf.DecodeBlock(img[off..]);
      if n.None? || d.None? || d.value == [] || |d.value| > size then None
      else
        var rest := ReadBlocks(img, off + n.value, size - |d.value|);
        if rest.None? then None else Some(d.value + rest.value)
  }

  /** A hard link called name at off that points to target; yields its peer. */
  function ReadLink(img: seq<byte>, off: nat, name: Name, target: nat): Option<nat>
  {
    if off + NODE > |img| then None
    else
      var n := ReadNode(img, off);
      if n.mode == DIRLINK && n.u == target && ReadName(img, n.name) == Some(name) then Some(n.peer) else None
  }

  function ReadItem(img: seq<byte>, off: nat, self: nat): Option<Item>
    decreases |img| - off, 0
  {
    if off + NODE > |img| then None
    else
      var n := ReadNode(img, off);
      var name := ReadName(img, n.name);
      if name.None? then None
      else if n.mode / 4096 == 8 then
        var data := ReadBlocks(img, n.u, n.size);
        if data.None? then None else Some(FileItem(name.value, n.mode, data.value))
      else if n.mode / 4096 == 4 && n.u > off then
        var items := ReadDir(img, n.u, self);
        if items.None? then None else Some(DirItem(name.value, n.mode, items.value))
      else None
  }

  /** A directory starts with "." pointing at itself and ".." pointing at its parent. */
  function ReadDir(img: seq<byte>, off: nat, parent: nat): Option<seq<Item>>
    decreases |img| - off, 2
  {
    var dot := ReadLink(img, off, DOT, off);
    if dot.None? || dot.value <= off then None
    else
      var dotdot := ReadLink(img, dot.value, DOTDOT, parent);
      if dotdot.None? then None
      else if dotdot.value == 0 then Some([])
      else if dotdot.value <= off then None
      else ReadChain(img, dotdot.value, off)
  }

  /** The node at off and all its peers. */
  function ReadChain(img: seq<byte>, off: nat, self: nat): (r: Option<seq<Item>>)
    ensures r.Some? ==> |r.value| > 0
    decreases |img| - off, 1
  {
    var item := ReadItem(img, off, self);
    if item.None? then None
    else
      var peer := ReadNode(img, off).peer;
      if peer == 0 then Some([item.value])
      else if peer <= off then None
      else
        var rest := ReadChain(img, peer, self);
        if rest.None? then None else Some([item.value] + rest.value)
  }

  function ReadVolume(img: seq<byte>): Option<seq<Item>>
  {
    if |img| < VOLUME || LeValue(img[..4]) != MAGIC then None
    else
      var root := LeValue(img[8..12]);
      var dot := ReadLink(img, root, DOT, root);
      if dot.None? then None
      else if dot.value == 0 then Some([])
      else ReadChain(img, dot.value, root)
  }
}
