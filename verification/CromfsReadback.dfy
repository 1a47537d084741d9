/** What a reader recovers from an image: exactly when it is the tree the image was made from. */
module CromfsReadback {
  import opened Bytes
  import opened CromfsFormat
  import opened CromfsModes
  import Lzf

  // ---------------------------------------------------------------- the tree a reader should see

  function ItemOf(e: Entry): Item
    requires Real(e)
    decreases e, 1
  {
    match e.kind
    case Regular(data) => FileItem(e.name, IFREG + Permissions(e.mode), data)
    case Directory(L) => DirItem(e.name, IFDIR + Permissions(e.mode), Items(L, 0))
  }

  function Items(L: seq<Entry>, lo: nat): (r: seq<Item>)
    requires lo <= |L|
    ensures NotEmpty(L, lo) <==> r != []
    decreases L, |L| - lo
  {
    if lo == |L| then []
    else if Real(L[lo]) then [ItemOf(L[lo])] + Items(L, lo + 1)
    else Items(L, lo + 1)
  }

  /** What the generator needs of its input: file sizes fit 32 bits and, in a directory with any real entry,
      the last one readdir() returns is real. */
  ghost predicate Good(L: seq<Entry>, lo: nat)
    requires lo <= |L|
    decreases L, |L| - lo
  {
    && (NotEmpty(L, lo) ==> Real(L[|L| - 1]))
    && forall i :: lo <= i < |L| && Real(L[i]) ==> GoodEntry(L[i])
  }

  ghost predicate GoodEntry(e: Entry)
    decreases e, 1
  {
    match e.kind
    case Regular(data) => |data| < U32
    case Directory(L) => Good(L, 0)
    case Other => true
  }

  /** An item read from an image shows a directory entry: its name, its type and permissions, and what it holds. */
  ghost predicate Shows(item: Item, e: Entry)
    decreases e, 1
  {
    match (item, e.kind)
    case (FileItem(name, mode, data), Regular(d)) => name == e.name && ModeShows(mode, 15, e.mode) && data == d
    case (DirItem(name, mode, items), Directory(L)) =>
      name == e.name && ModeShows(mode, 14, e.mode) && ShowsAll(items, L, 0)
    case _ => false
  }

  /** The items show, in order, all entries from lo on but ".", ".." and special files. */
  ghost predicate ShowsAll(items: seq<Item>, L: seq<Entry>, lo: nat)
    requires lo <= |L|
    decreases L, |L| - lo
  {
    if lo == |L| then items == []
    else if L[lo].kind.Other? || L[lo].name == ['.' as byte] || L[lo].name == ['.' as byte, '.' as byte] then
      ShowsAll(items, L, lo + 1)
    else items != [] && Shows(items[0], L[lo]) && ShowsAll(items[1..], L, lo + 1)
  }

  /** The tree a reader should see is the one that shows the source tree. */
  lemma {:induction false} ShowsExactly(items: seq<Item>, L: seq<Entry>, lo: nat)
    requires lo <= |L|
    ensures ShowsAll(items, L, lo) <==> items == Items(L, lo)
    decreases L, |L| - lo
  {
    if lo < |L| {
      if Real(L[lo]) {
        var rest := Items(L, lo + 1);
        assert ([ItemOf(L[lo])] + rest)[1..] == rest;
        if items != [] {
          ShowsOne(items[0], L[lo]);
          ShowsExactly(items[1..], L, lo + 1);
          assert items == [items[0]] + items[1..];
        }
      } else {
        ShowsExactly(items, L, lo + 1);
      }
    }
  }

  lemma {:induction false} ShowsOne(item: Item, e: Entry)
    requires Real(e)
    ensures Shows(item, e) <==> item == ItemOf(e)
    decreases e, 1
  {
    ModeStored(e.kind.Regular?, e.mode);
    if item.FileItem? && ModeShows(item.mode, 15, e.mode) && e.kind.Regular? {
      OneMode(item.mode, IFREG + Permissions(e.mode), 15, e.mode);
    } else if item.DirItem? && e.kind.Directory? {
      ShowsExactly(item.items, e.kind.listing, 0);
      if ModeShows(item.mode, 14, e.mode) {
        OneMode(item.mode, IFDIR + Permissions(e.mode), 14, e.mode);
      }
    }
  }

  /** Nodes of what was read: one for a file, three for a directory, whose links are nodes too. */
  function NodesIn(items: seq<Item>): nat {
    if items == [] then 0
    else (if items[0].FileItem? then 1 else 3 + NodesIn(items[0].items)) + NodesIn(items[1..])
  }

  /** Blocks of what was read: one for every 512 bytes of a file that are begun. */
  function BlocksIn(items: seq<Item>): nat {
    if items == [] then 0
    else (if items[0].FileItem? then (|items[0].data| + 511) / 512 else BlocksIn(items[0].items)) + BlocksIn(items[1..])
  }

  lemma {:induction false} CountsFrom(L: seq<Entry>, lo: nat)
    requires lo <= |L|
    ensures Nodes(L, lo) + NodesIn(Items(L, lo)) == Nodes(L, |L|)
    ensures Blocks(L, lo) + BlocksIn(Items(L, lo)) == Blocks(L, |L|)
    decreases L, |L| - lo
  {
    if lo < |L| {
      CountsFrom(L, lo + 1);
      if Real(L[lo]) {
        var rest := Items(L, lo + 1);
        assert ([ItemOf(L[lo])] + rest)[1..] == rest;
        if L[lo].kind.Directory? {
          CountsFrom(L[lo].kind.listing, 0);
        }
      }
    }
  }

  // ---------------------------------------------------------------- fields

  lemma HoldsPart(img: seq<byte>, off: nat, s: seq<byte>, a: nat, b: nat)
    requires Holds(img, off, s) && a <= b <= |s|
    ensures Holds(img, off + a, s[a..b])
  {
    forall k | a <= k < b ensures img[off + k] == s[k] {
      assert img[off..off + |s|][k] == s[k];
    }
    var part := img[off + a..off + b];
    assert forall k :: 0 <= k < b - a ==> part[k] == img[off + (a + k)];
  }

  lemma HoldsSplit(img: seq<byte>, off: nat, s: seq<byte>, k: nat)
    requires Holds(img, off, s) && k <= |s|
    ensures Holds(img, off, s[..k]) && Holds(img, off + k, s[k..])
  {
    HoldsPart(img, off, s, 0, k);
    HoldsPart(img, off, s, k, |s|);
    assert s[0..k] == s[..k] && s[k..|s|] == s[k..];
  }

  lemma NodeFields(mode: nat, name: nat, size: nat, peer: nat, u: nat)
    ensures var s := NodeBytes(mode, name, size, peer, u);
            s[0..2] == Le16(mode) && s[2..4] == Le16(0) && s[4..8] == Le32(name) && s[8..12] == Le32(size) &&
            s[12..16] == Le32(peer) && s[16..20] == Le32(u)
  {
    SixFields(Le16(mode), Le16(0), Le32(name), Le32(size), Le32(peer), Le32(u));
  }

  lemma SixFields(a: seq<byte>, b: seq<byte>, c: seq<byte>, d: seq<byte>, e: seq<byte>, f: seq<byte>)
    requires |a| == |b| == 2 && |c| == |d| == |e| == |f| == 4
    ensures var v := a + b + c + d + e + f;
            && v[0..2] == a && v[2..4] == b && v[4..8] == c && v[8..12] == d && v[12..16] == e && v[16..20] == f
  {
  }

  lemma Field16(img: seq<byte>, off: nat, x: nat)
    requires Holds(img, off, Le16(x))
    ensures LeValue(img[off..off + 2]) == x % U16
  {
    Le16Value(x);
  }

  lemma Field32(img: seq<byte>, off: nat, x: nat)
    requires Holds(img, off, Le32(x))
    ensures LeValue(img[off..off + 4]) == x % U32
  {
    Le32Value(x);
  }

  lemma NodeParts(img: seq<byte>, off: nat, mode: nat, name: nat, size: nat, peer: nat, u: nat)
    requires Holds(img, off, NodeBytes(mode, name, size, peer, u))
    ensures Holds(img, off, Le16(mode)) && Holds(img, off + 4, Le32(name)) && Holds(img, off + 8, Le32(size))
    ensures Holds(img, off + 12, Le32(peer)) && Holds(img, off + 16, Le32(u))
  {
    var s := NodeBytes(mode, name, size, peer, u);
    NodeFields(mode, name, size, peer, u);
    HoldsPart(img, off, s, 0, 2);
    HoldsPart(img, off, s, 4, 8);
    HoldsPart(img, off, s, 8, 12);
    HoldsPart(img, off, s, 12, 16);
    HoldsPart(img, off, s, 16, 20);
  }

  lemma ReadNodeBytes(img: seq<byte>, off: nat, mode: nat, name: nat, size: nat, peer: nat, u: nat)
    requires Holds(img, off, NodeBytes(mode, name, size, peer, u))
    requires mode < U16 && name < U32 && peer < U32 && u < U32
    ensures ReadNode(img, off) == Node(mode, name, size % U32, peer, u)
  {
    NodeParts(img, off, mode, name, size, peer, u);
    ReadParts(img, off, mode, name, size, peer, u);
  }

  lemma ReadParts(img: seq<byte>, off: nat, mode: nat, name: nat, size: nat, peer: nat, u: nat)
    requires Holds(img, off, Le16(mode)) && Holds(img, off + 4, Le32(name)) && Holds(img, off + 8, Le32(size))
    requires Holds(img, off + 12, Le32(peer)) && Holds(img, off + 16, Le32(u))
    requires mode < U16 && name < U32 && peer < U32 && u < U32
    ensures off + NODE <= |img| && ReadNode(img, off) == Node(mode, name, size % U32, peer, u)
  {
    Field16(img, off, mode);
    WordAt(img, off + 4, name);
    Field32(img, off + 8, size);
    WordAt(img, off + 12, peer);
    WordAt(img, off + 16, u);
  }

  lemma WordAt(img: seq<byte>, off: nat, x: nat)
    requires Holds(img, off, Le32(x)) && x < U32
    ensures LeValue(img[off..off + 4]) == x
  {
    Field32(img, off, x);
  }

  lemma {:induction false} ReadNameBytes(img: seq<byte>, off: nat, name: Name)
    requires Holds(img, off, name + [0])
    ensures ReadName(img, off) == Some(name)
    decreases |name|
  {
    assert img[off] == img[off..off + |name| + 1][0] == (name + [0])[0];
    if name != [] {
      HoldsPart(img, off, name + [0], 1, |name| + 1);
      assert (name + [0])[1..|name| + 1] == name[1..] + [0];
      ReadNameBytes(img, off + 1, name[1..]);
      assert [name[0]] + name[1..] == name;
    }
  }

  lemma ReadLinkBytes(img: seq<byte>, off: nat, name: Name, target: nat, last: bool)
    requires Holds(img, off, LinkBytes(name, off, target, last)) && |img| < U32 && target < U32
    ensures ReadLink(img, off, name, target) == Some(if last then 0 else off + NODE + |name| + 1)
  {
    var s := LinkBytes(name, off, target, last);
    var peer := if last then 0 else off + NODE + |name| + 1;
    HoldsPart(img, off, s, 0, NODE);
    assert s[0..NODE] == NodeBytes(DIRLINK, off + NODE, 0, peer, target);
    ReadNodeBytes(img, off, DIRLINK, off + NODE, 0, peer, target);
    HoldsPart(img, off, s, NODE, |s|);
    assert s[NODE..|s|] == name + [0];
    ReadNameBytes(img, off + NODE, name);
  }

  // ---------------------------------------------------------------- file contents

  lemma DecodePrefix(b: seq<byte>, c: seq<byte>)
    requires Lzf.BlockLength(b).Some? && Lzf.BlockLength(b).value <= |b| <= |c| && c[..|b|] == b
    ensures Lzf.BlockLength(c) == Lzf.BlockLength(b) && Lzf.DecodeBlock(c) == Lzf.DecodeBlock(b)
  {
    var n := Lzf.BlockLength(b).value;
    assert forall k :: 0 <= k < |b| ==> c[k] == c[..|b|][k];
    assert c[Lzf.HDR0..n] == b[Lzf.HDR0..n];
    if b[2] == 1 {
      assert c[Lzf.HDR1..n] == b[Lzf.HDR1..n];
    }
  }

  /** The first block of a run, read in place. */
  lemma FirstBlock(img: seq<byte>, off: nat, s: seq<byte>, data: seq<byte>, n: nat, k: nat)
    requires Holds(img, off, s) && data != [] && IsBlocks(s, data)
    requires Lzf.BlockLength(s) == Some(n) && k == Min(512, |data|)
    ensures Lzf.BlockLength(img[off..]) == Some(n) && Lzf.DecodeBlock(img[off..]) == Some(data[..k])
  {
    var b := s[..n];
    assert b[..n] == b;
    DecodePrefix(s, img[off..]) by { assert img[off..][..|s|] == s; }
    DecodePrefix(b, s) by { BlockPrefix(s); }
  }

  /** One block, and what is read behind it. */
  lemma ReadBlocksStep(img: seq<byte>, off: nat, size: nat, n: nat, d: seq<byte>, rest: seq<byte>)
    requires off <= |img| && 0 < |d| <= size
    requires Lzf.BlockLength(img[off..]) == Some(n) && Lzf.DecodeBlock(img[off..]) == Some(d)
    requires ReadBlocks(img, off + n, size - |d|) == Some(rest)
    ensures ReadBlocks(img, off, size) == Some(d + rest)
  {
  }

  lemma {:induction false} ReadBlocksBack(img: seq<byte>, off: nat, s: seq<byte>, data: seq<byte>)
    requires Holds(img, off, s) && IsBlocks(s, data)
    ensures ReadBlocks(img, off, |data|) == Some(data)
    decreases |data|
  {
    if data != [] {
      var n, k := Lzf.BlockLength(s).value, Min(512, |data|);
      FirstBlock(img, off, s, data, n, k);
      HoldsPart(img, off, s, n, |s|);
      ReadBlocksBack(img, off + n, s[n..], data[k..]);
      ReadBlocksStep(img, off, |data|, n, data[..k], data[k..]);
      assert data[..k] + data[k..] == data;
    }
  }

  lemma BlockPrefix(s: seq<byte>)
    requires Lzf.BlockLength(s).Some? && Lzf.BlockLength(s).value <= |s|
    ensures Lzf.BlockLength(s[..Lzf.BlockLength(s).value]) == Lzf.BlockLength(s)
  {
  }

  // ---------------------------------------------------------------- entries and directories

  lemma {:induction false} ReadEntry(img: seq<byte>, off: nat, s: seq<byte>, e: Entry, last: bool, self: nat)
    requires Real(e) && Holds(img, off, s) && IsEntry(s, off, e, last, self)
    requires 0 < off && |img| < U32 && self < U32
    ensures ReadItem(img, off, self) == Some(ItemOf(e)) <==> GoodEntry(e)
    ensures off + NODE <= |img| && ReadNode(img, off).peer == if last then 0 else off + |s|
    decreases e, 1
  {
    if e.kind.Regular? {
      ReadFileEntry(img, off, s, e, last, self);
    } else {
      ReadDirEntry(img, off, s, e, last, self);
    }
  }

  lemma ReadFileEntry(img: seq<byte>, off: nat, s: seq<byte>, e: Entry, last: bool, self: nat)
    requires Real(e) && e.kind.Regular? && Holds(img, off, s) && IsEntry(s, off, e, last, self) && |img| < U32
    ensures ReadItem(img, off, self) == Some(ItemOf(e)) <==> GoodEntry(e)
    ensures off + NODE <= |img| && ReadNode(img, off).peer == if last then 0 else off + |s|
  {
    var n := FileHeader(img, off, s, e, last, self);
    ReadBlocksBack(img, n.u, s[n.u - off..], e.kind.data);
    FileItemRead(img, off, e, n, self);
  }

  lemma FileHeader(img: seq<byte>, off: nat, s: seq<byte>, e: Entry, last: bool, self: nat) returns (n: Node)
    requires e.kind.Regular? && Holds(img, off, s) && IsEntry(s, off, e, last, self) && |img| < U32
    ensures off + NODE <= |img| && ReadNode(img, off) == n && off < n.u <= off + |s|
    ensures n.mode == IFREG + Permissions(e.mode) && n.size == |e.kind.data| % U32
    ensures n.peer == if last then 0 else off + |s|
    ensures ReadName(img, n.name) == Some(e.name)
    ensures Holds(img, n.u, s[n.u - off..]) && IsBlocks(s[n.u - off..], e.kind.data)
  {
    n := ReadHeader(img, off, s, e.name, IFREG + Permissions(e.mode), |e.kind.data|, if last then 0 else off + |s|);
  }

  lemma {:induction false} ReadDirEntry(img: seq<byte>, off: nat, s: seq<byte>, e: Entry, last: bool, self: nat)
    requires Real(e) && e.kind.Directory? && Holds(img, off, s) && IsEntry(s, off, e, last, self)
    requires 0 < off && |img| < U32 && self < U32
    ensures ReadItem(img, off, self) == Some(ItemOf(e)) <==> GoodEntry(e)
    ensures off + NODE <= |img| && ReadNode(img, off).peer == if last then 0 else off + |s|
    decreases e, 0
  {
    var n := DirHeader(img, off, s, e, last, self);
    ReadDirectory(img, n.u, s[n.u - off..], e.kind.listing, self);
    DirItemRead(img, off, e, n, self);
  }

  lemma DirHeader(img: seq<byte>, off: nat, s: seq<byte>, e: Entry, last: bool, self: nat) returns (n: Node)
    requires e.kind.Directory? && Holds(img, off, s) && IsEntry(s, off, e, last, self) && |img| < U32
    ensures off + NODE <= |img| && ReadNode(img, off) == n && off < n.u <= off + |s|
    ensures n.mode == IFDIR + Permissions(e.mode)
    ensures n.peer == if last then 0 else off + |s|
    ensures ReadName(img, n.name) == Some(e.name)
    ensures Holds(img, n.u, s[n.u - off..]) && IsDir(s[n.u - off..], n.u, e.kind.listing, self)
  {
    n := ReadHeader(img, off, s, e.name, IFDIR + Permissions(e.mode), 0, if last then 0 else off + |s|);
  }

  /** The mode word of a record, which starts with it. */
  lemma RecordMode(s: seq<byte>, off: nat, e: Entry, last: bool, self: nat)
    requires IsEntry(s, off, e, last, self)
    ensures |s| >= NODE && ModeShows(LeValue(s[..2]), if e.kind.Regular? then 15 else 14, e.mode)
  {
    var file := e.kind.Regular?;
    var mode, peer := (if file then IFREG else IFDIR) + Permissions(e.mode), if last then 0 else off + |s|;
    HeaderMode(s, e.name, mode, off, if file then |e.kind.data| else 0, peer);
    ModeStored(file, e.mode);
  }

  lemma HeaderMode(s: seq<byte>, name: Name, mode: nat, off: nat, size: nat, peer: nat)
    requires |s| >= NODE + |name| + 1 && s[..NODE + |name| + 1] == Header(name, mode, off, size, peer) && mode < U16
    ensures LeValue(s[..2]) == mode
  {
    var h := NODE + |name| + 1;
    assert s[..2] == s[..h][..2] == Le16(mode);
    Le16Value(mode);
  }

  /** The node and name in front of a file's blocks or a directory's entries. */
  lemma ReadHeader(img: seq<byte>, off: nat, s: seq<byte>, name: Name, mode: nat, size: nat, peer: nat)
    returns (n: Node)
    requires Holds(img, off, s) && |img| < U32 && mode < U16 && peer < U32
    requires |s| >= NODE + |name| + 1 && s[..NODE + |name| + 1] == Header(name, mode, off, size, peer)
    ensures off + NODE <= |img| && ReadNode(img, off) == n
    ensures n == Node(mode, off + NODE, size % U32, peer, off + NODE + |name| + 1)
    ensures ReadName(img, off + NODE) == Some(name) && Holds(img, n.u, s[n.u - off..])
  {
    var h := NODE + |name| + 1;
    assert s[..NODE] == s[..h][..NODE] == NodeBytes(mode, off + NODE, size, peer, off + h);
    assert s[NODE..h] == s[..h][NODE..] == name + [0];
    HoldsSplit(img, off, s, NODE);
    ReadNodeBytes(img, off, mode, off + NODE, size, peer, off + h);
    HoldsPart(img, off, s, NODE, h);
    ReadNameBytes(img, off + NODE, name);
    HoldsSplit(img, off, s, h);
    n := ReadNode(img, off);
  }

  lemma ModeKinds(p: nat)
    requires p < 512
    ensures (IFREG + p) / 4096 == 8 && (IFDIR + p) / 4096 == 4
  {
  }

  lemma SizeFits(n: nat)
    ensures n % U32 == n <==> n < U32
  {
  }

  lemma FileItemRead(img: seq<byte>, off: nat, e: Entry, n: Node, self: nat)
    requires Real(e) && e.kind.Regular? && off + NODE <= |img| && ReadNode(img, off) == n
    requires n.mode == IFREG + Permissions(e.mode) && n.size == |e.kind.data| % U32
    requires ReadName(img, n.name) == Some(e.name)
    requires ReadBlocks(img, n.u, |e.kind.data|) == Some(e.kind.data)
    ensures ReadItem(img, off, self) == Some(ItemOf(e)) <==> GoodEntry(e)
  {
    ModeKinds(Permissions(e.mode));
    SizeFits(|e.kind.data|);
  }

  lemma DirItemRead(img: seq<byte>, off: nat, e: Entry, n: Node, self: nat)
    requires Real(e) && e.kind.Directory? && off + NODE <= |img| && ReadNode(img, off) == n && n.u > off
    requires n.mode == IFDIR + Permissions(e.mode)
    requires ReadName(img, n.name) == Some(e.name)
    requires ReadDir(img, n.u, self) == Some(Items(e.kind.listing, 0)) <==> Good(e.kind.listing, 0)
    ensures ReadItem(img, off, self) == Some(ItemOf(e)) <==> GoodEntry(e)
  {
    ModeKinds(Permissions(e.mode));
  }

  /** The links at the head of a directory. */
  lemma DirLinks(img: seq<byte>, off: nat, s: seq<byte>, L: seq<Entry>, parent: nat)
    requires Holds(img, off, s) && IsDir(s, off, L, parent) && |img| < U32 && parent < U32
    ensures ReadLink(img, off, DOT, off) == Some(off + 22)
    ensures ReadLink(img, off + 22, DOTDOT, parent) == Some(if NotEmpty(L, 0) then off + LINKS else 0)
  {
    var dot, dotdot := LinkBytes(DOT, off, off, false), LinkBytes(DOTDOT, off + 22, parent, !NotEmpty(L, 0));
    TwoParts(s, dot, dotdot);
    HoldsPart(img, off, s, 0, 22);
    HoldsPart(img, off, s, 22, LINKS);
    ReadLinkBytes(img, off, DOT, off, false);
    ReadLinkBytes(img, off + 22, DOTDOT, parent, !NotEmpty(L, 0));
  }

  lemma TwoParts(s: seq<byte>, a: seq<byte>, b: seq<byte>)
    requires |a| == 22 && |s| >= LINKS && s[..LINKS] == a + b
    ensures s[0..22] == a && s[22..LINKS] == b
  {
    assert s[0..22] == s[..LINKS][..22] && s[22..LINKS] == s[..LINKS][22..];
  }

  lemma {:induction false} ReadDirectory(img: seq<byte>, off: nat, s: seq<byte>, L: seq<Entry>, parent: nat)
    requires Holds(img, off, s) && IsDir(s, off, L, parent)
    requires 0 < off && |img| < U32 && parent < U32
    ensures ReadDir(img, off, parent) == Some(Items(L, 0)) <==> Good(L, 0)
    decreases L, |L| + 1
  {
    DirLinks(img, off, s, L, parent);
    DirRead(img, off, parent, if NotEmpty(L, 0) then off + LINKS else 0);
    if NotEmpty(L, 0) {
      HoldsPart(img, off, s, LINKS, |s|);
      ReadPeers(img, off + LINKS, s[LINKS..], L, 0, off);
    } else {
      EmptyIsGood(L);
    }
  }

  /** A directory is read from its links on. */
  lemma DirRead(img: seq<byte>, off: nat, parent: nat, next: nat)
    requires ReadLink(img, off, DOT, off) == Some(off + 22) && ReadLink(img, off + 22, DOTDOT, parent) == Some(next)
    requires next == 0 || off < next
    ensures ReadDir(img, off, parent) == if next == 0 then Some([]) else ReadChain(img, next, off)
  {
  }

  lemma {:induction false} ReadPeers(img: seq<byte>, off: nat, s: seq<byte>, L: seq<Entry>, lo: nat, self: nat)
    requires lo <= |L| && NotEmpty(L, lo) && Holds(img, off, s) && IsChain(s, off, L, lo, |L|, self)
    requires 0 < off && |img| < U32 && self < U32
    ensures ReadChain(img, off, self) == Some(Items(L, lo)) <==> Good(L, lo)
    decreases L, |L| - lo
  {
    if !Real(L[lo]) {
      ReadPeers(img, off, s, L, lo + 1, self);
    } else {
      var k: nat :| IsSplit(s, k, off, L, lo, |L|, self);
      ReadHead(img, off, s, k, L, lo, self);
      if NotEmpty(L, lo + 1) {
        ReadPeers(img, off + k, s[k..], L, lo + 1, self);
        PeerFollows(img, off, L, lo, self, off + k);
      } else {
        PeersEnd(img, off, L, lo, self);
      }
    }
  }

  /** The first record of a chain, and where it says the next one is. */
  lemma {:induction false} ReadHead(img: seq<byte>, off: nat, s: seq<byte>, k: nat, L: seq<Entry>, lo: nat, self: nat)
    requires lo < |L| && Real(L[lo]) && Holds(img, off, s) && IsSplit(s, k, off, L, lo, |L|, self)
    requires 0 < off && |img| < U32 && self < U32
    ensures NODE <= k <= |s| && off + NODE <= |img|
    ensures ReadItem(img, off, self) == Some(ItemOf(L[lo])) <==> GoodEntry(L[lo])
    ensures ReadNode(img, off).peer == if lo + 1 == |L| then 0 else off + k
    ensures Holds(img, off + k, s[k..]) && IsChain(s[k..], off + k, L, lo + 1, |L|, self)
    decreases L, |L| - lo, 0
  {
    HoldsSplit(img, off, s, k);
    ReadEntry(img, off, s[..k], L[lo], lo + 1 == |L|, self);
  }

  /** Reading a real entry that is followed by another one. */
  lemma PeerFollows(img: seq<byte>, off: nat, L: seq<Entry>, lo: nat, self: nat, peer: nat)
    requires lo < |L| && Real(L[lo]) && NotEmpty(L, lo + 1)
    requires off < peer && off + NODE <= |img| && ReadNode(img, off).peer == peer
    requires ReadItem(img, off, self) == Some(ItemOf(L[lo])) <==> GoodEntry(L[lo])
    requires ReadChain(img, peer, self) == Some(Items(L, lo + 1)) <==> Good(L, lo + 1)
    ensures ReadChain(img, off, self) == Some(Items(L, lo)) <==> Good(L, lo)
  {
    assert Good(L, lo) <==> GoodEntry(L[lo]) && Good(L, lo + 1);
    var item, rest := ReadItem(img, off, self), ReadChain(img, peer, self);
    if item.Some? && rest.Some? {
      var got, want := [item.value] + rest.value, [ItemOf(L[lo])] + Items(L, lo + 1);
      assert got == want <==> item.value == ItemOf(L[lo]) && rest.value == Items(L, lo + 1) by {
        assert got[0] == item.value && got[1..] == rest.value;
        assert want[0] == ItemOf(L[lo]) && want[1..] == Items(L, lo + 1);
      }
    }
  }

  /** Reading the last real entry: a peer that is not 0 leads out of the directory. */
  lemma PeersEnd(img: seq<byte>, off: nat, L: seq<Entry>, lo: nat, self: nat)
    requires lo < |L| && Real(L[lo]) && !NotEmpty(L, lo + 1) && off + NODE <= |img|
    requires lo + 1 == |L| <==> ReadNode(img, off).peer == 0
    requires ReadItem(img, off, self) == Some(ItemOf(L[lo])) <==> GoodEntry(L[lo])
    ensures ReadChain(img, off, self) == Some(Items(L, lo)) <==> Good(L, lo)
  {
    assert lo + 1 < |L| ==> !Real(L[|L| - 1]);
    assert Items(L, lo + 1) == [] && Items(L, lo) == [ItemOf(L[lo])];
    assert Good(L, lo) <==> lo + 1 == |L| && GoodEntry(L[lo]);
  }

  lemma VolumeWords(img: seq<byte>, L: seq<Entry>)
    requires IsVolume(img, L)
    ensures |img| >= VOLUME && LeValue(img[..4]) == MAGIC && LeValue(img[8..12]) == VOLUME
  {
    HeaderWords(img, 1 + Nodes(L, |L|), Blocks(L, |L|), |img|);
  }

  lemma HeaderWords(img: seq<byte>, nnodes: nat, nblocks: nat, fsize: nat)
    requires |img| >= VOLUME && img[..VOLUME] == VolumeBytes(nnodes, nblocks, fsize)
    ensures LeValue(img[..4]) == MAGIC && LeValue(img[8..12]) == VOLUME
    ensures LeValue(img[4..6]) == nnodes % 65536 && LeValue(img[6..8]) == nblocks % 65536
  {
    VolumeFields(nnodes, nblocks, fsize);
    Front(img, VolumeBytes(nnodes, nblocks, fsize));
  }

  lemma Front(img: seq<byte>, v: seq<byte>)
    requires |img| >= VOLUME && img[..VOLUME] == v
    ensures img[..4] == v[..4] && img[4..6] == v[4..6] && img[6..8] == v[6..8] && img[8..12] == v[8..12]
  {
  }

  /** A volume is read from the link in its root directory on. */
  lemma VolumeRead(img: seq<byte>, next: nat)
    requires |img| >= VOLUME && LeValue(img[..4]) == MAGIC && LeValue(img[8..12]) == VOLUME
    requires ReadLink(img, VOLUME, DOT, VOLUME) == Some(next)
    ensures ReadVolume(img) == if next == 0 then Some([]) else ReadChain(img, next, VOLUME)
  {
  }

  lemma RootLink(img: seq<byte>, L: seq<Entry>)
    requires IsVolume(img, L) && |img| < U32
    ensures ReadLink(img, VOLUME, DOT, VOLUME) == Some(if NotEmpty(L, 0) then VOLUME + 22 else 0)
  {
    ReadLinkBytes(img, VOLUME, DOT, VOLUME, !NotEmpty(L, 0));
  }

  lemma RootEntries(img: seq<byte>, L: seq<Entry>)
    requires IsVolume(img, L) && |img| < U32 && NotEmpty(L, 0)
    ensures ReadChain(img, VOLUME + 22, VOLUME) == Some(Items(L, 0)) <==> Good(L, 0)
  {
    ReadPeers(img, VOLUME + 22, img[VOLUME + 22..], L, 0, VOLUME);
  }

  lemma EmptyIsGood(L: seq<Entry>)
    requires !NotEmpty(L, 0)
    ensures Items(L, 0) == [] && Good(L, 0)
  {
  }

  lemma ReadItems(img: seq<byte>, L: seq<Entry>)
    requires IsVolume(img, L) && |img| < U32
    ensures ReadVolume(img) == Some(Items(L, 0)) <==> Good(L, 0)
  {
    VolumeWords(img, L);
    RootLink(img, L);
    VolumeRead(img, if NotEmpty(L, 0) then VOLUME + 22 else 0);
    if NotEmpty(L, 0) {
      RootEntries(img, L);
    } else {
      EmptyIsGood(L);
    }
  }

  /** The image can be read, and what is read shows the listing. */
  ghost predicate Readable(img: seq<byte>, L: seq<Entry>) {
    ReadVolume(img).Some? && ShowsAll(ReadVolume(img).value, L, 0)
  }

  /** The round trip: below 4 GiB, a reader recovers names, nesting, order, types, permissions, contents and links
      exactly when the source tree is good; and the header then counts the nodes and blocks that were read. */
  lemma ReadBack(img: seq<byte>, L: seq<Entry>)
    requires IsVolume(img, L) && |img| < U32
    ensures Readable(img, L) <==> Good(L, 0)
    ensures |img| >= VOLUME && (Readable(img, L) ==> Counted(img, ReadVolume(img).value))
  {
    ReadItems(img, L);
    if ReadVolume(img).Some? {
      ShowsExactly(ReadVolume(img).value, L, 0);
    }
    HeaderCounts(img, L);
  }

  /** The header counts these items' nodes, the root's link among them, and blocks. */
  ghost predicate Counted(img: seq<byte>, items: seq<Item>)
    requires |img| >= VOLUME
  {
    LeValue(img[4..6]) == (1 + NodesIn(items)) % 65536 && LeValue(img[6..8]) == BlocksIn(items) % 65536
  }

  lemma HeaderCounts(img: seq<byte>, L: seq<Entry>)
    requires IsVolume(img, L)
    ensures |img| >= VOLUME && Counted(img, Items(L, 0))
  {
    CountsFrom(L, 0);
    CountedBy(img, Items(L, 0), 1 + Nodes(L, |L|), Blocks(L, |L|), |img|);
  }

  lemma CountedBy(img: seq<byte>, items: seq<Item>, nnodes: nat, nblocks: nat, fsize: nat)
    requires nnodes == 1 + NodesIn(items) && nblocks == BlocksIn(items)
    requires |img| >= VOLUME && img[..VOLUME] == VolumeBytes(nnodes, nblocks, fsize)
    ensures Counted(img, items)
  {
    HeaderWords(img, nnodes, nblocks, fsize);
  }

  /** When readdir() lists "." last, the peer of the last file leads out of its directory. */
  lemma DotLast(img: seq<byte>)
    requires IsVolume(img, [Entry(['a' as byte], 0, Regular([])), Entry(DOT, 0, Directory([]))]) && |img| < U32
    ensures ReadVolume(img) != Some([FileItem(['a' as byte], IFREG, [])])
  {
    var file, dot := Entry(['a' as byte], 0, Regular([])), Entry(DOT, 0, Directory([]));
    assert Real(file) && !Real(dot);
    assert ItemOf(file) == FileItem(['a' as byte], IFREG, []);
    assert Items([file, dot], 2) == [] && Items([file, dot], 1) == [];
    assert Items([file, dot], 0) == [ItemOf(file)];
    assert NotEmpty([file, dot], 0) by {
      assert Real([file, dot][0]);
    }
    ReadItems(img, [file, dot]);
  }

  /** The header, field by field. */
  lemma VolumeFields(nnodes: nat, nblocks: nat, fsize: nat)
    ensures var v := VolumeBytes(nnodes, nblocks, fsize);
            && v[..4] == ['C' as byte, 'R' as byte, 'O' as byte, 'M' as byte] && LeValue(v[..4]) == MAGIC
            && LeValue(v[4..6]) == nnodes % 65536 && LeValue(v[6..8]) == nblocks % 65536
            && LeValue(v[8..12]) == 20 && LeValue(v[12..16]) == fsize % U32 && LeValue(v[16..20]) == 512
  {
    SixParts(Le32(MAGIC), Le16(nnodes), Le16(nblocks), Le32(VOLUME), Le32(fsize), Le32(512));
    Le32Value(MAGIC);
    Le16Value(nnodes);
    Le16Value(nblocks);
    Le32Value(VOLUME);
    Le32Value(fsize);
    Le32Value(512);
    MagicBytes();
  }

  lemma SixParts(a: seq<byte>, b: seq<byte>, c: seq<byte>, d: seq<byte>, e: seq<byte>, f: seq<byte>)
    requires |a| == |d| == |e| == |f| == 4 && |b| == |c| == 2
    ensures var v := a + b + c + d + e + f;
            && v[..4] == a && v[4..6] == b && v[6..8] == c && v[8..12] == d && v[12..16] == e && v[16..20] == f
  {
  }

  lemma MagicBytes()
    ensures Le32(MAGIC) == ['C' as byte, 'R' as byte, 'O' as byte, 'M' as byte]
  {
    Le32Bytes(MAGIC);
  }
}
