/** The binary ROMFS image of gpm/tools/mkgromfs.py: writer, reader and relocation. */
module Romfs {
  import opened Bytes

  /** A name: how many characters it has, and its UTF-8 bytes. File names hold no NUL. */
  datatype Name = Name(chars: nat, utf8: seq<byte>)

  datatype Entry = File(name: Name, data: seq<byte>) | Folder(name: Name, children: seq<Entry>)

  function Zeros(n: nat): (r: seq<byte>)
    ensures |r| == n
  {
    seq(n, _ => 0)
  }

  /** n % 4, by subtraction. */
  function Mod4(n: nat): (r: nat)
    ensures r < 4
  {
    if n < 4 then n else Mod4(n - 4)
  }

  /** bin_name: padded by the number of characters, always by at least one NUL. */
  function BinName(n: Name): (r: seq<byte>)
    ensures |r| > |n.utf8|
  {
    n.utf8 + Zeros(4 - Mod4(n.chars))
  }

  /** Bytes that bring a length up to a multiple of four. */
  function Pad(len: nat): nat { if Mod4(len) != 0 then 4 - Mod4(len) else 0 }

  /** entry_size: bytes of a file, children of a folder. */
  function EntrySize(e: Entry): nat { if e.File? then |e.data| else |e.children| }

  function Type(e: Entry): nat { if e.File? then 0 else 1 }

  // ---------------------------------------------------------------- the writer

  function DataLength(e: Entry): nat
    decreases e, 0
  {
    match e
    case File(_, data) => |data|
    case Folder(_, children) => 16 * |children| + PayloadLength(children, 0)
  }

  /** Name, data and padding of one entry. */
  function Span(e: Entry): nat
    decreases e, 1
  {
    |BinName(e.name)| + DataLength(e) + Pad(DataLength(e))
  }

  /** The payload of the entries from i on. */
  function PayloadLength(cs: seq<Entry>, i: nat): nat
    requires i <= |cs|
    decreases cs, |cs| - i
  {
    if i == |cs| then 0 else Span(cs[i]) + PayloadLength(cs, i + 1)
  }

  /** Consecutive 32-bit words. */
  function Words(ws: seq<nat>): (r: seq<byte>)
    ensures |r| == 4 * |ws|
    decreases |ws|
  {
    if ws == [] then [] else Le32(ws[0]) + Words(ws[1..])
  }

  /** The directory entry of e when its name goes to address v. */
  function Dirent(e: Entry, v: nat): (r: seq<byte>)
    ensures |r| == 16
  {
    Words([Type(e), v, v + |BinName(e.name)|, EntrySize(e)])
  }

  /** The records of the entries from i on. */
  function Dirents(cs: seq<Entry>, i: nat, v: nat): (r: seq<byte>)
    requires i <= |cs|
    ensures |r| == 16 * (|cs| - i)
    decreases |cs| - i
  {
    if i == |cs| then [] else Dirent(cs[i], v) + Dirents(cs, i + 1, v + Span(cs[i]))
  }

  /** What e holds, placed at an address. */
  function Data(e: Entry, addr: nat): (r: seq<byte>)
    ensures |r| == DataLength(e)
    decreases e, 0
  {
    match e
    case File(_, data) => data
    case Folder(_, children) =>
      Dirents(children, 0, addr + 16 * |children|) + Payload(children, 0, addr + 16 * |children|)
  }

  function Placed(e: Entry, v: nat): (r: seq<byte>)
    ensures |r| == Span(e)
    decreases e, 1
  {
    BinName(e.name) + (Data(e, v + |BinName(e.name)|) + Zeros(Pad(DataLength(e))))
  }

  function Payload(cs: seq<Entry>, i: nat, v: nat): (r: seq<byte>)
    requires i <= |cs|
    ensures |r| == PayloadLength(cs, i)
    decreases cs, |cs| - i
  {
    if i == |cs| then [] else Placed(cs[i], v) + Payload(cs, i + 1, v + Span(cs[i]))
  }

  /** Every word of the directory entries is an unsigned 32-bit value; struct.pack refuses others. */
  predicate Fits(cs: seq<Entry>, i: nat, v: nat)
    requires i <= |cs|
    decreases cs, |cs| - i
  {
    i == |cs| || (EntryFits(cs[i], v) && Fits(cs, i + 1, v + Span(cs[i])))
  }

  predicate EntryFits(e: Entry, v: nat)
    decreases e
  {
    && v + |BinName(e.name)| < U32 && EntrySize(e) < U32
    && (e.Folder? ==> Fits(e.children, 0, v + |BinName(e.name)| + 16 * |e.children|))
  }

  const ROOT_NAME: seq<byte> := ['/' as byte, 0, 0, 0]

  /** get_bin_data, when every word fits. */
  function Image(cs: seq<Entry>, base: nat): seq<byte> {
    Words([1, base + 16, base + 20, |cs|]) + ROOT_NAME
      + (Dirents(cs, 0, base + 20 + 16 * |cs|) + Payload(cs, 0, base + 20 + 16 * |cs|))
  }

  predicate ImageFits(cs: seq<Entry>, base: nat) {
    base + 20 < U32 && |cs| < U32 && Fits(cs, 0, base + 20 + 16 * |cs|)
  }

  // ---------------------------------------------------------------- the reader

  datatype Item = FileItem(name: seq<byte>, data: seq<byte>) | FolderItem(name: seq<byte>, items: seq<Item>)

  /** What a reader should see. */
  function Seen(e: Entry): Item {
    match e
    case File(name, data) => FileItem(name.utf8, data)
    case Folder(name, children) => FolderItem(name.utf8, SeenAll(children, 0))
  }

  function SeenAll(cs: seq<Entry>, i: nat): seq<Item>
    requires i <= |cs|
    decreases cs, |cs| - i
  {
    if i == |cs| then [] else [Seen(cs[i])] + SeenAll(cs, i + 1)
  }

  function Word(img: seq<byte>, pos: nat): nat
    requires pos + 4 <= |img|
  {
    LeValue(img[pos..pos + 4])
  }

  /** The entry whose directory record is at slot. Addresses count from base; folders lie behind their records. */
  function ReadEntry(img: seq<byte>, base: nat, slot: nat): Option<Item>
    decreases |img| - slot, 0
  {
    if slot + 16 > |img| then None
    else
      var kind, n, d, size := Word(img, slot), Word(img, slot + 4), Word(img, slot + 8), Word(img, slot + 12);
      if n < base || d < base then None
      else
        var name := ReadName(img, n - base);
        if name.None? then None
        else if kind == 0 then
          if d - base + size <= |img| then Some(FileItem(name.value, img[d - base..d - base + size])) else None
        else if kind == 1 && d - base > slot then
          var items := ReadEntries(img, base, d - base, size);
          if items.None? then None else Some(FolderItem(name.value, items.value))
        else None
  }

  function ReadEntries(img: seq<byte>, base: nat, slot: nat, n: nat): Option<seq<Item>>
    decreases |img| - slot, 1
  {
    if n == 0 then Some([])
    else if slot + 16 > |img| then None
    else
      var first, rest := ReadEntry(img, base, slot), ReadEntries(img, base, slot + 16, n - 1);
      if first.None? || rest.None? then None else Some([first.value] + rest.value)
  }

  function ReadImage(img: seq<byte>, base: nat): Option<Item> { ReadEntry(img, base, 0) }

  // ---------------------------------------------------------------- reading back

  lemma HoldsBoth(img: seq<byte>, pos: nat, a: seq<byte>, b: seq<byte>)
    requires Holds(img, pos, a + b)
    ensures Holds(img, pos, a) && Holds(img, pos + |a|, b)
  {
    var w := img[pos..pos + |a + b|];
    assert w[..|a|] == img[pos..pos + |a|] && w[|a|..] == img[pos + |a|..pos + |a| + |b|];
    assert (a + b)[..|a|] == a && (a + b)[|a|..] == b;
  }

  lemma WordAt(img: seq<byte>, pos: nat, x: nat)
    requires Holds(img, pos, Le32(x)) && x < U32
    ensures Word(img, pos) == x
  {
    Le32Value(x);
  }

  lemma {:induction false} WordsAt(img: seq<byte>, pos: nat, ws: seq<nat>, k: nat)
    requires Holds(img, pos, Words(ws)) && k < |ws| && ws[k] < U32
    ensures pos + 4 * |ws| <= |img| && Word(img, pos + 4 * k) == ws[k]
    decreases k
  {
    HoldsCut(img, pos, Words(ws), Le32(ws[0]), Words(ws[1..]));
    if k == 0 {
      WordAt(img, pos, ws[0]);
    } else {
      WordsAt(img, pos + 4, ws[1..], k - 1);
    }
  }

  lemma DirentAt(img: seq<byte>, slot: nat, e: Entry, v: nat)
    requires Holds(img, slot, Dirent(e, v)) && v + |BinName(e.name)| < U32 && EntrySize(e) < U32
    ensures slot + 16 <= |img|
    ensures Word(img, slot) == Type(e) && Word(img, slot + 4) == v
    ensures Word(img, slot + 8) == v + |BinName(e.name)| && Word(img, slot + 12) == EntrySize(e)
  {
    var ws := [Type(e), v, v + |BinName(e.name)|, EntrySize(e)];
    WordsAt(img, slot, ws, 0);
    WordsAt(img, slot, ws, 1);
    WordsAt(img, slot, ws, 2);
    WordsAt(img, slot, ws, 3);
  }

  lemma {:induction false} NameAt(img: seq<byte>, pos: nat, name: seq<byte>, zeros: seq<byte>)
    requires Holds(img, pos, name + zeros) && 0 !in name && |zeros| > 0 && zeros[0] == 0
    ensures ReadName(img, pos) == Some(name)
    decreases |name|
  {
    assert img[pos] == img[pos..pos + |name + zeros|][0] == (name + zeros)[0];
    if name != [] {
      assert name == [name[0]] + name[1..];
      assert name + zeros == [name[0]] + (name[1..] + zeros);
      HoldsBoth(img, pos, [name[0]], name[1..] + zeros);
      NameAt(img, pos + 1, name[1..], zeros);
    }
  }

  /** Names at every depth are free of NULs. */
  predicate GoodNames(cs: seq<Entry>) { forall i :: 0 <= i < |cs| ==> GoodName(cs[i]) }

  predicate GoodName(e: Entry) { 0 !in e.name.utf8 && (e.Folder? ==> GoodNames(e.children)) }

  /** The record at slot describes e, at pos and at. */
  ghost predicate Described(img: seq<byte>, base: nat, slot: nat, e: Entry, pos: nat, at: nat) {
    && slot + 16 <= |img| && Word(img, slot) == Type(e) && Word(img, slot + 4) == base + pos
    && Word(img, slot + 8) == base + at && Word(img, slot + 12) == EntrySize(e)
    && ReadName(img, pos) == Some(e.name.utf8)
  }

  /** The layout: the records of the entries from i on start at slot, and their names and data follow each other from
      pos on. */
  ghost predicate Laid(img: seq<byte>, base: nat, slot: nat, cs: seq<Entry>, i: nat, pos: nat)
    requires i <= |cs|
    decreases cs, |cs| - i
  {
    i == |cs| || (EntryLaid(img, base, slot, cs[i], pos) && Laid(img, base, slot + 16, cs, i + 1, pos + Span(cs[i])))
  }

  ghost predicate EntryLaid(img: seq<byte>, base: nat, slot: nat, e: Entry, pos: nat)
    decreases e
  {
    var at := pos + |BinName(e.name)|;
    && slot < at && Described(img, base, slot, e, pos, at)
    && match e
       case File(_, data) => Holds(img, at, data)
       case Folder(_, children) => Laid(img, base, at, children, 0, at + 16 * |children|)
  }

  lemma {:induction false} ReadsEntry(img: seq<byte>, base: nat, slot: nat, e: Entry, pos: nat)
    requires EntryLaid(img, base, slot, e, pos)
    ensures ReadEntry(img, base, slot) == Some(Seen(e))
    decreases e
  {
    if e.Folder? {
      var at := pos + |BinName(e.name)|;
      ReadsEntries(img, base, at, e.children, 0, at + 16 * |e.children|);
    }
  }

  lemma {:induction false} ReadsEntries(img: seq<byte>, base: nat, slot: nat, cs: seq<Entry>, i: nat, pos: nat)
    requires i <= |cs| && Laid(img, base, slot, cs, i, pos)
    ensures ReadEntries(img, base, slot, |cs| - i) == Some(SeenAll(cs, i))
    decreases cs, |cs| - i
  {
    if i < |cs| {
      ReadsEntry(img, base, slot, cs[i], pos);
      ReadsEntries(img, base, slot + 16, cs, i + 1, pos + Span(cs[i]));
    }
  }

  lemma IsDescribed(img: seq<byte>, base: nat, slot: nat, e: Entry, pos: nat, at: nat, v: nat)
    requires v == base + pos && at == pos + |BinName(e.name)| && v + |BinName(e.name)| < U32 && EntrySize(e) < U32
    requires Holds(img, slot, Dirent(e, v)) && Holds(img, pos, BinName(e.name)) && 0 !in e.name.utf8
    ensures Described(img, base, slot, e, pos, at)
  {
    DirentAt(img, slot, e, v);
    NameAt(img, pos, e.name.utf8, Zeros(4 - Mod4(e.name.chars)));
  }

  lemma FolderAt(img: seq<byte>, at: nat, e: Entry, w: nat, u: nat)
    requires e.Folder? && Holds(img, at, Data(e, w)) && u == w + 16 * |e.children|
    ensures Holds(img, at, Dirents(e.children, 0, u)) && Holds(img, at + 16 * |e.children|, Payload(e.children, 0, u))
  {
    HoldsCut(img, at, Data(e, w), Dirents(e.children, 0, u), Payload(e.children, 0, u));
  }

  lemma HoldsCut(img: seq<byte>, pos: nat, s: seq<byte>, a: seq<byte>, b: seq<byte>)
    requires Holds(img, pos, s) && s == a + b
    ensures Holds(img, pos, a) && Holds(img, pos + |a|, b)
  {
    HoldsBoth(img, pos, a, b);
  }

  lemma PlacedAt(img: seq<byte>, e: Entry, v: nat, pos: nat)
    requires Holds(img, pos, Placed(e, v))
    ensures Holds(img, pos, BinName(e.name)) && Holds(img, pos + |BinName(e.name)|, Data(e, v + |BinName(e.name)|))
  {
    var d, z := Data(e, v + |BinName(e.name)|), Zeros(Pad(DataLength(e)));
    HoldsCut(img, pos, Placed(e, v), BinName(e.name), d + z);
    HoldsBoth(img, pos + |BinName(e.name)|, d, z);
  }

  /** The written records and payload of the entries from i on are in place; position pos is address v. */
  ghost predicate Written(img: seq<byte>, base: nat, slot: nat, cs: seq<Entry>, i: nat, pos: nat, v: nat) {
    && i <= |cs| && v == base + pos && slot + 16 * (|cs| - i) <= pos && Fits(cs, i, v) && GoodNames(cs)
    && Holds(img, slot, Dirents(cs, i, v)) && Holds(img, pos, Payload(cs, i, v))
  }

  ghost predicate EntryWritten(img: seq<byte>, base: nat, slot: nat, e: Entry, pos: nat, v: nat) {
    && v == base + pos && slot + 16 <= pos && EntryFits(e, v) && GoodName(e)
    && Holds(img, slot, Dirent(e, v)) && Holds(img, pos, BinName(e.name))
    && Holds(img, pos + |BinName(e.name)|, Data(e, v + |BinName(e.name)|))
  }

  lemma FirstWritten(img: seq<byte>, base: nat, slot: nat, cs: seq<Entry>, i: nat, pos: nat, v: nat)
    requires i < |cs| && Written(img, base, slot, cs, i, pos, v)
    ensures EntryWritten(img, base, slot, cs[i], pos, v)
    ensures Written(img, base, slot + 16, cs, i + 1, pos + Span(cs[i]), v + Span(cs[i]))
  {
    HoldsCut(img, slot, Dirents(cs, i, v), Dirent(cs[i], v), Dirents(cs, i + 1, v + Span(cs[i])));
    HoldsCut(img, pos, Payload(cs, i, v), Placed(cs[i], v), Payload(cs, i + 1, v + Span(cs[i])));
    PlacedAt(img, cs[i], v, pos);
  }

  lemma FolderWritten(img: seq<byte>, base: nat, slot: nat, e: Entry, pos: nat, v: nat, at: nat, w: nat, p: nat, u: nat)
    requires EntryWritten(img, base, slot, e, pos, v) && e.Folder?
    requires at == pos + |BinName(e.name)| && w == v + |BinName(e.name)|
    requires p == at + 16 * |e.children| && u == w + 16 * |e.children|
    ensures Written(img, base, at, e.children, 0, p, u)
  {
    FolderAt(img, at, e, w, u);
  }

  lemma EntryIsLaid(img: seq<byte>, base: nat, slot: nat, e: Entry, pos: nat, at: nat)
    requires at == pos + |BinName(e.name)| && slot < at && Described(img, base, slot, e, pos, at)
    requires e.File? ==> Holds(img, at, e.data)
    requires e.Folder? ==> Laid(img, base, at, e.children, 0, at + 16 * |e.children|)
    ensures EntryLaid(img, base, slot, e, pos)
  {
  }

  lemma {:induction false} LaysFolder(img: seq<byte>, base: nat, slot: nat, e: Entry, pos: nat, v: nat, at: nat, p: nat)
    requires EntryWritten(img, base, slot, e, pos, v) && e.Folder?
    requires at == pos + |BinName(e.name)| && p == at + 16 * |e.children|
    ensures Laid(img, base, at, e.children, 0, p)
    decreases e, 0
  {
    var w := v + |BinName(e.name)|;
    var u := w + 16 * |e.children|;
    FolderWritten(img, base, slot, e, pos, v, at, w, p, u);
    LaysAll(img, base, at, e.children, 0, p, u);
  }

  lemma {:induction false} LaysEntry(img: seq<byte>, base: nat, slot: nat, e: Entry, pos: nat, v: nat)
    requires EntryWritten(img, base, slot, e, pos, v)
    ensures EntryLaid(img, base, slot, e, pos)
    decreases e, 1
  {
    var at := pos + |BinName(e.name)|;
    IsDescribed(img, base, slot, e, pos, at, v);
    if e.Folder? {
      LaysFolder(img, base, slot, e, pos, v, at, at + 16 * |e.children|);
    }
    EntryIsLaid(img, base, slot, e, pos, at);
  }

  lemma {:induction false} LaysAll(img: seq<byte>, base: nat, slot: nat, cs: seq<Entry>, i: nat, pos: nat, v: nat)
    requires i <= |cs| && Written(img, base, slot, cs, i, pos, v)
    ensures Laid(img, base, slot, cs, i, pos)
    decreases cs, |cs| - i
  {
    if i < |cs| {
      FirstWritten(img, base, slot, cs, i, pos, v);
      LaysEntry(img, base, slot, cs[i], pos, v);
      LaysAll(img, base, slot + 16, cs, i + 1, pos + Span(cs[i]), v + Span(cs[i]));
    }
  }

  /** The root folder, which get_bin_data calls "/". */
  function Root(cs: seq<Entry>): Entry { Folder(Name(1, ['/' as byte]), cs) }

  lemma ImageParts(cs: seq<Entry>, base: nat)
    ensures BinName(Root(cs).name) == ROOT_NAME
    ensures Image(cs, base) == Dirent(Root(cs), base + 16) + (ROOT_NAME + Data(Root(cs), base + 20))
  {
    assert BinName(Root(cs).name) == ROOT_NAME;
    assert base + 16 + |ROOT_NAME| == base + 20;
  }

  lemma RootFits(cs: seq<Entry>, base: nat)
    requires ImageFits(cs, base) && GoodNames(cs)
    ensures EntryFits(Root(cs), base + 16) && GoodName(Root(cs))
  {
    assert BinName(Root(cs).name) == ROOT_NAME;
    assert base + 16 + |ROOT_NAME| == base + 20;
  }

  lemma HoldsWhole(s: seq<byte>)
    ensures Holds(s, 0, s)
  {
  }

  lemma RootPieces(cs: seq<Entry>, base: nat)
    ensures Holds(Image(cs, base), 0, Dirent(Root(cs), base + 16)) && Holds(Image(cs, base), 16, ROOT_NAME)
    ensures Holds(Image(cs, base), 20, Data(Root(cs), base + 20))
  {
    var root, img := Root(cs), Image(cs, base);
    ImageParts(cs, base);
    HoldsWhole(img);
    HoldsCut(img, 0, img, Dirent(root, base + 16), ROOT_NAME + Data(root, base + 20));
    HoldsBoth(img, 16, ROOT_NAME, Data(root, base + 20));
  }

  lemma RootWritten(cs: seq<Entry>, base: nat, img: seq<byte>, root: Entry, v: nat)
    requires ImageFits(cs, base) && GoodNames(cs) && img == Image(cs, base) && root == Root(cs) && v == base + 16
    ensures EntryWritten(img, base, 0, root, 16, v)
  {
    RootPieces(cs, base);
    RootFits(cs, base);
    assert BinName(root.name) == ROOT_NAME;
    assert v + |BinName(root.name)| == base + 20;
  }

  lemma RootIsLaid(cs: seq<Entry>, base: nat)
    requires ImageFits(cs, base) && GoodNames(cs)
    ensures EntryLaid(Image(cs, base), base, 0, Root(cs), 16)
  {
    RootWritten(cs, base, Image(cs, base), Root(cs), base + 16);
    LaysEntry(Image(cs, base), base, 0, Root(cs), 16, base + 16);
  }

  /** A reader that subtracts the base recovers the whole tree. */
  lemma ReadBack(cs: seq<Entry>, base: nat)
    requires ImageFits(cs, base) && GoodNames(cs)
    ensures ReadImage(Image(cs, base), base) == Some(FolderItem(['/' as byte], SeenAll(cs, 0)))
  {
    RootIsLaid(cs, base);
    ReadsEntry(Image(cs, base), base, 0, Root(cs), 16);
  }

  // ---------------------------------------------------------------- writing

  lemma Joined(a: seq<byte>, b: seq<byte>, c: seq<byte>)
    ensures a + (b + c) == (a + b) + c
  {
  }

  /** struct.pack of one record; None is its error. */
  method PackDirent(e: Entry, name: nat, data: nat) returns (r: Option<seq<byte>>)
    requires data == name + |BinName(e.name)|
    ensures r == if data < U32 && EntrySize(e) < U32 then Some(Dirent(e, name)) else None
  {
    if name < U32 && data < U32 && EntrySize(e) < U32 {
      return Some(Words([Type(e), name, data, EntrySize(e)]));
    }
    return None;
  }

  /** Whether the entries from i on fit, their records and their payload. */
  ghost function Left(cs: seq<Entry>, i: nat, v: nat): (bool, seq<byte>, seq<byte>)
    requires i <= |cs|
  {
    (Fits(cs, i, v), Dirents(cs, i, v), Payload(cs, i, v))
  }

  /** The same, behind what was written already. */
  ghost function After(d: seq<byte>, p: seq<byte>, left: (bool, seq<byte>, seq<byte>)): (bool, seq<byte>, seq<byte>) {
    (left.0, d + left.1, p + left.2)
  }

  lemma LeftStep(cs: seq<Entry>, i: nat, v: nat, d: seq<byte>, p: seq<byte>)
    requires i < |cs| && EntryFits(cs[i], v)
    ensures After(d + Dirent(cs[i], v), p + Placed(cs[i], v), Left(cs, i + 1, v + Span(cs[i]))) ==
            After(d, p, Left(cs, i, v))
  {
    Joined(d, Dirent(cs[i], v), Dirents(cs, i + 1, v + Span(cs[i])));
    Joined(p, Placed(cs[i], v), Payload(cs, i + 1, v + Span(cs[i])));
  }

  lemma LeftStuck(cs: seq<Entry>, i: nat, v: nat, d: seq<byte>, p: seq<byte>)
    requires i < |cs| && !EntryFits(cs[i], v)
    ensures !After(d, p, Left(cs, i, v)).0
  {
  }

  lemma LeftStart(cs: seq<Entry>, start: nat)
    ensures After([], [], Left(cs, 0, start)) == Left(cs, 0, start) && Left(cs, 0, start).0 == Fits(cs, 0, start)
  {
    assert [] + Dirents(cs, 0, start) == Dirents(cs, 0, start) && [] + Payload(cs, 0, start) == Payload(cs, 0, start);
  }

  lemma LeftDone(e: Entry, addr: nat, v: nat, d: seq<byte>, p: seq<byte>)
    requires e.Folder?
    requires After(d, p, Left(e.children, |e.children|, v)) == Left(e.children, 0, addr + 16 * |e.children|)
    ensures Fits(e.children, 0, addr + 16 * |e.children|) && d + p == Data(e, addr)
  {
  }

  /** Folder.bin_data */
  method BinData(e: Entry, addr: nat) returns (r: Option<seq<byte>>)
    requires e.Folder?
    ensures r.Some? <==> Fits(e.children, 0, addr + 16 * |e.children|)
    ensures r.Some? ==> r.value == Data(e, addr)
    decreases e, 1
  {
    ghost var whole := Left(e.children, 0, addr + 16 * |e.children|);
    var v: nat, d: seq<byte>, p: seq<byte> := addr + 16 * |e.children|, [], [];
    LeftStart(e.children, v);
    for i := 0 to |e.children|
      invariant After(d, p, Left(e.children, i, v)) == whole
    {
      var record, placed := WriteEntry(e.children[i], v);
      if record.None? {
        LeftStuck(e.children, i, v, d, p);
        return None;
      }
      LeftStep(e.children, i, v, d, p);
      d, p, v := d + record.value, p + placed, v + |placed|;
    }
    LeftDone(e, addr, v, d, p);
    return Some(d + p);
  }

  /** One turn of the loop of Folder.bin_data: the record, and the name and padded data it points to. */
  method WriteEntry(c: Entry, v: nat) returns (record: Option<seq<byte>>, placed: seq<byte>)
    ensures record == if EntryFits(c, v) then Some(Dirent(c, v)) else None
    ensures record.Some? ==> placed == Placed(c, v) && |placed| == Span(c)
    decreases c, 2
  {
    placed := [];
    var name := BinName(c.name);
    var w := v + |name|;
    var data := [];
    if c.File? {
      data := c.data;
    } else {
      var below := BinData(c, w);
      if below.None? {
        return None, [];
      }
      data := below.value;
    }
    record := PackDirent(c, v, w);
    placed := name + (data + Zeros(Pad(|data|)));
  }

  /** get_bin_data */
  method GetBinData(cs: seq<Entry>, base: nat) returns (r: Option<seq<byte>>)
    ensures r.Some? <==> ImageFits(cs, base)
    ensures r.Some? ==> r.value == Image(cs, base)
    ensures r.Some? && GoodNames(cs) ==> ReadImage(r.value, base) == Some(FolderItem(['/' as byte], SeenAll(cs, 0)))
  {
    if base + 20 >= U32 || |cs| >= U32 {
      return None;
    }
    var tree := BinData(Root(cs), base + 20);
    if tree.None? {
      return None;
    }
    r := Some(Words([1, base + 16, base + 20, |cs|]) + ROOT_NAME + tree.value);
    if GoodNames(cs) {
      ReadBack(cs, base);
    }
  }

  // ---------------------------------------------------------------- extents

  /** The half-open range of positions of a record table, a terminated name or a file's contents. */
  datatype Extent = Extent(start: nat, end: nat)

  function Extents(cs: seq<Entry>, i: nat, pos: nat): seq<Extent>
    requires i <= |cs|
    decreases cs, |cs| - i
  {
    if i == |cs| then [] else EntryExtents(cs[i], pos) + Extents(cs, i + 1, pos + Span(cs[i]))
  }

  function EntryExtents(e: Entry, pos: nat): seq<Extent>
    decreases e, 1
  {
    var at := pos + |BinName(e.name)|;
    [Extent(pos, pos + |e.name.utf8| + 1)] + DataExtents(e, at)
  }

  function DataExtents(e: Entry, at: nat): seq<Extent>
    decreases e, 0
  {
    match e
    case File(_, data) => [Extent(at, at + |data|)]
    case Folder(_, children) =>
      [Extent(at, at + 16 * |children|)] + Extents(children, 0, at + 16 * |children|)
  }

  /** In order, without overlap, inside lo..hi. */
  ghost predicate Chain(xs: seq<Extent>, lo: nat, hi: nat)
    decreases |xs|
  {
    if xs == [] then lo <= hi else lo <= xs[0].start <= xs[0].end && Chain(xs[1..], xs[0].end, hi)
  }

  lemma {:induction false} ChainAppend(a: seq<Extent>, b: seq<Extent>, lo: nat, mid: nat, mid': nat, hi: nat)
    requires Chain(a, lo, mid) && Chain(b, mid', hi) && mid <= mid'
    ensures Chain(a + b, lo, hi)
    decreases |a|
  {
    if a == [] {
      ChainLower(b, lo, mid', hi);
      assert a + b == b;
    } else {
      assert (a + b)[1..] == a[1..] + b;
      ChainAppend(a[1..], b, a[0].end, mid, mid', hi);
    }
  }

  lemma {:induction false} ChainLower(b: seq<Extent>, lo: nat, lo': nat, hi: nat)
    requires Chain(b, lo', hi) && lo <= lo'
    ensures Chain(b, lo, hi)
  {
  }

  lemma {:induction false} EntryChain(e: Entry, pos: nat)
    ensures Chain(EntryExtents(e, pos), pos, pos + Span(e))
    decreases e, 1
  {
    var at := pos + |BinName(e.name)|;
    DataChain(e, at);
    ChainOne(pos, pos + |e.name.utf8| + 1);
    ChainAppend([Extent(pos, pos + |e.name.utf8| + 1)], DataExtents(e, at), pos, pos + |e.name.utf8| + 1, at,
                at + DataLength(e));
    ChainHigher(EntryExtents(e, pos), pos, at + DataLength(e), pos + Span(e));
  }

  lemma ChainOne(a: nat, b: nat)
    requires a <= b
    ensures Chain([Extent(a, b)], a, b)
  {
    assert [Extent(a, b)][1..] == [];
  }

  lemma {:induction false} ChainHigher(xs: seq<Extent>, lo: nat, hi: nat, hi': nat)
    requires Chain(xs, lo, hi) && hi <= hi'
    ensures Chain(xs, lo, hi')
    decreases |xs|
  {
    if xs != [] {
      ChainHigher(xs[1..], xs[0].end, hi, hi');
    }
  }

  lemma {:induction false} DataChain(e: Entry, at: nat)
    ensures Chain(DataExtents(e, at), at, at + DataLength(e))
    decreases e, 0
  {
    match e
    case File(_, data) => ChainOne(at, at + |data|);
    case Folder(_, children) =>
      var start := at + 16 * |children|;
      ChainOne(at, start);
      ExtentsChain(children, 0, start);
      ChainAppend([Extent(at, start)], Extents(children, 0, start), at, start, start, at + DataLength(e));
  }

  /** All record tables, names and file contents lie behind one another. */
  lemma {:induction false} ExtentsChain(cs: seq<Entry>, i: nat, pos: nat)
    requires i <= |cs|
    ensures Chain(Extents(cs, i, pos), pos, pos + PayloadLength(cs, i))
    decreases cs, |cs| - i
  {
    if i < |cs| {
      var next := pos + Span(cs[i]);
      EntryChain(cs[i], pos);
      ExtentsChain(cs, i + 1, next);
      ChainAppend(EntryExtents(cs[i], pos), Extents(cs, i + 1, next), pos, next, next, pos + PayloadLength(cs, i));
    }
  }

  /** The extents that the records stored in the image name, from the record at slot on: its name, what its data word
      points at, and for a folder those of the records found there. */
  function StoredExtents(img: seq<byte>, base: nat, slot: nat): Option<seq<Extent>>
    decreases |img| - slot, 0
  {
    if slot + 16 > |img| then None
    else
      var kind, n, d, size := Word(img, slot), Word(img, slot + 4), Word(img, slot + 8), Word(img, slot + 12);
      if n < base || d < base then None
      else
        var name := ReadName(img, n - base);
        if name.None? then None
        else
          var first := Extent(n - base, n - base + |name.value| + 1);
          if kind == 0 then Some([first] + [Extent(d - base, d - base + size)])
          else if kind == 1 && d - base > slot then
            var below := AllStoredExtents(img, base, d - base, size);
            if below.None? then None else Some([first] + ([Extent(d - base, d - base + 16 * size)] + below.value))
          else None
  }

  function AllStoredExtents(img: seq<byte>, base: nat, slot: nat, n: nat): Option<seq<Extent>>
    decreases |img| - slot, 1
  {
    if n == 0 then Some([])
    else if slot + 16 > |img| then None
    else
      var first, rest := StoredExtents(img, base, slot), AllStoredExtents(img, base, slot + 16, n - 1);
      if first.None? || rest.None? then None else Some(first.value + rest.value)
  }

  /** The stored addresses are those of the layout. */
  lemma {:induction false} StoresExtents(img: seq<byte>, base: nat, slot: nat, e: Entry, pos: nat)
    requires EntryLaid(img, base, slot, e, pos)
    ensures StoredExtents(img, base, slot) == Some(EntryExtents(e, pos))
    decreases e
  {
    var at := pos + |BinName(e.name)|;
    if e.Folder? {
      StoresAllExtents(img, base, at, e.children, 0, at + 16 * |e.children|);
    }
    RecordExtents(img, base, slot, e, pos, at);
  }

  lemma RecordExtents(img: seq<byte>, base: nat, slot: nat, e: Entry, pos: nat, at: nat)
    requires slot < at && Described(img, base, slot, e, pos, at) && at == pos + |BinName(e.name)|
    requires e.Folder? ==>
               AllStoredExtents(img, base, at, |e.children|) == Some(Extents(e.children, 0, at + 16 * |e.children|))
    ensures StoredExtents(img, base, slot) == Some(EntryExtents(e, pos))
  {
  }

  lemma {:induction false} StoresAllExtents(img: seq<byte>, base: nat, slot: nat, cs: seq<Entry>, i: nat, pos: nat)
    requires i <= |cs| && Laid(img, base, slot, cs, i, pos)
    ensures AllStoredExtents(img, base, slot, |cs| - i) == Some(Extents(cs, i, pos))
    decreases cs, |cs| - i
  {
    if i < |cs| {
      StoresExtents(img, base, slot, cs[i], pos);
      StoresAllExtents(img, base, slot + 16, cs, i + 1, pos + Span(cs[i]));
    }
  }

  /** Every record table, name and file that the stored addresses point at lies behind the root's record and inside the
      image, and no two of them overlap. */
  lemma ImageExtents(cs: seq<Entry>, base: nat)
    requires ImageFits(cs, base) && GoodNames(cs)
    ensures var stored := StoredExtents(Image(cs, base), base, 0);
            stored.Some? && Chain(stored.value, 16, |Image(cs, base)|)
  {
    var img, root := Image(cs, base), Root(cs);
    RootIsLaid(cs, base);
    StoresExtents(img, base, 0, root, 16);
    ImageParts(cs, base);
    DataChain(root, 20);
    ChainOne(16, 18);
    ChainAppend([Extent(16, 18)], DataExtents(root, 20), 16, 18, 20, |img|);
  }

  // ---------------------------------------------------------------- relocation

  /** A piece of the image that is the same at every base, or the address of a position. */
  datatype Cell = Fixed(bytes: seq<byte>) | Address(pos: nat)

  function EmitCell(c: Cell, base: nat): seq<byte> { if c.Fixed? then c.bytes else Words([base + c.pos]) }

  function Emit(cells: seq<Cell>, base: nat): seq<byte>
    decreases |cells|
  {
    if cells == [] then [] else EmitCell(cells[0], base) + Emit(cells[1..], base)
  }

  function DirentCells(e: Entry, pos: nat): seq<Cell> {
    [Fixed(Words([Type(e)])), Address(pos), Address(pos + |BinName(e.name)|), Fixed(Words([EntrySize(e)]))]
  }

  function DirentsCells(cs: seq<Entry>, i: nat, pos: nat): seq<Cell>
    requires i <= |cs|
    decreases |cs| - i
  {
    if i == |cs| then [] else DirentCells(cs[i], pos) + DirentsCells(cs, i + 1, pos + Span(cs[i]))
  }

  function DataCells(e: Entry, pos: nat): seq<Cell>
    decreases e, 0
  {
    match e
    case File(_, data) => [Fixed(data)]
    case Folder(_, children) =>
      DirentsCells(children, 0, pos + 16 * |children|) + PayloadCells(children, 0, pos + 16 * |children|)
  }

  function PlacedCells(e: Entry, pos: nat): seq<Cell>
    decreases e, 1
  {
    [Fixed(BinName(e.name))] + (DataCells(e, pos + |BinName(e.name)|) + [Fixed(Zeros(Pad(DataLength(e))))])
  }

  function PayloadCells(cs: seq<Entry>, i: nat, pos: nat): seq<Cell>
    requires i <= |cs|
    decreases cs, |cs| - i
  {
    if i == |cs| then [] else PlacedCells(cs[i], pos) + PayloadCells(cs, i + 1, pos + Span(cs[i]))
  }

  /** The image of a tree, without saying where it will be mapped. */
  function ImageCells(cs: seq<Entry>): seq<Cell> {
    DirentCells(Root(cs), 16) + ([Fixed(ROOT_NAME)] + DataCells(Root(cs), 20))
  }

  lemma {:induction false} EmitAppend(a: seq<Cell>, b: seq<Cell>, base: nat)
    ensures Emit(a + b, base) == Emit(a, base) + Emit(b, base)
    decreases |a|
  {
    if a == [] {
      assert a + b == b;
    } else {
      assert (a + b)[1..] == a[1..] + b;
      EmitAppend(a[1..], b, base);
    }
  }

  lemma EmitJoin(a: seq<Cell>, b: seq<Cell>, base: nat, x: seq<byte>, y: seq<byte>)
    requires Emit(a, base) == x && Emit(b, base) == y
    ensures Emit(a + b, base) == x + y
  {
    EmitAppend(a, b, base);
  }

  lemma EmitOne(c: Cell, base: nat)
    ensures Emit([c], base) == EmitCell(c, base)
  {
  }

  lemma {:induction false} WordsAppend(a: seq<nat>, b: seq<nat>)
    ensures Words(a + b) == Words(a) + Words(b)
    decreases |a|
  {
    if a == [] {
      assert a + b == b;
    } else {
      assert (a + b)[1..] == a[1..] + b;
      WordsAppend(a[1..], b);
    }
  }

  lemma FourWords(a: nat, b: nat, c: nat, d: nat)
    ensures Words([a, b, c, d]) == Words([a]) + Words([b]) + Words([c]) + Words([d])
  {
    WordsAppend([a], [b]);
    WordsAppend([a] + [b], [c]);
    WordsAppend([a] + [b] + [c], [d]);
    assert [a, b, c, d] == [a] + [b] + [c] + [d];
  }

  lemma EmitFour(a: Cell, b: Cell, c: Cell, d: Cell, base: nat)
    ensures Emit([a, b, c, d], base) == EmitCell(a, base) + EmitCell(b, base) + EmitCell(c, base) + EmitCell(d, base)
  {
    EmitAppend([a], [b], base);
    EmitAppend([a] + [b], [c], base);
    EmitAppend([a] + [b] + [c], [d], base);
    EmitOne(a, base);
    EmitOne(b, base);
    EmitOne(c, base);
    EmitOne(d, base);
    assert [a, b, c, d] == [a] + [b] + [c] + [d];
  }

  lemma RecordEmits(kind: nat, pos: nat, at: nat, size: nat, base: nat, v: nat, w: nat)
    requires v == base + pos && w == base + at
    ensures Emit([Fixed(Words([kind])), Address(pos), Address(at), Fixed(Words([size]))], base) ==
            Words([kind, v, w, size])
  {
    EmitFour(Fixed(Words([kind])), Address(pos), Address(at), Fixed(Words([size])), base);
    FourWords(kind, v, w, size);
  }

  lemma DirentEmits(e: Entry, pos: nat, base: nat, v: nat)
    requires v == base + pos
    ensures Emit(DirentCells(e, pos), base) == Dirent(e, v)
  {
    var n := |BinName(e.name)|;
    RecordEmits(Type(e), pos, pos + n, EntrySize(e), base, v, v + n);
  }

  lemma DirentsUnfold(cs: seq<Entry>, i: nat, pos: nat, v: nat)
    requires i < |cs|
    ensures DirentsCells(cs, i, pos) == DirentCells(cs[i], pos) + DirentsCells(cs, i + 1, pos + Span(cs[i]))
    ensures Dirents(cs, i, v) == Dirent(cs[i], v) + Dirents(cs, i + 1, v + Span(cs[i]))
  {
  }

  lemma {:induction false} DirentsEmit(cs: seq<Entry>, i: nat, pos: nat, base: nat, v: nat)
    requires i <= |cs| && v == base + pos
    ensures Emit(DirentsCells(cs, i, pos), base) == Dirents(cs, i, v)
    decreases |cs| - i
  {
    if i < |cs| {
      DirentsEmit(cs, i + 1, pos + Span(cs[i]), base, v + Span(cs[i]));
      DirentEmits(cs[i], pos, base, v);
      EmitJoin(DirentCells(cs[i], pos), DirentsCells(cs, i + 1, pos + Span(cs[i])), base,
               Dirent(cs[i], v), Dirents(cs, i + 1, v + Span(cs[i])));
      DirentsUnfold(cs, i, pos, v);
    }
  }

  lemma FolderUnfolds(e: Entry, pos: nat, v: nat)
    requires e.Folder?
    ensures DataCells(e, pos) == DirentsCells(e.children, 0, pos + 16 * |e.children|)
                                 + PayloadCells(e.children, 0, pos + 16 * |e.children|)
    ensures Data(e, v) == Dirents(e.children, 0, v + 16 * |e.children|) + Payload(e.children, 0, v + 16 * |e.children|)
  {
  }

  lemma {:induction false} DataEmits(e: Entry, pos: nat, base: nat, v: nat)
    requires v == base + pos
    ensures Emit(DataCells(e, pos), base) == Data(e, v)
    decreases e, 1
  {
    if e.Folder? {
      FolderEmits(e, pos + 16 * |e.children|, base, v + 16 * |e.children|);
      FolderUnfolds(e, pos, v);
    } else {
      EmitOne(Fixed(e.data), base);
    }
  }

  lemma {:induction false} FolderEmits(e: Entry, p: nat, base: nat, w: nat)
    requires e.Folder? && w == base + p
    ensures Emit(DirentsCells(e.children, 0, p) + PayloadCells(e.children, 0, p), base)
            == Dirents(e.children, 0, w) + Payload(e.children, 0, w)
    decreases e, 0
  {
    DirentsEmit(e.children, 0, p, base, w);
    PayloadEmits(e.children, 0, p, base, w);
    EmitJoin(DirentsCells(e.children, 0, p), PayloadCells(e.children, 0, p), base,
             Dirents(e.children, 0, w), Payload(e.children, 0, w));
  }

  lemma PlacedUnfolds(e: Entry, pos: nat, v: nat)
    ensures PlacedCells(e, pos) == [Fixed(BinName(e.name))]
              + (DataCells(e, pos + |BinName(e.name)|) + [Fixed(Zeros(Pad(DataLength(e))))])
    ensures Placed(e, v) == BinName(e.name) + (Data(e, v + |BinName(e.name)|) + Zeros(Pad(DataLength(e))))
  {
  }

  lemma EmitAround(n: seq<byte>, cells: seq<Cell>, z: seq<byte>, base: nat, x: seq<byte>)
    requires Emit(cells, base) == x
    ensures Emit([Fixed(n)] + (cells + [Fixed(z)]), base) == n + (x + z)
  {
    EmitOne(Fixed(n), base);
    EmitOne(Fixed(z), base);
    EmitJoin(cells, [Fixed(z)], base, x, z);
    EmitJoin([Fixed(n)], cells + [Fixed(z)], base, n, x + z);
  }

  lemma {:induction false} PlacedEmits(e: Entry, pos: nat, base: nat, v: nat)
    requires v == base + pos
    ensures Emit(PlacedCells(e, pos), base) == Placed(e, v)
    decreases e, 2
  {
    DataEmits(e, pos + |BinName(e.name)|, base, v + |BinName(e.name)|);
    EmitAround(BinName(e.name), DataCells(e, pos + |BinName(e.name)|), Zeros(Pad(DataLength(e))), base,
               Data(e, v + |BinName(e.name)|));
    PlacedUnfolds(e, pos, v);
  }

  lemma PayloadUnfolds(cs: seq<Entry>, i: nat, pos: nat, v: nat)
    requires i < |cs|
    ensures PayloadCells(cs, i, pos) == PlacedCells(cs[i], pos) + PayloadCells(cs, i + 1, pos + Span(cs[i]))
    ensures Payload(cs, i, v) == Placed(cs[i], v) + Payload(cs, i + 1, v + Span(cs[i]))
  {
  }

  lemma PayloadJoins(cs: seq<Entry>, i: nat, pos: nat, base: nat, v: nat)
    requires i < |cs| && Emit(PlacedCells(cs[i], pos), base) == Placed(cs[i], v)
    requires Emit(PayloadCells(cs, i + 1, pos + Span(cs[i])), base) == Payload(cs, i + 1, v + Span(cs[i]))
    ensures Emit(PayloadCells(cs, i, pos), base) == Payload(cs, i, v)
  {
    EmitJoin(PlacedCells(cs[i], pos), PayloadCells(cs, i + 1, pos + Span(cs[i])), base,
             Placed(cs[i], v), Payload(cs, i + 1, v + Span(cs[i])));
    PayloadUnfolds(cs, i, pos, v);
  }

  lemma {:induction false} PayloadEmits(cs: seq<Entry>, i: nat, pos: nat, base: nat, v: nat)
    requires i <= |cs| && v == base + pos
    ensures Emit(PayloadCells(cs, i, pos), base) == Payload(cs, i, v)
    decreases cs, |cs| - i
  {
    if i < |cs| {
      PlacedEmits(cs[i], pos, base, v);
      PayloadEmits(cs, i + 1, pos + Span(cs[i]), base, v + Span(cs[i]));
      PayloadJoins(cs, i, pos, base, v);
    }
  }

  /** The base enters the image only as a summand of the name and data words, at every depth. */
  lemma Relocates(cs: seq<Entry>, base: nat)
    ensures Image(cs, base) == Emit(ImageCells(cs), base)
  {
    var root := Root(cs);
    ImageParts(cs, base);
    DirentEmits(root, 16, base, base + 16);
    DataEmits(root, 20, base, base + 20);
    EmitOne(Fixed(ROOT_NAME), base);
    EmitAppend([Fixed(ROOT_NAME)], DataCells(root, 20), base);
    EmitAppend(DirentCells(root, 16), [Fixed(ROOT_NAME)] + DataCells(root, 20), base);
  }

  // ---------------------------------------------------------------- alignment

  /** A stored name is followed by one to four NULs, as many as bring its characters to a multiple of four. */
  lemma NamePadded(n: Name)
    ensures |BinName(n)| == |n.utf8| + 4 - n.chars % 4 && BinName(n)[..|n.utf8|] == n.utf8
    ensures forall i :: |n.utf8| <= i < |BinName(n)| ==> BinName(n)[i] == 0
  {
    Mod4Is(n.chars);
  }

  /** Stored data is followed by zeros up to the next multiple of four. */
  lemma DataPadded(e: Entry, v: nat)
    ensures var data, rest := Data(e, v + |BinName(e.name)|), Placed(e, v)[|BinName(e.name)|..];
            && |data| <= |rest| < |data| + 4 && |rest| % 4 == 0 && rest[..|data|] == data
            && forall i :: |data| <= i < |rest| ==> rest[i] == 0
  {
    var data, pad := Data(e, v + |BinName(e.name)|), Pad(DataLength(e));
    assert Placed(e, v)[|BinName(e.name)|..] == data + Zeros(pad);
    Mod4Is(DataLength(e));
    PadFills(DataLength(e));
    Mod4Is(DataLength(e) + pad);
  }

  /** Encoded and padded, the name fills whole words. */
  predicate WholeName(n: Name) { Mod4(|BinName(n)|) == 0 }

  ghost predicate WholeNames(cs: seq<Entry>, i: nat)
    requires i <= |cs|
    decreases cs, |cs| - i
  {
    i == |cs| || (WholeEntry(cs[i]) && WholeNames(cs, i + 1))
  }

  ghost predicate WholeEntry(e: Entry) { WholeName(e.name) && (e.Folder? ==> WholeNames(e.children, 0)) }

  lemma {:induction false} Mod4Is(n: nat)
    ensures Mod4(n) == n % 4
  {
    if n >= 4 {
      Mod4Is(n - 4);
    }
  }

  lemma {:induction false} Mod4Add(a: nat, b: nat)
    requires Mod4(a) == 0
    ensures Mod4(a + b) == Mod4(b)
    decreases a
  {
    if a >= 4 {
      Mod4Add(a - 4, b);
    }
  }

  /** Names fill whole words exactly when they have as many bytes as characters, modulo four; all ASCII names do. */
  lemma WholeExactly(n: Name)
    ensures WholeName(n) <==> |n.utf8| % 4 == n.chars % 4
  {
    Mod4Is(|BinName(n)|);
    Mod4Is(n.chars);
  }

  lemma PadFills(len: nat)
    ensures Mod4(len + Pad(len)) == 0
  {
    Mod4Is(len);
    Mod4Is(len + Pad(len));
  }

  lemma SpanAligned(e: Entry, pos: nat)
    requires Mod4(pos) == 0 && WholeName(e.name)
    ensures Mod4(pos + |BinName(e.name)|) == 0 && Mod4(pos + Span(e)) == 0
  {
    Mod4Add(pos, |BinName(e.name)|);
    Mod4Add(pos, Span(e));
    Mod4Add(|BinName(e.name)|, DataLength(e) + Pad(DataLength(e)));
    PadFills(DataLength(e));
  }

  lemma {:induction false} SixteenAligned(n: nat)
    ensures Mod4(16 * n) == 0
    decreases n
  {
    if n > 0 {
      SixteenAligned(n - 1);
      Mod4Is(16);
      Mod4Add(16, 16 * (n - 1));
    }
  }

  /** The name and data words of the record at slot, and of all records below it, are multiples of four. */
  ghost predicate WordsAligned(img: seq<byte>, base: nat, slot: nat)
    decreases |img| - slot, 0
  {
    slot + 16 <= |img| &&
    var kind, n, d, size := Word(img, slot), Word(img, slot + 4), Word(img, slot + 8), Word(img, slot + 12);
    && n % 4 == 0 && d % 4 == 0
    && (kind == 1 && d > base + slot ==> AllWordsAligned(img, base, d - base, size))
  }

  ghost predicate AllWordsAligned(img: seq<byte>, base: nat, slot: nat, n: nat)
    decreases |img| - slot, 1
  {
    n == 0 || (slot + 16 <= |img| && WordsAligned(img, base, slot) && AllWordsAligned(img, base, slot + 16, n - 1))
  }

  lemma AddressAligned(base: nat, pos: nat)
    requires base % 4 == 0
    ensures (base + pos) % 4 == 0 <==> Mod4(pos) == 0
  {
    Mod4Is(pos);
  }

  lemma {:induction false} EntryWords(img: seq<byte>, base: nat, slot: nat, e: Entry, pos: nat)
    requires EntryLaid(img, base, slot, e, pos) && base % 4 == 0 && Mod4(pos) == 0
    ensures WordsAligned(img, base, slot) <==> WholeEntry(e)
    decreases e
  {
    var at := pos + |BinName(e.name)|;
    AddressAligned(base, pos);
    AddressAligned(base, at);
    Mod4Add(pos, |BinName(e.name)|);
    if e.Folder? && WholeName(e.name) {
      SixteenAligned(|e.children|);
      Mod4Add(at, 16 * |e.children|);
      AllEntryWords(img, base, at, e.children, 0, at + 16 * |e.children|);
    }
  }

  lemma {:induction false} AllEntryWords(img: seq<byte>, base: nat, slot: nat, cs: seq<Entry>, i: nat, pos: nat)
    requires i <= |cs| && Laid(img, base, slot, cs, i, pos) && base % 4 == 0 && Mod4(pos) == 0
    ensures AllWordsAligned(img, base, slot, |cs| - i) <==> WholeNames(cs, i)
    decreases cs, |cs| - i
  {
    if i < |cs| {
      EntryWords(img, base, slot, cs[i], pos);
      if WholeName(cs[i].name) {
        SpanAligned(cs[i], pos);
        AllEntryWords(img, base, slot + 16, cs, i + 1, pos + Span(cs[i]));
      }
    }
  }

  /** At a base that is a multiple of four, every name and data word stored in the image is one exactly when all names
      fill words. */
  lemma ImageAligned(cs: seq<Entry>, base: nat)
    requires ImageFits(cs, base) && GoodNames(cs) && base % 4 == 0
    ensures WordsAligned(Image(cs, base), base, 0) <==> WholeNames(cs, 0)
  {
    RootIsLaid(cs, base);
    Mod4Is(16);
    assert WholeName(Root(cs).name);
    EntryWords(Image(cs, base), base, 0, Root(cs), 16);
  }

  /** One two-byte character is enough to misalign the data word behind its name. */
  lemma MisalignedName(base: nat)
    requires base % 4 == 0 && ImageFits([File(Name(1, [0xC3, 0xA9]), [])], base)
    ensures !WordsAligned(Image([File(Name(1, [0xC3, 0xA9]), [])], base), base, 0)
  {
    var f := File(Name(1, [0xC3, 0xA9]), []);
    WholeExactly(f.name);
    assert !WholeEntry(f);
    assert GoodNames([f]);
    ImageAligned([f], base);
  }

  // ---------------------------------------------------------------- sorting

  /** The order of names; comparing UTF-8 byte by byte is comparing the characters. */
  predicate Leq(a: seq<byte>, b: seq<byte>)
    decreases |a|
  {
    a == [] || (b != [] && (a[0] < b[0] || (a[0] == b[0] && Leq(a[1..], b[1..]))))
  }

  predicate Before(x: Entry, y: Entry) { Leq(x.name.utf8, y.name.utf8) }

  lemma {:induction false} LeqTotal(a: seq<byte>, b: seq<byte>)
    ensures Leq(a, b) || Leq(b, a)
    decreases |a|
  {
    if a != [] && b != [] && a[0] == b[0] {
      LeqTotal(a[1..], b[1..]);
    }
  }

  lemma {:induction false} LeqTransitive(a: seq<byte>, b: seq<byte>, c: seq<byte>)
    requires Leq(a, b) && Leq(b, c)
    ensures Leq(a, c)
    decreases |a|
  {
    if a != [] && a[0] == b[0] == c[0] {
      LeqTransitive(a[1..], b[1..], c[1..]);
    }
  }

  /** The order is the dictionary's: equal, the beginning of the other, or smaller where they first differ. */
  lemma {:induction false} LeqPrecedes(a: seq<byte>, b: seq<byte>)
    ensures Leq(a, b) <==> !Precedes(b, a)
    decreases |a|
  {
    if a == [] {
      NotAfter(b, a);
    } else if b == [] {
      assert b < a;
    } else if a[0] != b[0] {
      FirstDifference(b, a, 0);
    } else {
      LeqPrecedes(a[1..], b[1..]);
      PrecedesTail(b, a);
    }
  }

  lemma PrecedesTail(a: seq<byte>, b: seq<byte>)
    requires a != [] && b != [] && a[0] == b[0]
    ensures Precedes(a, b) <==> Precedes(a[1..], b[1..])
  {
    if a < b {
      assert a[1..] < b[1..];
    } else if i :| 0 <= i < |a| && i < |b| && a[..i] == b[..i] && a[i] < b[i] {
      assert a[1..][..i - 1] == a[..i][1..] == b[..i][1..] == b[1..][..i - 1];
      assert a[1..][i - 1] < b[1..][i - 1];
    }
    if a[1..] < b[1..] {
      assert a == [a[0]] + a[1..] && b == [b[0]] + b[1..];
    } else if i :| 0 <= i < |a[1..]| && i < |b[1..]| && a[1..][..i] == b[1..][..i] && a[1..][i] < b[1..][i] {
      assert a[..i + 1] == [a[0]] + a[1..][..i] && b[..i + 1] == [b[0]] + b[1..][..i];
      assert a[i + 1] < b[i + 1];
    }
  }

  /** A stable sort: e goes before the first entry that may follow it. */
  function Insert(e: Entry, s: seq<Entry>): seq<Entry>
    decreases |s|
  {
    if s == [] || Before(e, s[0]) then [e] + s else [s[0]] + Insert(e, s[1..])
  }

  function Arrange(cs: seq<Entry>): seq<Entry>
    decreases |cs|
  {
    if cs == [] then [] else Insert(cs[0], Arrange(cs[1..]))
  }

  /** Folder.sort: the children in order, each folder among them sorted the same way. */
  function SortAll(cs: seq<Entry>): seq<Entry>
    decreases cs, |cs| + 1
  {
    Arrange(SortEach(cs, 0))
  }

  function SortEach(cs: seq<Entry>, i: nat): (r: seq<Entry>)
    requires i <= |cs|
    ensures |r| == |cs| - i
    decreases cs, |cs| - i
  {
    if i == |cs| then [] else [SortEntry(cs[i])] + SortEach(cs, i + 1)
  }

  function SortEntry(e: Entry): (r: Entry)
    ensures r.name == e.name && (r.File? <==> e.File?)
  {
    match e
    case File(_, _) => e
    case Folder(name, children) => Folder(name, SortAll(children))
  }

  ghost predicate InOrder(cs: seq<Entry>) { forall i, j :: 0 <= i < j < |cs| ==> Before(cs[i], cs[j]) }

  /** At every depth no name precedes an earlier one in dictionary order. */
  ghost predicate Sorted(cs: seq<Entry>) {
    && (forall i, j :: 0 <= i < j < |cs| ==> !Precedes(cs[j].name.utf8, cs[i].name.utf8))
    && forall i :: 0 <= i < |cs| ==> SortedEntry(cs[i])
  }

  ghost predicate SortedEntry(e: Entry) { e.Folder? ==> Sorted(e.children) }

  lemma {:induction false} InsertPermutes(e: Entry, s: seq<Entry>)
    ensures multiset(Insert(e, s)) == multiset(s) + multiset{e}
    decreases |s|
  {
    if s != [] && !Before(e, s[0]) {
      InsertPermutes(e, s[1..]);
      assert s == [s[0]] + s[1..];
    }
  }

  lemma {:induction false} ArrangePermutes(cs: seq<Entry>)
    ensures multiset(Arrange(cs)) == multiset(cs)
    decreases |cs|
  {
    if cs != [] {
      ArrangePermutes(cs[1..]);
      InsertPermutes(cs[0], Arrange(cs[1..]));
      assert cs == [cs[0]] + cs[1..];
    }
  }

  /** x may go before every entry of s. */
  ghost predicate Heads(x: Entry, s: seq<Entry>) { forall i :: 0 <= i < |s| ==> Before(x, s[i]) }

  lemma HeadsCons(x: Entry, s: seq<Entry>)
    requires Heads(x, s) && InOrder(s)
    ensures InOrder([x] + s)
  {
    var r := [x] + s;
    forall i, j | 0 <= i < j < |r| ensures Before(r[i], r[j]) {
      assert r[j] == s[j - 1];
      if i > 0 {
        assert r[i] == s[i - 1];
      }
    }
  }

  lemma {:induction false} HeadsInsert(x: Entry, e: Entry, s: seq<Entry>)
    requires Heads(x, s) && Before(x, e)
    ensures Heads(x, Insert(e, s))
    decreases |s|
  {
    if s != [] && !Before(e, s[0]) {
      HeadsInsert(x, e, s[1..]);
    }
  }

  lemma {:induction false} InsertOrders(e: Entry, s: seq<Entry>)
    requires InOrder(s)
    ensures InOrder(Insert(e, s))
    decreases |s|
  {
    if s == [] {
    } else if Before(e, s[0]) {
      forall i | 0 <= i < |s| ensures Before(e, s[i]) {
        if i > 0 {
          LeqTransitive(e.name.utf8, s[0].name.utf8, s[i].name.utf8);
        }
      }
      HeadsCons(e, s);
    } else {
      LeqTotal(e.name.utf8, s[0].name.utf8);
      InsertOrders(e, s[1..]);
      HeadsInsert(s[0], e, s[1..]);
      HeadsCons(s[0], Insert(e, s[1..]));
    }
  }

  lemma {:induction false} ArrangeOrders(cs: seq<Entry>)
    ensures InOrder(Arrange(cs))
    decreases |cs|
  {
    if cs != [] {
      ArrangeOrders(cs[1..]);
      InsertOrders(cs[0], Arrange(cs[1..]));
    }
  }

  /** The sorted children are the children, each sorted, in another order. */
  lemma SortPermutes(cs: seq<Entry>)
    ensures multiset(SortAll(cs)) == multiset(SortEach(cs, 0))
  {
    ArrangePermutes(SortEach(cs, 0));
  }

  lemma {:induction false} EachIs(cs: seq<Entry>, i: nat, k: nat)
    requires i <= k < |cs|
    ensures SortEach(cs, i)[k - i] == SortEntry(cs[k])
    decreases |cs| - i
  {
    if i < k {
      EachIs(cs, i + 1, k);
    }
  }

  /** An entry of the sorted list is one of the children, sorted. */
  lemma SortedFrom(cs: seq<Entry>, k: nat) returns (j: nat)
    requires k < |SortAll(cs)|
    ensures j < |cs| && SortAll(cs)[k] == SortEntry(cs[j])
  {
    var e := SortAll(cs)[k];
    SortPermutes(cs);
    assert e in multiset(SortEach(cs, 0));
    j :| 0 <= j < |cs| && SortEach(cs, 0)[j] == e;
    EachIs(cs, 0, j);
  }

  /** Folder.sort orders names at every depth. */
  lemma {:induction false} SortSorts(cs: seq<Entry>)
    ensures Sorted(SortAll(cs))
    decreases cs
  {
    ArrangeOrders(SortEach(cs, 0));
    forall i, j | 0 <= i < j < |SortAll(cs)|
      ensures !Precedes(SortAll(cs)[j].name.utf8, SortAll(cs)[i].name.utf8)
    {
      LeqPrecedes(SortAll(cs)[i].name.utf8, SortAll(cs)[j].name.utf8);
    }
    forall k | 0 <= k < |SortAll(cs)| ensures SortedEntry(SortAll(cs)[k]) {
      var j := SortedFrom(cs, k);
      if cs[j].Folder? {
        SortSorts(cs[j].children);
      }
    }
  }

  lemma {:induction false} SortGood(cs: seq<Entry>)
    requires GoodNames(cs)
    ensures GoodNames(SortAll(cs))
    decreases cs
  {
    forall k | 0 <= k < |SortAll(cs)| ensures GoodName(SortAll(cs)[k]) {
      var j := SortedFrom(cs, k);
      assert GoodName(cs[j]);
      if cs[j].Folder? {
        SortGood(cs[j].children);
      }
    }
  }

  /** The whole program: sorting, then packing; the reader recovers the sorted tree. */
  method MakeImage(cs: seq<Entry>, base: nat) returns (r: Option<seq<byte>>)
    ensures r.Some? <==> ImageFits(SortAll(cs), base)
    ensures Sorted(SortAll(cs)) && multiset(SortAll(cs)) == multiset(SortEach(cs, 0))
    ensures r.Some? && GoodNames(cs) ==>
              ReadImage(r.value, base) == Some(FolderItem(['/' as byte], SeenAll(SortAll(cs), 0)))
  {
    SortSorts(cs);
    SortPermutes(cs);
    if GoodNames(cs) {
      SortGood(cs);
    }
    r := GetBinData(SortAll(cs), base);
  }
}
