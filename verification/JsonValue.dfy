/** JSON documents as cJSON holds them (ordered member lists) and what they mean (finite maps). */
module JsonValue {
  import opened Bytes
  import opened JsonSort

  datatype Json = Null | False | True | Number(n: int) | String(s: Text) | Array(items: seq<Json>)
                | Object(members: seq<Member>)

  datatype Member = Member(key: Text, value: Json)

  datatype Value = VNull | VBool(b: bool) | VNumber(n: int) | VString(s: Text) | VArray(items: seq<Value>)
                 | VObject(members: map<Text, Value>)

  function Mean(j: Json): Value {
    match j
    case Null => VNull
    case False => VBool(false)
    case True => VBool(true)
    case Number(n) => VNumber(n)
    case String(s) => VString(s)
    case Array(items) => VArray(MeanItems(items))
    case Object(members) => VObject(MapOf(members))
  }

  function MeanItems(items: seq<Json>): seq<Value> {
    if items == [] then [] else [Mean(items[0])] + MeanItems(items[1..])
  }

  /** The first member with a key is the one that lookups find. */
  function MapOf(ms: seq<Member>): map<Text, Value> {
    if ms == [] then map[] else MapOf(ms[1..])[ms[0].key := Mean(ms[0].value)]
  }

  // ---------------------------------------------------------------- keys

  /** strcmp */
  function Order(a: Text, b: Text): int { Compare(a, b, true, 0) }

  lemma {:induction false} CompareEqual(a: Text, b: Text, i: nat)
    requires i <= |a| && i <= |b| && a[..i] == b[..i]
    ensures Compare(a, b, true, i) == 0 <==> a == b
    decreases |a| - i
  {
    if CharAt(a, i) == CharAt(b, i) && i < |a| {
      assert a[..i + 1] == a[..i] + [a[i]] && b[..i + 1] == b[..i] + [b[i]];
      CompareEqual(a, b, i + 1);
    } else if CharAt(a, i) == CharAt(b, i) {
      assert a == a[..i] && b == b[..i];
    }
  }

  lemma OrderEqual(a: Text, b: Text)
    ensures Order(a, b) == 0 <==> a == b
    ensures Order(a, b) == -Order(b, a)
  {
    CompareEqual(a, b, 0);
    CompareFlips(a, b, true, 0);
  }

  lemma {:induction false} CompareSelf(a: Text, cs: bool, i: nat)
    requires i <= |a|
    ensures Compare(a, a, cs, i) == 0
    decreases |a| - i
  {
    if i < |a| {
      CompareSelf(a, cs, i + 1);
    }
  }

  lemma StrictlyTransitive(a: Text, b: Text, c: Text, cs: bool)
    requires Compare(a, b, cs, 0) < 0 && Compare(b, c, cs, 0) <= 0
    ensures Compare(a, c, cs, 0) < 0
  {
    CompareTransitive(a, b, c, cs, 0);
    if Compare(a, c, cs, 0) == 0 {
      CompareFlips(a, c, cs, 0);
      CompareTransitive(b, c, a, cs, 0);
      CompareFlips(a, b, cs, 0);
    }
  }

  /** Keys that count as equal are equal. */
  ghost predicate Told(keys: set<Text>, cs: bool) {
    forall a, b :: a in keys && b in keys && Compare(a, b, cs, 0) == 0 ==> a == b
  }

  lemma ToldApart(keys: set<Text>, a: Text, b: Text, cs: bool)
    requires Told(keys, cs) && a in keys && b in keys
    ensures Compare(a, b, cs, 0) == 0 <==> a == b
  {
    CompareSelf(a, cs, 0);
  }

  /** Case-sensitive comparison tells all keys apart. */
  lemma SensitiveTold(keys: set<Text>)
    ensures Told(keys, true)
  {
    forall a, b | a in keys && b in keys && Compare(a, b, true, 0) == 0 ensures a == b {
      CompareEqual(a, b, 0);
    }
  }

  /** A key that only one side has and that comes before a key of both comes before it in byte order too. */
  ghost predicate LinedUp(f: set<Text>, t: set<Text>, cs: bool) {
    forall a, b :: a in f + t && !(a in f && a in t) && b in f && b in t && Compare(a, b, cs, 0) < 0 ==> Order(a, b) < 0
  }

  /** No upper-case letters. */
  predicate Plain(k: Text) { forall i :: 0 <= i < |k| ==> ToLower(k[i]) == k[i] }

  lemma {:induction false} PlainCompare(a: Text, b: Text, i: nat)
    requires i <= |a| && i <= |b| && Plain(a) && Plain(b)
    ensures Compare(a, b, false, i) == Compare(a, b, true, i)
    decreases |a| - i
  {
    if CharAt(a, i) == CharAt(b, i) && i < |a| {
      PlainCompare(a, b, i + 1);
    }
  }

  /** Without upper-case letters case makes no difference. */
  lemma PlainKeys(f: set<Text>, t: set<Text>)
    requires forall k <- f + t :: Plain(k)
    ensures Told(f + t, false) && LinedUp(f, t, false)
  {
    forall a, b | a in f + t && b in f + t
      ensures Compare(a, b, false, 0) == Order(a, b) && (Order(a, b) == 0 ==> a == b)
    {
      PlainCompare(a, b, 0);
      CompareEqual(a, b, 0);
    }
  }

  // ---------------------------------------------------------------- places in a document

  datatype Step = Key(key: Text) | Index(i: nat)

  /** The keys that may occur in the object at each place. */
  type Universe = seq<Step> -> set<Text>

  /** The universe of what lies behind one step. */
  ghost function Behind(u: Universe, s: Step): Universe { (p: seq<Step>) => u([s] + p) }

  ghost predicate AllTold(u: Universe, cs: bool) { forall p :: Told(u(p), cs) }

  lemma BehindTold(u: Universe, s: Step, cs: bool)
    requires AllTold(u, cs)
    ensures AllTold(Behind(u, s), cs)
  {
  }

  /** Keys are in the universe and, within each object, distinct. */
  ghost predicate Good(j: Json, u: Universe) {
    match j
    case Array(items) => GoodItems(items, 0, u)
    case Object(members) => GoodMembers(members, u)
    case _ => true
  }

  /** The items are those from index i on. */
  ghost predicate GoodItems(items: seq<Json>, i: nat, u: Universe) {
    items == [] || (Good(items[0], Behind(u, Index(i))) && GoodItems(items[1..], i + 1, u))
  }

  ghost predicate GoodMembers(ms: seq<Member>, u: Universe) {
    ms == [] || (GoodMember(ms[0], u) && ms[0].key !in MapOf(ms[1..]) && GoodMembers(ms[1..], u))
  }

  ghost predicate GoodMember(m: Member, u: Universe) { m.key in u([]) && Good(m.value, Behind(u, Key(m.key))) }

  lemma Cons(m: Member, s: seq<Member>, u: Universe)
    ensures MapOf([m] + s) == MapOf(s)[m.key := Mean(m.value)]
    ensures GoodMember(m, u) && m.key !in MapOf(s) && GoodMembers(s, u) ==> GoodMembers([m] + s, u)
  {
    assert ([m] + s)[1..] == s;
  }

  /** Within each object keys are distinct. */
  ghost predicate Unique(j: Json) {
    match j
    case Array(items) => forall i :: 0 <= i < |items| ==> Unique(items[i])
    case Object(members) => UniqueMembers(members) && forall i :: 0 <= i < |members| ==> Unique(members[i].value)
    case _ => true
  }

  ghost predicate UniqueMembers(ms: seq<Member>) {
    ms == [] || (ms[0].key !in MapOf(ms[1..]) && UniqueMembers(ms[1..]))
  }

  /** The member that lookups find. */
  function ValueAt(ms: seq<Member>, k: Text): Option<Json>
    decreases |ms|
  {
    if ms == [] then None else if ms[0].key == k then Some(ms[0].value) else ValueAt(ms[1..], k)
  }

  /** The keys of the object at a place, if there is one. */
  function KeysAt(j: Json, p: seq<Step>): set<Text>
    decreases |p|
  {
    if p == [] then if j.Object? then MapOf(j.members).Keys else {}
    else if j.Object? && p[0].Key? then
      var v := ValueAt(j.members, p[0].key);
      if v.Some? then KeysAt(v.value, p[1..]) else {}
    else if j.Array? && p[0].Index? && p[0].i < |j.items| then KeysAt(j.items[p[0].i], p[1..])
    else {}
  }

  ghost function Both(a: Json, b: Json): Universe { (p: seq<Step>) => KeysAt(a, p) + KeysAt(b, p) }

  ghost predicate Inside(j: Json, u: Universe) { forall p :: KeysAt(j, p) <= u(p) }

  lemma {:induction false} MemberFound(ms: seq<Member>, i: nat)
    requires UniqueMembers(ms) && i < |ms|
    ensures ms[i].key in MapOf(ms) && ValueAt(ms, ms[i].key) == Some(ms[i].value)
    decreases |ms|
  {
    if i > 0 {
      MemberFound(ms[1..], i - 1);
    }
  }

  lemma InsideMember(ms: seq<Member>, i: nat, u: Universe)
    requires UniqueMembers(ms) && i < |ms| && Inside(Object(ms), u)
    ensures ms[i].key in u([]) && Inside(ms[i].value, Behind(u, Key(ms[i].key)))
  {
    MemberFound(ms, i);
    assert KeysAt(Object(ms), []) <= u([]);
    forall p: seq<Step> ensures KeysAt(ms[i].value, p) <= Behind(u, Key(ms[i].key))(p) {
      var q := [Key(ms[i].key)] + p;
      assert q[1..] == p && KeysAt(Object(ms), q) <= u(q);
    }
  }

  lemma InsideItem(items: seq<Json>, i: nat, u: Universe)
    requires i < |items| && Inside(Array(items), u)
    ensures Inside(items[i], Behind(u, Index(i)))
  {
    forall p: seq<Step> ensures KeysAt(items[i], p) <= Behind(u, Index(i))(p) {
      var q := [Index(i)] + p;
      assert q[1..] == p && KeysAt(Array(items), q) <= u(q);
    }
  }

  /** Every document is good for a universe that holds its keys. */
  lemma {:induction false} UniqueGood(j: Json, u: Universe)
    requires Unique(j) && Inside(j, u)
    ensures Good(j, u)
    decreases j, 1
  {
    match j
    case Array(items) =>
      UniqueGoodItems(items, 0, u);
      assert items[0..] == items;
    case Object(members) =>
      UniqueGoodMembers(members, 0, u);
      assert members[0..] == members;
    case _ =>
  }

  lemma {:induction false} UniqueGoodItems(items: seq<Json>, i: nat, u: Universe)
    requires i <= |items| && Unique(Array(items)) && Inside(Array(items), u)
    ensures GoodItems(items[i..], i, u)
    decreases items, |items| - i
  {
    if i < |items| {
      InsideItem(items, i, u);
      UniqueGood(items[i], Behind(u, Index(i)));
      UniqueGoodItems(items, i + 1, u);
      assert items[i..][1..] == items[i + 1..];
    }
  }

  lemma {:induction false} UniqueGoodMembers(ms: seq<Member>, i: nat, u: Universe)
    requires i <= |ms| && Unique(Object(ms)) && Inside(Object(ms), u)
    ensures GoodMembers(ms[i..], u)
    decreases ms, |ms| - i
  {
    if i < |ms| {
      InsideMember(ms, i, u);
      UniqueGood(ms[i].value, Behind(u, Key(ms[i].key)));
      UniqueGoodMembers(ms, i + 1, u);
      assert ms[i..][1..] == ms[i + 1..];
      UniqueTail(ms, i);
    }
  }

  lemma {:induction false} UniqueTail(ms: seq<Member>, i: nat)
    requires UniqueMembers(ms) && i <= |ms|
    ensures UniqueMembers(ms[i..])
    decreases i
  {
    if i > 0 {
      UniqueTail(ms[1..], i - 1);
      assert ms[1..][i - 1..] == ms[i..];
    } else {
      assert ms[0..] == ms;
    }
  }

  // ---------------------------------------------------------------- sorted members

  function Size(j: Json): (n: nat)
    ensures n > 0
  {
    match j
    case Array(items) => 1 + SizeItems(items)
    case Object(members) => 1 + SizeMembers(members)
    case _ => 1
  }

  function SizeItems(items: seq<Json>): nat {
    if items == [] then 0 else Size(items[0]) + SizeItems(items[1..])
  }

  function SizeMembers(ms: seq<Member>): nat {
    if ms == [] then 0 else Size(ms[0].value) + SizeMembers(ms[1..])
  }

  function Insert(m: Member, s: seq<Member>, cs: bool): (r: seq<Member>)
    ensures SizeMembers(r) == Size(m.value) + SizeMembers(s)
    decreases |s|
  {
    if s == [] || Compare(m.key, s[0].key, cs, 0) <= 0 then [m] + s else [s[0]] + Insert(m, s[1..], cs)
  }

  /** The members in nondecreasing key order. */
  function Arrange(s: seq<Member>, cs: bool): (r: seq<Member>)
    ensures SizeMembers(r) == SizeMembers(s)
    decreases |s|
  {
    if s == [] then [] else Insert(s[0], Arrange(s[1..], cs), cs)
  }

  ghost predicate Below(k: Text, s: seq<Member>, cs: bool) {
    forall i :: 0 <= i < |s| ==> Compare(k, s[i].key, cs, 0) < 0
  }

  /** Strictly increasing keys. */
  ghost predicate Ascending(s: seq<Member>, cs: bool) {
    s == [] || (Below(s[0].key, s[1..], cs) && Ascending(s[1..], cs))
  }

  lemma {:induction false} Absent(k: Text, s: seq<Member>, cs: bool)
    requires Below(k, s, cs)
    ensures k !in MapOf(s)
    decreases |s|
  {
    if s != [] {
      CompareSelf(k, cs, 0);
      Absent(k, s[1..], cs);
    }
  }

  lemma BelowMore(k: Text, s: seq<Member>, cs: bool)
    requires s != [] && Ascending(s, cs) && Compare(k, s[0].key, cs, 0) < 0
    ensures Below(k, s, cs)
  {
    forall i | 0 <= i < |s| ensures Compare(k, s[i].key, cs, 0) < 0 {
      if i > 0 {
        assert s[i] == s[1..][i - 1];
        StrictlyTransitive(k, s[0].key, s[i].key, cs);
      }
    }
  }

  lemma {:induction false} BelowInsert(k: Text, m: Member, s: seq<Member>, cs: bool)
    requires Below(k, s, cs) && Compare(k, m.key, cs, 0) < 0
    ensures Below(k, Insert(m, s, cs), cs)
    decreases |s|
  {
    if s != [] && Compare(m.key, s[0].key, cs, 0) > 0 {
      BelowInsert(k, m, s[1..], cs);
    }
  }

  lemma {:induction false} InsertAscends(m: Member, s: seq<Member>, u: Universe, cs: bool)
    requires GoodMember(m, u) && GoodMembers(s, u) && Ascending(s, cs) && m.key !in MapOf(s) && Told(u([]), cs)
    ensures Ascending(Insert(m, s, cs), cs)
    decreases |s|
  {
    if s != [] {
      ToldApart(u([]), m.key, s[0].key, cs);
      CompareFlips(m.key, s[0].key, cs, 0);
      if Compare(m.key, s[0].key, cs, 0) <= 0 {
        BelowMore(m.key, s, cs);
        assert ([m] + s)[1..] == s;
      } else {
        InsertAscends(m, s[1..], u, cs);
        BelowInsert(s[0].key, m, s[1..], cs);
        assert Insert(m, s, cs)[1..] == Insert(m, s[1..], cs);
      }
    }
  }

  lemma Commute(f: map<Text, Value>, k: Text, v: Value, l: Text, w: Value)
    requires k != l
    ensures f[k := v][l := w] == f[l := w][k := v]
  {
  }

  lemma {:induction false} InsertMeans(m: Member, s: seq<Member>, u: Universe, cs: bool)
    requires GoodMember(m, u) && GoodMembers(s, u) && m.key !in MapOf(s)
    ensures GoodMembers(Insert(m, s, cs), u)
    ensures MapOf(Insert(m, s, cs)) == MapOf(s)[m.key := Mean(m.value)]
    decreases |s|
  {
    if s == [] || Compare(m.key, s[0].key, cs, 0) <= 0 {
      Cons(m, s, u);
    } else {
      InsertMeans(m, s[1..], u, cs);
      Cons(s[0], Insert(m, s[1..], cs), u);
      Commute(MapOf(s[1..]), m.key, Mean(m.value), s[0].key, Mean(s[0].value));
    }
  }

  /** Sorting keeps the meaning, in whatever order. */
  lemma {:induction false} ArrangeKeeps(s: seq<Member>, u: Universe, cs: bool)
    requires GoodMembers(s, u)
    ensures GoodMembers(Arrange(s, cs), u) && MapOf(Arrange(s, cs)) == MapOf(s)
    decreases |s|
  {
    if s != [] {
      ArrangeKeeps(s[1..], u, cs);
      InsertMeans(s[0], Arrange(s[1..], cs), u, cs);
    }
  }

  /** Keys that are told apart come out strictly increasing. */
  lemma {:induction false} ArrangeAscends(s: seq<Member>, u: Universe, cs: bool)
    requires GoodMembers(s, u) && Told(u([]), cs)
    ensures Ascending(Arrange(s, cs), cs)
    decreases |s|
  {
    if s != [] {
      ArrangeAscends(s[1..], u, cs);
      ArrangeKeeps(s[1..], u, cs);
      InsertAscends(s[0], Arrange(s[1..], cs), u, cs);
    }
  }

  // ---------------------------------------------------------------- compare_json

  predicate CompareJson(a: Json, b: Json, cs: bool)
    decreases Size(a), 0
  {
    match (a, b)
    case (Null, Null) => true
    case (False, False) => true
    case (True, True) => true
    case (Number(x), Number(y)) => x == y
    case (String(x), String(y)) => x == y
    case (Array(x), Array(y)) => CompareItems(x, y, cs)
    case (Object(x), Object(y)) => CompareMembers(Arrange(x, cs), Arrange(y, cs), cs)
    case _ => false
  }

  predicate CompareItems(a: seq<Json>, b: seq<Json>, cs: bool)
    decreases SizeItems(a), 1
  {
    if a == [] || b == [] then a == b
    else CompareJson(a[0], b[0], cs) && CompareItems(a[1..], b[1..], cs)
  }

  predicate CompareMembers(a: seq<Member>, b: seq<Member>, cs: bool)
    decreases SizeMembers(a), 1
  {
    if a == [] || b == [] then a == b
    else
      && Compare(a[0].key, b[0].key, cs, 0) == 0
      && CompareJson(a[0].value, b[0].value, cs)
      && CompareMembers(a[1..], b[1..], cs)
  }

  /** compare_json decides whether two documents mean the same. */
  lemma {:induction false} ComparesMeaning(a: Json, b: Json, u: Universe, cs: bool)
    requires Good(a, u) && Good(b, u) && AllTold(u, cs)
    ensures CompareJson(a, b, cs) <==> Mean(a) == Mean(b)
    decreases Size(a), 0
  {
    match (a, b)
    case (Array(x), Array(y)) => ComparesItems(x, y, 0, u, cs);
    case (Object(x), Object(y)) =>
      ArrangeKeeps(x, u, cs);
      ArrangeKeeps(y, u, cs);
      ArrangeAscends(x, u, cs);
      ArrangeAscends(y, u, cs);
      ComparesMembers(Arrange(x, cs), Arrange(y, cs), u, cs);
    case _ =>
  }

  lemma {:induction false} ComparesItems(a: seq<Json>, b: seq<Json>, i: nat, u: Universe, cs: bool)
    requires GoodItems(a, i, u) && GoodItems(b, i, u) && AllTold(u, cs)
    ensures CompareItems(a, b, cs) <==> MeanItems(a) == MeanItems(b)
    decreases SizeItems(a), 1
  {
    if a != [] && b != [] {
      BehindTold(u, Index(i), cs);
      ComparesMeaning(a[0], b[0], Behind(u, Index(i)), cs);
      ComparesItems(a[1..], b[1..], i + 1, u, cs);
      assert MeanItems(a)[0] == Mean(a[0]) && MeanItems(a)[1..] == MeanItems(a[1..]);
      assert MeanItems(b)[0] == Mean(b[0]) && MeanItems(b)[1..] == MeanItems(b[1..]);
    }
  }

  lemma {:induction false} ComparesMembers(a: seq<Member>, b: seq<Member>, u: Universe, cs: bool)
    requires GoodMembers(a, u) && GoodMembers(b, u) && AllTold(u, cs) && Ascending(a, cs) && Ascending(b, cs)
    ensures CompareMembers(a, b, cs) <==> MapOf(a) == MapOf(b)
    decreases SizeMembers(a), 1
  {
    if a != [] && b != [] {
      var k, l := a[0].key, b[0].key;
      ToldApart(u([]), k, l, cs);
      CompareFlips(k, l, cs, 0);
      if k == l {
        BehindTold(u, Key(k), cs);
        ComparesMeaning(a[0].value, b[0].value, Behind(u, Key(k)), cs);
        ComparesMembers(a[1..], b[1..], u, cs);
        assert MapOf(a)[k] == Mean(a[0].value) && MapOf(a) - {k} == MapOf(a[1..]);
        assert MapOf(b)[k] == Mean(b[0].value) && MapOf(b) - {k} == MapOf(b[1..]);
      } else if Compare(k, l, cs, 0) < 0 {
        BelowMore(k, b, cs);
        Absent(k, b, cs);
        assert k in MapOf(a);
      } else {
        BelowMore(l, a, cs);
        Absent(l, a, cs);
        assert l in MapOf(b);
      }
    } else if a != [] {
      assert a[0].key in MapOf(a);
    } else if b != [] {
      assert b[0].key in MapOf(b);
    }
  }

  // ---------------------------------------------------------------- sort_list arranges

  lemma {:induction false} InsertHas(m: Member, s: seq<Member>, cs: bool, x: Member)
    ensures x in Insert(m, s, cs) <==> x == m || x in s
    decreases |s|
  {
    if s != [] && Compare(m.key, s[0].key, cs, 0) > 0 {
      InsertHas(m, s[1..], cs, x);
      assert s == [s[0]] + s[1..];
    }
  }

  lemma {:induction false} ArrangeHas(s: seq<Member>, cs: bool, x: Member)
    ensures x in Arrange(s, cs) <==> x in s
    decreases |s|
  {
    if s != [] {
      InsertHas(s[0], Arrange(s[1..], cs), cs, x);
      ArrangeHas(s[1..], cs, x);
      assert s == [s[0]] + s[1..];
    }
  }

  lemma BelowAll(k: Text, s: seq<Member>, x: Member, cs: bool)
    requires Below(k, s, cs) && x in s
    ensures Compare(k, x.key, cs, 0) < 0 && x.key != k
  {
    CompareSelf(k, cs, 0);
  }

  lemma AscendingHeads(a: seq<Member>, b: seq<Member>, cs: bool)
    requires a != [] && b != [] && Ascending(a, cs) && Ascending(b, cs) && a[0] in b && b[0] in a
    ensures a[0] == b[0]
  {
    assert a == [a[0]] + a[1..] && b == [b[0]] + b[1..];
    if a[0] != b[0] {
      BelowAll(b[0].key, b[1..], a[0], cs);
      BelowAll(a[0].key, a[1..], b[0], cs);
      CompareFlips(a[0].key, b[0].key, cs, 0);
    }
  }

  lemma TailHas(a: seq<Member>, x: Member, cs: bool)
    requires a != [] && Ascending(a, cs)
    ensures x in a[1..] <==> x in a && x != a[0]
  {
    assert a == [a[0]] + a[1..];
    if x in a[1..] {
      BelowAll(a[0].key, a[1..], x, cs);
    }
  }

  lemma BothEmpty(a: seq<Member>, b: seq<Member>)
    requires forall x :: x in a <==> x in b
    ensures a == [] <==> b == []
  {
    if a != [] {
      assert a[0] in b;
    }
    if b != [] {
      assert b[0] in a;
    }
  }

  /** A set of members has one strictly increasing arrangement. */
  lemma {:induction false} OneArrangement(a: seq<Member>, b: seq<Member>, cs: bool)
    requires Ascending(a, cs) && Ascending(b, cs) && forall x :: x in a <==> x in b
    ensures a == b
    decreases |a|
  {
    BothEmpty(a, b);
    if a != [] {
      assert a[0] in b && b[0] in a;
      AscendingHeads(a, b, cs);
      forall x ensures x in a[1..] <==> x in b[1..] {
        TailHas(a, x, cs);
        TailHas(b, x, cs);
      }
      assert a == [a[0]] + a[1..] && b == [b[0]] + b[1..];
      OneArrangement(a[1..], b[1..], cs);
    }
  }

  /** The members that a list of nodes holds. */
  ghost function Held(s: seq<Item>, value: Item -> Json): (r: seq<Member>)
    requires Keyed(s)
    ensures |r| == |s|
  {
    seq(|s|, i requires 0 <= i < |s| => Member(s[i].key.value, value(s[i])))
  }

  lemma {:induction false} KeysApart(ms: seq<Member>, u: Universe, i: nat, j: nat)
    requires GoodMembers(ms, u) && i < j < |ms|
    ensures ms[i].key != ms[j].key && ms[i].key in u([]) && ms[j].key in u([])
    decreases |ms|
  {
    if i > 0 {
      KeysApart(ms[1..], u, i - 1, j - 1);
    } else {
      Present(ms[1..], u, j - 1);
    }
  }

  lemma {:induction false} Present(ms: seq<Member>, u: Universe, j: nat)
    requires j < |ms| && GoodMembers(ms, u)
    ensures ms[j].key in MapOf(ms) && ms[j].key in u([])
    decreases |ms|
  {
    if j > 0 {
      Present(ms[1..], u, j - 1);
    }
  }

  lemma {:induction false} AscendingFrom(r: seq<Member>, cs: bool)
    requires forall i, j :: 0 <= i < j < |r| ==> Compare(r[i].key, r[j].key, cs, 0) < 0
    ensures Ascending(r, cs)
    decreases |r|
  {
    if r != [] {
      AscendingFrom(r[1..], cs);
    }
  }

  /** Two nodes with equal keys are one node when the members are good. */
  lemma SameNode(s: seq<Item>, value: Item -> Json, u: Universe, x: Item, y: Item)
    requires Keyed(s) && GoodMembers(Held(s, value), u) && x in s && y in s && x != y
    ensures x.key.value != y.key.value && x.key.value in u([]) && y.key.value in u([])
  {
    var i :| 0 <= i < |s| && s[i] == x;
    var j :| 0 <= j < |s| && s[j] == y;
    if i < j {
      KeysApart(Held(s, value), u, i, j);
    } else {
      KeysApart(Held(s, value), u, j, i);
    }
  }

  lemma {:induction false} SortDistinct(s: seq<Item>, cs: bool)
    requires Distinct(s)
    ensures Distinct(SortSeq(s, cs))
    decreases |s|
  {
    if |s| > 1 && !Increasing(s, cs) {
      var mid := (|s| + 1) / 2;
      SortDistinct(s[..mid], cs);
      SortDistinct(s[mid..], cs);
      SortedMembers(s[..mid], cs);
      SortedMembers(s[mid..], cs);
      HalvesApart(s, mid);
      MergeDistinct(SortSeq(s[..mid], cs), SortSeq(s[mid..], cs), cs);
    }
  }

  lemma HeldAscends(s: seq<Item>, t: seq<Item>, value: Item -> Json, u: Universe, cs: bool)
    requires Keyed(s) && GoodMembers(Held(s, value), u) && Told(u([]), cs)
    requires Keyed(t) && Distinct(t) && Sorted(t, cs) && forall n :: n in s <==> n in t
    ensures Ascending(Held(t, value), cs)
  {
    var r := Held(t, value);
    forall i, j | 0 <= i < j < |r| ensures Compare(r[i].key, r[j].key, cs, 0) < 0 {
      assert Leq(t[i], t[j], cs);
      SameNode(s, value, u, t[i], t[j]);
      ToldApart(u([]), r[i].key, r[j].key, cs);
    }
    AscendingFrom(r, cs);
  }

  /** The in-place list sort puts members whose keys are told apart into the arrangement used here. */
  lemma SortListArranges(s: seq<Item>, value: Item -> Json, u: Universe, cs: bool)
    requires Keyed(s) && Distinct(s) && GoodMembers(Held(s, value), u) && Told(u([]), cs)
    ensures Keyed(SortSeq(s, cs)) && Held(SortSeq(s, cs), value) == Arrange(Held(s, value), cs)
  {
    var t := SortSeq(s, cs);
    SortPermutes(s, cs);
    KeyedPart(s, t);
    SortSorts(s, cs);
    SortDistinct(s, cs);
    SortedMembers(s, cs);
    HeldAscends(s, t, value, u, cs);
    ArrangeAscends(Held(s, value), u, cs);
    forall x ensures x in Held(t, value) <==> x in Arrange(Held(s, value), cs) {
      ArrangeHas(Held(s, value), cs, x);
      HeldHas(s, t, value, x);
    }
    OneArrangement(Held(t, value), Arrange(Held(s, value), cs), cs);
  }

  lemma HeldHas(s: seq<Item>, t: seq<Item>, value: Item -> Json, x: Member)
    requires Keyed(s) && Keyed(t) && forall n :: n in s <==> n in t
    ensures x in Held(s, value) <==> x in Held(t, value)
  {
    if x in Held(s, value) {
      var i :| 0 <= i < |s| && Held(s, value)[i] == x;
      assert s[i] in t;
      var j :| 0 <= j < |t| && t[j] == s[i];
      assert Held(t, value)[j] == x;
    }
    if x in Held(t, value) {
      var i :| 0 <= i < |t| && Held(t, value)[i] == x;
      assert t[i] in s;
      var j :| 0 <= j < |s| && s[j] == t[i];
      assert Held(s, value)[j] == x;
    }
  }
}
