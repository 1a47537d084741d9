/** JSON merge patch (RFC 7396): applying one and generating one. */
module MergePatch {
  import opened Bytes
  import opened JsonSort
  import opened JsonValue

  // ---------------------------------------------------------------- what the standard says

  /** The members of a target, none when it is missing or no object. */
  function Fields(t: Option<Value>): map<Text, Value> {
    if t.Some? && t.value.VObject? then t.value.members else map[]
  }

  function Get(m: map<Text, Value>, k: Text): Option<Value> { if k in m then Some(m[k]) else None }

  /** Section 2 of RFC 7396, member by member. */
  function Patched(t: Option<Value>, p: Value): Value
    decreases p, 1
  {
    if p.VObject? then VObject(PatchedFields(Fields(t), p)) else p
  }

  function PatchedFields(t: map<Text, Value>, p: Value): map<Text, Value>
    requires p.VObject?
    decreases p, 0
  {
    map k | k in t.Keys + p.members.Keys && !(k in p.members && p.members[k].VNull?) ::
      if k in p.members then Patched(Get(t, k), p.members[k]) else t[k]
  }

  /** Patching twice is patching once. */
  lemma {:induction false} PatchIdempotent(t: Option<Value>, p: Value)
    ensures Patched(Some(Patched(t, p)), p) == Patched(t, p)
    decreases p
  {
    if p.VObject? {
      var once := PatchedFields(Fields(t), p);
      forall k | k in p.members && !p.members[k].VNull?
        ensures Patched(Get(once, k), p.members[k]) == once[k]
      {
        PatchIdempotent(Get(Fields(t), k), p.members[k]);
      }
      assert PatchedFields(once, p) == once;
    }
  }

  // ---------------------------------------------------------------- merge_patch

  /** cJSON_GetObjectItem */
  function Lookup(ms: seq<Member>, k: Text, cs: bool): Option<Json>
    decreases |ms|
  {
    if ms == [] then None
    else if Compare(k, ms[0].key, cs, 0) == 0 then Some(ms[0].value)
    else Lookup(ms[1..], k, cs)
  }

  /** cJSON_DetachItemFromObject, and what cJSON_DeleteItemFromObject leaves. */
  function Without(ms: seq<Member>, k: Text, cs: bool): seq<Member>
    decreases |ms|
  {
    if ms == [] then []
    else if Compare(k, ms[0].key, cs, 0) == 0 then ms[1..]
    else [ms[0]] + Without(ms[1..], k, cs)
  }

  function MembersOf(t: Option<Json>): seq<Member> {
    if t.Some? && t.value.Object? then t.value.members else []
  }

  /** What merge_patch makes of the target. */
  function Merged(t: Option<Json>, p: Json, cs: bool): Json
    decreases p, 0
  {
    if p.Object? then Object(MergedMembers(MembersOf(t), p.members, cs)) else p
  }

  /** The target's members after one member of the patch. */
  function MergedMember(t: seq<Member>, c: Member, cs: bool): seq<Member>
    decreases c, 1
  {
    if c.value.Null? then Without(t, c.key, cs)
    else Without(t, c.key, cs) + [Member(c.key, Merged(Lookup(t, c.key, cs), c.value, cs))]
  }

  function MergedMembers(t: seq<Member>, p: seq<Member>, cs: bool): seq<Member>
    decreases p
  {
    if p == [] then t else MergedMembers(MergedMember(t, p[0], cs), p[1..], cs)
  }

  /** merge_patch */
  method Merge(target: Option<Json>, patch: Json, cs: bool) returns (r: Json)
    ensures r == Merged(target, patch, cs)
    decreases patch
  {
    if !patch.Object? {
      return patch;
    }
    var members := if target.Some? && target.value.Object? then target.value.members else [];
    for i := 0 to |patch.members|
      invariant MergedMembers(members, patch.members[i..], cs) == MergedMembers(MembersOf(target), patch.members, cs)
    {
      var c := patch.members[i];
      assert patch.members[i..][1..] == patch.members[i + 1..];
      if c.value.Null? {
        members := Without(members, c.key, cs);
      } else {
        var replaceMe := Lookup(members, c.key, cs);
        var replacement := Merge(replaceMe, c.value, cs);
        members := Without(members, c.key, cs) + [Member(c.key, replacement)];
      }
    }
    return Object(members);
  }

  lemma {:induction false} LookupFinds(ms: seq<Member>, k: Text, u: Universe, cs: bool)
    requires GoodMembers(ms, u) && k in u([]) && Told(u([]), cs)
    ensures Lookup(ms, k, cs).Some? <==> k in MapOf(ms)
    ensures Lookup(ms, k, cs).Some? ==>
              Good(Lookup(ms, k, cs).value, Behind(u, Key(k))) && MapOf(ms)[k] == Mean(Lookup(ms, k, cs).value)
    decreases |ms|
  {
    if ms != [] {
      ToldApart(u([]), k, ms[0].key, cs);
      LookupFinds(ms[1..], k, u, cs);
    }
  }

  lemma {:induction false} WithoutRemoves(ms: seq<Member>, k: Text, u: Universe, cs: bool)
    requires GoodMembers(ms, u) && k in u([]) && Told(u([]), cs)
    ensures GoodMembers(Without(ms, k, cs), u) && MapOf(Without(ms, k, cs)) == MapOf(ms) - {k}
    decreases |ms|
  {
    if ms != [] {
      ToldApart(u([]), k, ms[0].key, cs);
      if k != ms[0].key {
        WithoutRemoves(ms[1..], k, u, cs);
        Cons(ms[0], Without(ms[1..], k, cs), u);
        RemovedBehind(MapOf(ms[1..]), ms[0].key, Mean(ms[0].value), k);
      } else {
        RemovedFirst(MapOf(ms[1..]), k, Mean(ms[0].value));
      }
    }
  }

  lemma RemovedBehind(m: map<Text, Value>, k: Text, v: Value, x: Text)
    requires x != k
    ensures m[k := v] - {x} == (m - {x})[k := v]
  {
  }

  lemma RemovedFirst(m: map<Text, Value>, k: Text, v: Value)
    requires k !in m
    ensures m[k := v] - {k} == m
  {
  }

  lemma {:induction false} Append(ms: seq<Member>, m: Member, u: Universe)
    requires GoodMembers(ms, u) && GoodMember(m, u) && m.key !in MapOf(ms)
    ensures GoodMembers(ms + [m], u) && MapOf(ms + [m]) == MapOf(ms)[m.key := Mean(m.value)]
    decreases |ms|
  {
    if ms == [] {
      Cons(m, [], u);
      assert ms + [m] == [m] + [];
    } else {
      Append(ms[1..], m, u);
      Cons(ms[0], ms[1..] + [m], u);
      assert ms + [m] == [ms[0]] + (ms[1..] + [m]);
      Commute(MapOf(ms[1..]), m.key, Mean(m.value), ms[0].key, Mean(ms[0].value));
    }
  }

  function MeanOption(t: Option<Json>): Option<Value> { if t.Some? then Some(Mean(t.value)) else None }

  ghost predicate GoodOption(t: Option<Json>, u: Universe) { t.Some? ==> Good(t.value, u) }

  /** What a patch makes of a target's meaning, member by member: a patch may speak of a key more than once. */
  function Applied(t: Option<Value>, p: Json): Value
    decreases p, 0
  {
    if p.Object? then VObject(AppliedMembers(Fields(t), p.members)) else Mean(p)
  }

  function AppliedMember(t: map<Text, Value>, c: Member): map<Text, Value>
    decreases c, 1
  {
    if c.value.Null? then t - {c.key} else t[c.key := Applied(Get(t, c.key), c.value)]
  }

  function AppliedMembers(t: map<Text, Value>, p: seq<Member>): map<Text, Value>
    decreases p
  {
    if p == [] then t else AppliedMembers(AppliedMember(t, p[0]), p[1..])
  }

  /** The keys that a patch speaks of are in the universe. */
  ghost predicate Fits(p: Json, u: Universe) { if p.Object? then FitMembers(p.members, u) else Good(p, u) }

  ghost predicate FitMembers(p: seq<Member>, u: Universe) {
    p == [] || (FitMember(p[0], u) && FitMembers(p[1..], u))
  }

  ghost predicate FitMember(c: Member, u: Universe) { c.key in u([]) && Fits(c.value, Behind(u, Key(c.key))) }

  lemma Restored(t: map<Text, Value>, k: Text, v: Value)
    ensures (t - {k})[k := v] == t[k := v]
  {
  }

  lemma {:induction false} MergesMember(t: seq<Member>, c: Member, u: Universe, cs: bool)
    requires GoodMembers(t, u) && FitMember(c, u) && AllTold(u, cs)
    ensures GoodMembers(MergedMember(t, c, cs), u)
    ensures MapOf(MergedMember(t, c, cs)) == AppliedMember(MapOf(t), c)
    decreases c, 1
  {
    WithoutRemoves(t, c.key, u, cs);
    if !c.value.Null? {
      var was := Lookup(t, c.key, cs);
      LookupFinds(t, c.key, u, cs);
      BehindTold(u, Key(c.key), cs);
      MergeApplies(was, c.value, Behind(u, Key(c.key)), cs);
      Append(Without(t, c.key, cs), Member(c.key, Merged(was, c.value, cs)), u);
      Restored(MapOf(t), c.key, Mean(Merged(was, c.value, cs)));
    }
  }

  lemma {:induction false} MergesMembers(t: seq<Member>, p: seq<Member>, u: Universe, cs: bool)
    requires GoodMembers(t, u) && FitMembers(p, u) && AllTold(u, cs)
    ensures GoodMembers(MergedMembers(t, p, cs), u)
    ensures MapOf(MergedMembers(t, p, cs)) == AppliedMembers(MapOf(t), p)
    decreases p
  {
    if p != [] {
      MergesMember(t, p[0], u, cs);
      MergesMembers(MergedMember(t, p[0], cs), p[1..], u, cs);
    }
  }

  /** Where keys that count as equal are equal, merge_patch applies the patch's members in turn. */
  lemma {:induction false} MergeApplies(t: Option<Json>, p: Json, u: Universe, cs: bool)
    requires GoodOption(t, u) && Fits(p, u) && AllTold(u, cs)
    ensures Good(Merged(t, p, cs), u) && Mean(Merged(t, p, cs)) == Applied(MeanOption(t), p)
    decreases p, 0
  {
    if p.Object? {
      MergesMembers(MembersOf(t), p.members, u, cs);
    }
  }

  /** The members of a patch with distinct keys may be applied one at a time. */
  lemma OneField(t: map<Text, Value>, k: Text, v: Value, rest: map<Text, Value>)
    requires k !in rest
    ensures PatchedFields(if v.VNull? then t - {k} else t[k := Patched(Get(t, k), v)], VObject(rest)) ==
            PatchedFields(t, VObject(rest[k := v]))
  {
  }

  lemma {:induction false} AppliesFields(t: map<Text, Value>, p: seq<Member>, u: Universe)
    requires GoodMembers(p, u)
    ensures FitMembers(p, u) && AppliedMembers(t, p) == PatchedFields(t, VObject(MapOf(p)))
    decreases p
  {
    if p == [] {
      assert PatchedFields(t, VObject(map[])) == t;
    } else {
      AppliesPatch(Get(t, p[0].key), p[0].value, Behind(u, Key(p[0].key)));
      AppliesFields(AppliedMember(t, p[0]), p[1..], u);
      OneField(t, p[0].key, Mean(p[0].value), MapOf(p[1..]));
    }
  }

  lemma {:induction false} AppliesPatch(t: Option<Value>, p: Json, u: Universe)
    requires Good(p, u)
    ensures Fits(p, u) && Applied(t, p) == Patched(t, Mean(p))
    decreases p, 0
  {
    if p.Object? {
      AppliesFields(Fields(t), p.members, u);
    }
  }

  /** Where keys that count as equal are equal, merge_patch does what the standard says. */
  lemma MergeMeans(t: Option<Json>, p: Json, u: Universe, cs: bool)
    requires GoodOption(t, u) && Good(p, u) && AllTold(u, cs)
    ensures Good(Merged(t, p, cs), u) && Mean(Merged(t, p, cs)) == Patched(MeanOption(t), Mean(p))
  {
    AppliesPatch(MeanOption(t), p, u);
    MergeApplies(t, p, u, cs);
  }

  /** merge_patch is idempotent, as compare_json sees it. */
  lemma MergeIdempotent(t: Option<Json>, p: Json, u: Universe, cs: bool)
    requires GoodOption(t, u) && Good(p, u) && AllTold(u, cs)
    ensures CompareJson(Merged(Some(Merged(t, p, cs)), p, cs), Merged(t, p, cs), cs)
  {
    MergeMeans(t, p, u, cs);
    MergeMeans(Some(Merged(t, p, cs)), p, u, cs);
    PatchIdempotent(MeanOption(t), Mean(p));
    ComparesMeaning(Merged(Some(Merged(t, p, cs)), p, cs), Merged(t, p, cs), u, cs);
  }

  // ---------------------------------------------------------------- exactly when merge_patch follows the standard

  /** The members that count as having key k, in order. */
  function Class(ms: seq<Member>, k: Text, cs: bool): seq<Member>
    decreases |ms|
  {
    if ms == [] then []
    else if Compare(k, ms[0].key, cs, 0) == 0 then [ms[0]] + Class(ms[1..], k, cs)
    else Class(ms[1..], k, cs)
  }

  function HeadValue(c: seq<Member>): Option<Json> { if c == [] then None else Some(c[0].value) }

  function Tail(c: seq<Member>): seq<Member> { if c == [] then [] else c[1..] }

  /** Every patch member, at every place, hits the member of exactly its key, or none: the first target member that
      counts as having its key has it. */
  ghost predicate Aimed(t: Option<Json>, p: Json, cs: bool)
    decreases p
  {
    p.Object? ==> forall i :: 0 <= i < |p.members| ==> AimedMember(MembersOf(t), p.members[i], cs)
  }

  ghost predicate AimedMember(t: seq<Member>, c: Member, cs: bool)
    decreases c, 0
  {
    var first := Class(t, c.key, cs);
    && (first == [] || first[0].key == c.key)
    && (c.value.Null? || Aimed(Lookup(t, c.key, cs), c.value, cs))
  }

  /** No two siblings count as having the same key. */
  ghost predicate Siblings(ms: seq<Member>, cs: bool) {
    forall i, j :: 0 <= i < j < |ms| ==> Compare(ms[i].key, ms[j].key, cs, 0) != 0
  }

  ghost predicate Separate(p: Json, cs: bool) {
    p.Object? ==> Siblings(p.members, cs) && forall i :: 0 <= i < |p.members| ==> Separate(p.members[i].value, cs)
  }

  lemma EqualKeys(a: Text, b: Text, c: Text, cs: bool)
    requires Compare(a, c, cs, 0) == 0 && Compare(b, c, cs, 0) == 0
    ensures Compare(a, b, cs, 0) == 0
  {
    CompareFlips(a, c, cs, 0);
    CompareFlips(b, c, cs, 0);
    CompareFlips(a, b, cs, 0);
    CompareTransitive(a, c, b, cs, 0);
    CompareTransitive(b, c, a, cs, 0);
  }

  lemma {:induction false} LookupClass(ms: seq<Member>, k: Text, cs: bool)
    ensures Lookup(ms, k, cs) == HeadValue(Class(ms, k, cs))
    decreases |ms|
  {
    if ms != [] && Compare(k, ms[0].key, cs, 0) != 0 {
      LookupClass(ms[1..], k, cs);
    }
  }

  lemma {:induction false} WithoutOwn(ms: seq<Member>, k: Text, cs: bool)
    ensures Class(Without(ms, k, cs), k, cs) == Tail(Class(ms, k, cs))
    decreases |ms|
  {
    if ms != [] && Compare(k, ms[0].key, cs, 0) != 0 {
      WithoutOwn(ms[1..], k, cs);
      assert ([ms[0]] + Without(ms[1..], k, cs))[1..] == Without(ms[1..], k, cs);
    }
  }

  lemma {:induction false} WithoutOther(ms: seq<Member>, k: Text, x: Text, cs: bool)
    requires Compare(k, x, cs, 0) != 0
    ensures Class(Without(ms, k, cs), x, cs) == Class(ms, x, cs)
    decreases |ms|
  {
    if ms != [] {
      if Compare(k, ms[0].key, cs, 0) == 0 {
        if Compare(x, ms[0].key, cs, 0) == 0 {
          EqualKeys(k, x, ms[0].key, cs);
        }
      } else {
        WithoutOther(ms[1..], k, x, cs);
        assert ([ms[0]] + Without(ms[1..], k, cs))[1..] == Without(ms[1..], k, cs);
      }
    }
  }

  lemma {:induction false} ClassAppend(ms: seq<Member>, m: Member, x: Text, cs: bool)
    ensures Class(ms + [m], x, cs) == Class(ms, x, cs) + if Compare(x, m.key, cs, 0) == 0 then [m] else []
    decreases |ms|
  {
    if ms == [] {
      assert ms + [m] == [m] && [m][1..] == [];
    } else {
      assert (ms + [m])[1..] == ms[1..] + [m] && (ms + [m])[0] == ms[0];
      ClassAppend(ms[1..], m, x, cs);
    }
  }

  /** What a patch member makes of its class. */
  function Replaced(group: seq<Member>, c: Member, cs: bool): seq<Member> {
    Tail(group) + if c.value.Null? then [] else [Member(c.key, Merged(HeadValue(group), c.value, cs))]
  }

  lemma MemberClass(ms: seq<Member>, c: Member, x: Text, cs: bool)
    ensures Class(MergedMember(ms, c, cs), c.key, cs) == Replaced(Class(ms, c.key, cs), c, cs)
    ensures Compare(c.key, x, cs, 0) != 0 ==> Class(MergedMember(ms, c, cs), x, cs) == Class(ms, x, cs)
  {
    LookupClass(ms, c.key, cs);
    WithoutOwn(ms, c.key, cs);
    CompareSelf(c.key, cs, 0);
    CompareFlips(c.key, x, cs, 0);
    if Compare(c.key, x, cs, 0) != 0 {
      WithoutOther(ms, c.key, x, cs);
    }
    if !c.value.Null? {
      var m := Member(c.key, Merged(Lookup(ms, c.key, cs), c.value, cs));
      ClassAppend(Without(ms, c.key, cs), m, c.key, cs);
      ClassAppend(Without(ms, c.key, cs), m, x, cs);
    }
  }

  lemma {:induction false} MergedOthers(t: seq<Member>, p: seq<Member>, x: Text, cs: bool)
    requires forall i :: 0 <= i < |p| ==> Compare(p[i].key, x, cs, 0) != 0
    ensures Class(MergedMembers(t, p, cs), x, cs) == Class(t, x, cs)
    decreases |p|
  {
    if p != [] {
      MemberClass(t, p[0], x, cs);
      MergedOthers(MergedMember(t, p[0], cs), p[1..], x, cs);
    }
  }

  lemma {:induction false} MergedClass(t: seq<Member>, p: seq<Member>, i: nat, cs: bool)
    requires Siblings(p, cs) && i < |p|
    ensures Class(MergedMembers(t, p, cs), p[i].key, cs) == Replaced(Class(t, p[i].key, cs), p[i], cs)
    decreases |p|
  {
    MemberClass(t, p[0], p[i].key, cs);
    if i == 0 {
      forall j | 0 <= j < |p[1..]| ensures Compare(p[1..][j].key, p[0].key, cs, 0) != 0 {
        CompareFlips(p[0].key, p[j + 1].key, cs, 0);
      }
      MergedOthers(MergedMember(t, p[0], cs), p[1..], p[0].key, cs);
    } else {
      assert p[1..][i - 1] == p[i];
      MergedClass(MergedMember(t, p[0], cs), p[1..], i - 1, cs);
    }
  }

  lemma {:induction false} ClassHolds(ms: seq<Member>, k: Text, x: Text, cs: bool)
    requires Compare(k, x, cs, 0) == 0
    ensures Get(MapOf(ms), x) == Get(MapOf(Class(ms, k, cs)), x)
    decreases |ms|
  {
    if ms != [] {
      ClassHolds(ms[1..], k, x, cs);
      if Compare(k, ms[0].key, cs, 0) == 0 {
        assert ([ms[0]] + Class(ms[1..], k, cs))[1..] == Class(ms[1..], k, cs);
      }
    }
  }

  lemma {:induction false} ClassKeys(ms: seq<Member>, k: Text, x: Text, cs: bool)
    requires x in MapOf(Class(ms, k, cs))
    ensures x in MapOf(ms) && Compare(k, x, cs, 0) == 0
    decreases |ms|
  {
    if Compare(k, ms[0].key, cs, 0) == 0 {
      assert ([ms[0]] + Class(ms[1..], k, cs))[1..] == Class(ms[1..], k, cs);
      if x != ms[0].key {
        ClassKeys(ms[1..], k, x, cs);
      }
    } else {
      ClassKeys(ms[1..], k, x, cs);
    }
  }

  lemma {:induction false} ClassUnique(ms: seq<Member>, k: Text, cs: bool)
    requires UniqueMembers(ms)
    ensures UniqueMembers(Class(ms, k, cs))
    decreases |ms|
  {
    if ms != [] {
      ClassUnique(ms[1..], k, cs);
      if Compare(k, ms[0].key, cs, 0) == 0 {
        var r := Class(ms[1..], k, cs);
        assert ([ms[0]] + r)[1..] == r;
        if ms[0].key in MapOf(r) {
          ClassKeys(ms[1..], k, ms[0].key, cs);
        }
      }
    }
  }

  lemma {:induction false} AppendedAt(s: seq<Member>, m: Member, x: Text)
    ensures Get(MapOf(s + [m]), x) ==
            if x in MapOf(s) then Get(MapOf(s), x) else if x == m.key then Some(Mean(m.value)) else None
    decreases |s|
  {
    if s == [] {
      assert s + [m] == [m] && [m][1..] == [];
    } else {
      AppendedAt(s[1..], m, x);
      assert (s + [m])[1..] == s[1..] + [m];
    }
  }

  /** What the standard wants at key x, where only c may be about it. */
  function Wanted(t: map<Text, Value>, c: Member, x: Text): Option<Value> {
    if x != c.key then Get(t, x) else if c.value.Null? then None else Some(Patched(Get(t, x), Mean(c.value)))
  }

  /** Among the keys that count as c's, the outcome is the standard's. */
  ghost predicate Served(t: seq<Member>, c: Member, cs: bool) {
    forall x :: Compare(c.key, x, cs, 0) == 0 ==>
      Get(MapOf(Replaced(Class(t, c.key, cs), c, cs)), x) == Wanted(MapOf(t), c, x)
  }

  /** The class of c after c, key by key: the first member of the class is gone, c's key holds the merged value. */
  lemma ReplacedAt(t: seq<Member>, c: Member, x: Text, cs: bool)
    requires UniqueMembers(t) && Compare(c.key, x, cs, 0) == 0
    ensures var k := Class(t, c.key, cs);
            Get(MapOf(Replaced(k, c, cs)), x) ==
            if (k == [] || k[0].key != x) && x in MapOf(t) then Get(MapOf(t), x)
            else if x == c.key && !c.value.Null? then Some(Mean(Merged(HeadValue(k), c.value, cs)))
            else None
  {
    var k := Class(t, c.key, cs);
    ClassHolds(t, c.key, x, cs);
    ClassUnique(t, c.key, cs);
    if c.value.Null? {
      assert Replaced(k, c, cs) == Tail(k);
    } else {
      AppendedAt(Tail(k), Member(c.key, Merged(HeadValue(k), c.value, cs)), x);
    }
  }

  /** One patch member does what the standard says exactly when it is aimed. */
  lemma MemberExactly(t: seq<Member>, c: Member, cs: bool)
    requires UniqueMembers(t)
    requires !c.value.Null? ==>
               var was := Lookup(t, c.key, cs);
               (Mean(Merged(was, c.value, cs)) == Patched(MeanOption(was), Mean(c.value)) <==> Aimed(was, c.value, cs))
    ensures Served(t, c, cs) <==> AimedMember(t, c, cs)
  {
    var k := Class(t, c.key, cs);
    LookupClass(t, c.key, cs);
    CompareSelf(c.key, cs, 0);
    ReplacedAt(t, c, c.key, cs);
    ClassHolds(t, c.key, c.key, cs);
    if k != [] {
      FirstOfClass(t, c.key, cs);
      if k[0].key != c.key {
        ReplacedAt(t, c, k[0].key, cs);
      }
    }
    if AimedMember(t, c, cs) {
      forall x | Compare(c.key, x, cs, 0) == 0 ensures Get(MapOf(Replaced(k, c, cs)), x) == Wanted(MapOf(t), c, x) {
        ReplacedAt(t, c, x, cs);
      }
    }
  }

  lemma {:induction false} FirstOfClass(t: seq<Member>, k: Text, cs: bool)
    requires Class(t, k, cs) != []
    ensures var m := Class(t, k, cs)[0];
            Compare(k, m.key, cs, 0) == 0 && m in t && m.key in MapOf(t)
    ensures UniqueMembers(t) ==> Get(MapOf(t), Class(t, k, cs)[0].key) == Some(Mean(Class(t, k, cs)[0].value))
    decreases |t|
  {
    if Compare(k, t[0].key, cs, 0) != 0 {
      FirstOfClass(t[1..], k, cs);
    }
  }

  /** The standard's outcome at the keys that count as a patch member's. */
  lemma {:induction false} PatchAt(p: seq<Member>, x: Text)
    ensures x in MapOf(p) ==> exists i :: 0 <= i < |p| && p[i].key == x && MapOf(p)[x] == Mean(p[i].value)
    ensures forall i :: 0 <= i < |p| ==> p[i].key in MapOf(p)
    decreases |p|
  {
    if p != [] {
      PatchAt(p[1..], x);
      if x in MapOf(p) && x != p[0].key {
        var i :| 0 <= i < |p[1..]| && p[1..][i].key == x && MapOf(p[1..])[x] == Mean(p[1..][i].value);
        assert p[i + 1].key == x;
      }
      forall i | 0 <= i < |p| ensures p[i].key in MapOf(p) {
        assert i > 0 ==> p[i] == p[1..][i - 1];
      }
    }
  }

  lemma PatchWants(t: map<Text, Value>, p: seq<Member>, i: nat, x: Text, cs: bool)
    requires Siblings(p, cs) && i < |p| && Compare(p[i].key, x, cs, 0) == 0
    ensures Get(PatchedFields(t, VObject(MapOf(p))), x) == Wanted(t, p[i], x)
  {
    PatchAt(p, x);
    if x in MapOf(p) {
      var j :| 0 <= j < |p| && p[j].key == x && MapOf(p)[x] == Mean(p[j].value);
      CompareFlips(p[i].key, p[j].key, cs, 0);
    }
  }

  /** The merged members and the standard's, at one key. */
  lemma MergedAt(t: seq<Member>, p: seq<Member>, i: nat, x: Text, cs: bool)
    requires Siblings(p, cs) && i < |p| && Compare(p[i].key, x, cs, 0) == 0
    ensures Get(MapOf(MergedMembers(t, p, cs)), x) == Get(MapOf(Replaced(Class(t, p[i].key, cs), p[i], cs)), x)
  {
    MergedClass(t, p, i, cs);
    ClassHolds(MergedMembers(t, p, cs), p[i].key, x, cs);
  }

  lemma UntouchedAt(t: seq<Member>, p: seq<Member>, x: Text, cs: bool)
    requires forall i :: 0 <= i < |p| ==> Compare(p[i].key, x, cs, 0) != 0
    ensures Get(MapOf(MergedMembers(t, p, cs)), x) == Get(PatchedFields(MapOf(t), VObject(MapOf(p))), x)
  {
    CompareSelf(x, cs, 0);
    MergedOthers(t, p, x, cs);
    ClassHolds(MergedMembers(t, p, cs), x, x, cs);
    ClassHolds(t, x, x, cs);
    PatchAt(p, x);
  }

  /** The merged object is the standard's exactly when every patch member is served. */
  lemma AllServed(t: seq<Member>, p: seq<Member>, cs: bool)
    requires Siblings(p, cs)
    ensures MapOf(MergedMembers(t, p, cs)) == PatchedFields(MapOf(t), VObject(MapOf(p))) <==>
            forall i :: 0 <= i < |p| ==> Served(t, p[i], cs)
  {
    var r, w := MapOf(MergedMembers(t, p, cs)), PatchedFields(MapOf(t), VObject(MapOf(p)));
    if r == w {
      forall i, x | 0 <= i < |p| && Compare(p[i].key, x, cs, 0) == 0
        ensures Get(MapOf(Replaced(Class(t, p[i].key, cs), p[i], cs)), x) == Wanted(MapOf(t), p[i], x)
      {
        MergedAt(t, p, i, x, cs);
        PatchWants(MapOf(t), p, i, x, cs);
      }
    }
    if forall i :: 0 <= i < |p| ==> Served(t, p[i], cs) {
      forall x ensures Get(r, x) == Get(w, x) {
        if i :| 0 <= i < |p| && Compare(p[i].key, x, cs, 0) == 0 {
          assert Served(t, p[i], cs);
          MergedAt(t, p, i, x, cs);
          PatchWants(MapOf(t), p, i, x, cs);
        } else {
          UntouchedAt(t, p, x, cs);
        }
      }
      SameMap(r, w);
    }
  }

  lemma SameMap(a: map<Text, Value>, b: map<Text, Value>)
    requires forall x :: Get(a, x) == Get(b, x)
    ensures a == b
  {
    forall x ensures x in a <==> x in b {
      assert Get(a, x) == Get(b, x);
    }
    forall x | x in a ensures a[x] == b[x] {
      assert Get(a, x) == Get(b, x);
    }
  }

  /** For targets whose objects have distinct keys and patches whose siblings are told apart, merge_patch does what the
      standard says exactly when every patch member is aimed. */
  lemma {:induction false} MergeExactly(t: Option<Json>, p: Json, cs: bool)
    requires (t.Some? ==> Unique(t.value)) && Separate(p, cs)
    ensures Mean(Merged(t, p, cs)) == Patched(MeanOption(t), Mean(p)) <==> Aimed(t, p, cs)
    decreases p
  {
    if p.Object? {
      var ms := MembersOf(t);
      forall i | 0 <= i < |p.members| ensures Served(ms, p.members[i], cs) <==> AimedMember(ms, p.members[i], cs) {
        var c := p.members[i];
        if !c.value.Null? {
          LookupClass(ms, c.key, cs);
          if Class(ms, c.key, cs) != [] {
            FirstOfClass(ms, c.key, cs);
          }
          MergeExactly(Lookup(ms, c.key, cs), c.value, cs);
        }
        MemberExactly(ms, c, cs);
      }
      AllServed(ms, p.members, cs);
    }
  }

  /** The default mode misses: patching {"a": 1} with {"A": 2} takes "a" away, which the standard leaves alone. */
  lemma CaseHit(a: Text, A: Text)
    requires a == ['a' as byte] && A == ['A' as byte]
    ensures var t, p := Object([Member(a, Number(1))]), Object([Member(A, Number(2))]);
            && Merged(Some(t), p, false) == p
            && Patched(Some(Mean(t)), Mean(p)) == VObject(map[a := VNumber(1), A := VNumber(2)]) != Mean(p)
  {
    var t, p := [Member(a, Number(1))], [Member(A, Number(2))];
    assert Compare(A, a, false, 1) == 0 && Compare(A, a, false, 0) == 0;
    assert MergedMember(t, p[0], false) == p && p[1..] == [] && t[1..] == [];
    assert MergedMembers(t, p, false) == MergedMembers(p, [], false);
    assert MapOf(t) == map[a := VNumber(1)] && MapOf(p) == map[A := VNumber(2)];
    assert PatchedFields(MapOf(t), VObject(MapOf(p))) == map[a := VNumber(1), A := VNumber(2)];
    assert a !in MapOf(p);
  }

  // ---------------------------------------------------------------- the difference of two values

  /** The members to patch: those on one side only, and those that differ. */
  function Delta(f: Value, t: Value): Value
    decreases t
  {
    if f.VObject? && t.VObject? then
      VObject(map k | k in f.members.Keys + t.members.Keys && Get(f.members, k) != Get(t.members, k) ::
        if k !in t.members then VNull
        else if k !in f.members then t.members[k]
        else Delta(f.members[k], t.members[k]))
    else t
  }

  /** No object on the way down has a null member; array elements do not matter. */
  ghost predicate NoNulls(v: Value) {
    v.VObject? ==> forall k <- v.members :: !v.members[k].VNull? && NoNulls(v.members[k])
  }

  /** When a merge patch can turn f into t: no null member of t is new, changed or inside something new. */
  ghost predicate Recoverable(f: Value, t: Value)
    decreases t
  {
    if !t.VObject? then true
    else if !f.VObject? then NoNulls(t)
    else forall k <- t.members ::
      || Get(f.members, k) == Some(t.members[k])
      || (!t.members[k].VNull?
          && if k in f.members then Recoverable(f.members[k], t.members[k]) else NoNulls(t.members[k]))
  }

  /** A value patched into nothing comes out whole exactly when it has no nulls to lose. */
  lemma {:induction false} PatchedIntoNothing(o: Option<Value>, v: Value)
    requires Fields(o) == map[]
    ensures Patched(o, v) == v <==> NoNulls(v)
    decreases v
  {
    if v.VObject? {
      var r := PatchedFields(map[], v);
      forall k | k in v.members && !v.members[k].VNull?
        ensures k in r && (r[k] == v.members[k] <==> NoNulls(v.members[k]))
      {
        PatchedIntoNothing(None, v.members[k]);
      }
      if NoNulls(v) {
        assert r == v.members;
      }
    }
  }

  /** A member of both that differs. */
  lemma DeltaOfMember(f: Value, t: Value, k: Text)
    requires f.VObject? && t.VObject? && k in f.members && k in t.members && f.members[k] != t.members[k]
    ensures Delta(f, t).members[k] == Delta(f.members[k], t.members[k])
    ensures Delta(f, t).members[k].VNull? <==> t.members[k].VNull?
  {
  }

  /** What becomes of one member on the way from f to t. */
  lemma {:induction false} MemberThereAndBack(f: Value, t: Value, k: Text)
    requires f.VObject? && t.VObject?
    ensures k !in t.members ==> k !in PatchedFields(f.members, Delta(f, t))
    ensures k in t.members ==>
              (Get(PatchedFields(f.members, Delta(f, t)), k) == Some(t.members[k]) <==>
               || Get(f.members, k) == Some(t.members[k])
               || (!t.members[k].VNull?
                   && if k in f.members then Recoverable(f.members[k], t.members[k]) else NoNulls(t.members[k])))
    decreases t, 0
  {
    if k in t.members && Get(f.members, k) != Some(t.members[k]) && !t.members[k].VNull? {
      if k in f.members {
        DeltaOfMember(f, t, k);
        ThereAndBack(f.members[k], t.members[k]);
      } else {
        PatchedIntoNothing(None, t.members[k]);
      }
    }
  }

  /** Patching with the difference arrives exactly when it is recoverable. */
  lemma {:induction false} ThereAndBack(f: Value, t: Value)
    ensures Patched(Some(f), Delta(f, t)) == t <==> Recoverable(f, t)
    decreases t, 1
  {
    if f.VObject? && t.VObject? {
      var r := PatchedFields(f.members, Delta(f, t));
      forall k ensures k !in t.members ==> k !in r {
        MemberThereAndBack(f, t, k);
      }
      forall k | k in t.members
        ensures Get(r, k) == Some(t.members[k]) <==>
                || Get(f.members, k) == Some(t.members[k])
                || (!t.members[k].VNull?
                    && if k in f.members then Recoverable(f.members[k], t.members[k]) else NoNulls(t.members[k]))
      {
        MemberThereAndBack(f, t, k);
      }
      if Recoverable(f, t) {
        assert r == t.members;
      }
    } else if t.VObject? {
      PatchedIntoNothing(Some(f), t);
    }
  }

  /** A target without null members can always be reached. */
  lemma {:induction false} NoNullsRecoverable(f: Value, t: Value)
    requires NoNulls(t)
    ensures Recoverable(f, t)
    decreases t
  {
    if f.VObject? && t.VObject? {
      forall k | k in t.members && k in f.members ensures Recoverable(f.members[k], t.members[k]) {
        NoNullsRecoverable(f.members[k], t.members[k]);
      }
    }
  }

  // ---------------------------------------------------------------- generate_merge_patch

  /** strcmp of the two cursors' keys; an exhausted list is behind every key. */
  function Ahead(f: seq<Member>, t: seq<Member>): int {
    if f == [] then 1 else if t == [] then -1 else Compare(f[0].key, t[0].key, true, 0)
  }

  /** The patch member, if any, for a key in both. */
  function Changed(f: Member, t: Member, cs: bool): seq<Member>
    decreases Size(f.value) + Size(t.value), 2
  {
    if CompareJson(f.value, t.value, cs) then []
    else
      var p := Generated(f.value, t.value, false);
      if p.Some? then [Member(t.key, p.value)] else []
  }

  /** The walk over the two sorted member lists. */
  function Walk(f: seq<Member>, t: seq<Member>, cs: bool): seq<Member>
    decreases SizeMembers(f) + SizeMembers(t), 3
  {
    if f == [] && t == [] then []
    else
      var diff := Ahead(f, t);
      if diff < 0 then [Member(f[0].key, Null)] + Walk(f[1..], t, cs)
      else if diff > 0 then [t[0]] + Walk(f, t[1..], cs)
      else Changed(f[0], t[0], cs) + Walk(f[1..], t[1..], cs)
  }

  /** What generate_merge_patch returns for two documents; None is its NULL, for no difference. */
  function Generated(from: Json, to: Json, cs: bool): Option<Json>
    decreases Size(from) + Size(to), 1
  {
    if !to.Object? || !from.Object? then Some(to)
    else
      var patch := Walk(Arrange(from.members, cs), Arrange(to.members, cs), cs);
      if patch == [] then None else Some(Object(patch))
  }

  /** One turn of the walk: what it adds to the patch, and where the cursors go. */
  lemma WalkStep(patch: seq<Member>, f: seq<Member>, t: seq<Member>, cs: bool)
    requires f != [] || t != []
    ensures patch + Walk(f, t, cs) ==
            if Ahead(f, t) < 0 then (patch + [Member(f[0].key, Null)]) + Walk(f[1..], t, cs)
            else if Ahead(f, t) > 0 then (patch + [t[0]]) + Walk(f, t[1..], cs)
            else (patch + Changed(f[0], t[0], cs)) + Walk(f[1..], t[1..], cs)
  {
    if Ahead(f, t) < 0 {
      Regrouped(patch, [Member(f[0].key, Null)], Walk(f[1..], t, cs));
    } else if Ahead(f, t) > 0 {
      Regrouped(patch, [t[0]], Walk(f, t[1..], cs));
    } else {
      Regrouped(patch, Changed(f[0], t[0], cs), Walk(f[1..], t[1..], cs));
    }
  }

  lemma Regrouped(a: seq<Member>, b: seq<Member>, c: seq<Member>)
    ensures a + (b + c) == (a + b) + c
  {
  }

  method GenerateMember(f: Member, t: Member, cs: bool) returns (r: seq<Member>)
    ensures r == Changed(f, t, cs)
    decreases Size(f.value) + Size(t.value), 2
  {
    r := [];
    if !CompareJson(f.value, t.value, cs) {
      var p := Generate(Some(f.value), Some(t.value), false);
      if p.Some? {
        r := [Member(t.key, p.value)];
      }
    }
  }

  function SizeOption(j: Option<Json>): nat { if j.Some? then Size(j.value) else 0 }

  /** generate_merge_patch; a missing document is a NULL argument. */
  method Generate(from: Option<Json>, to: Option<Json>, cs: bool) returns (r: Option<Json>)
    ensures to.None? ==> r == Some(Null)
    ensures from.None? && to.Some? ==> r == to
    ensures from.Some? && to.Some? ==> r == Generated(from.value, to.value, cs)
    decreases SizeOption(from) + SizeOption(to), 1
  {
    if to.None? {
      return Some(Null);
    }
    if !to.value.Object? || from.None? || !from.value.Object? {
      return to;
    }
    var f, t := Arrange(from.value.members, cs), Arrange(to.value.members, cs);
    ghost var whole := Walk(f, t, cs);
    var patch: seq<Member> := [];
    while f != [] || t != []
      invariant patch + Walk(f, t, cs) == whole
      invariant SizeMembers(f) < SizeOption(from) && SizeMembers(t) < SizeOption(to)
      decreases |f| + |t|
    {
      WalkStep(patch, f, t, cs);
      var diff := Ahead(f, t);
      if diff < 0 {
        patch, f := patch + [Member(f[0].key, Null)], f[1..];
      } else if diff > 0 {
        patch, t := patch + [t[0]], t[1..];
      } else {
        var change := GenerateMember(f[0], t[0], cs);
        patch, f, t := patch + change, f[1..], t[1..];
      }
    }
    assert patch == whole;
    return if patch == [] then None else Some(Object(patch));
  }

  // ---------------------------------------------------------------- from one document to another

  /** The delta of two member maps. */
  function DeltaFields(f: map<Text, Value>, t: map<Text, Value>): map<Text, Value> {
    Delta(VObject(f), VObject(t)).members
  }

  lemma DeltaDropped(f: map<Text, Value>, t: map<Text, Value>, k: Text, v: Value)
    requires k !in f && k !in t
    ensures DeltaFields(f[k := v], t) == DeltaFields(f, t)[k := VNull]
  {
  }

  lemma DeltaAdded(f: map<Text, Value>, t: map<Text, Value>, k: Text, v: Value)
    requires k !in f && k !in t
    ensures DeltaFields(f, t[k := v]) == DeltaFields(f, t)[k := v]
  {
  }

  lemma DeltaBoth(f: map<Text, Value>, t: map<Text, Value>, k: Text, v: Value, w: Value)
    requires k !in f && k !in t
    ensures DeltaFields(f[k := v], t[k := w]) ==
            if v == w then DeltaFields(f, t) else DeltaFields(f, t)[k := Delta(v, w)]
  {
  }

  lemma DeltaKeys(f: map<Text, Value>, t: map<Text, Value>, k: Text)
    requires k !in f && k !in t
    ensures k !in DeltaFields(f, t)
  {
  }

  /** Patches below the root are generated ignoring case, whatever the caller asks for. */
  ghost predicate Orderly(u: Universe, cs: bool) { forall p :: Told(u(p), cs && p == []) }

  lemma OrderlyAll(u: Universe, cs: bool)
    requires Orderly(u, cs)
    ensures AllTold(u, cs)
  {
    forall p ensures Told(u(p), cs) {
      assert Told(u(p), cs && p == []);
      if cs {
        SensitiveTold(u(p));
      }
    }
  }

  lemma OrderlyBehind(u: Universe, s: Step, cs: bool)
    requires Orderly(u, cs)
    ensures Orderly(Behind(u, s), false) && AllTold(Behind(u, s), true)
  {
    forall p ensures Told(Behind(u, s)(p), false) {
      assert Told(u([s] + p), cs && [s] + p == []);
    }
    forall p ensures Told(Behind(u, s)(p), true) {
      SensitiveTold(u([s] + p));
    }
  }

  /** What the walk needs of the orders, in the two documents and in the values of every key of both. */
  ghost predicate Lined(f: Json, t: Json, cs: bool)
    decreases f
  {
    f.Object? && t.Object? ==>
      && LinedUp(MapOf(f.members).Keys, MapOf(t.members).Keys, cs)
      && forall i, j :: 0 <= i < |f.members| && 0 <= j < |t.members| && f.members[i].key == t.members[j].key ==>
           Lined(f.members[i].value, t.members[j].value, false)
  }

  /** The same for two lists of members. */
  ghost predicate LinedMembers(f: seq<Member>, t: seq<Member>, cs: bool) {
    && LinedUp(MapOf(f).Keys, MapOf(t).Keys, cs)
    && forall x, y :: x in f && y in t && x.key == y.key ==> Lined(x.value, y.value, false)
  }

  lemma LinedArranged(f: seq<Member>, t: seq<Member>, u: Universe, cs: bool)
    requires GoodMembers(f, u) && GoodMembers(t, u) && Lined(Object(f), Object(t), cs)
    ensures LinedMembers(Arrange(f, cs), Arrange(t, cs), cs)
  {
    ArrangeKeeps(f, u, cs);
    ArrangeKeeps(t, u, cs);
    forall x, y | x in Arrange(f, cs) && y in Arrange(t, cs) && x.key == y.key ensures Lined(x.value, y.value, false) {
      ArrangeHas(f, cs, x);
      ArrangeHas(t, cs, y);
      var i :| 0 <= i < |f| && f[i] == x;
      var j :| 0 <= j < |t| && t[j] == y;
      assert Object(f).members[i].key == Object(t).members[j].key;
    }
  }

  lemma {:induction false} ChangedMeans(f: Member, t: Member, u: Universe, cs: bool)
    requires f.key == t.key && GoodMember(f, u) && GoodMember(t, u) && Orderly(u, cs) && Lined(f.value, t.value, false)
    ensures if Mean(f.value) == Mean(t.value) then Changed(f, t, cs) == []
            else exists p :: Changed(f, t, cs) == [Member(t.key, p)] && Good(p, Behind(u, Key(t.key)))
                             && Mean(p) == Delta(Mean(f.value), Mean(t.value))
    decreases Size(f.value) + Size(t.value), 2
  {
    OrderlyBehind(u, Key(t.key), cs);
    OrderlyAll(Behind(u, Key(t.key)), false);
    ComparesMeaning(f.value, t.value, Behind(u, Key(t.key)), cs);
    if Mean(f.value) != Mean(t.value) {
      GeneratesDelta(f.value, t.value, Behind(u, Key(t.key)), false);
    }
  }

  lemma {:induction false} KeyBelow(k: Text, s: seq<Member>, x: Text, cs: bool)
    requires Below(k, s, cs) && x in MapOf(s)
    ensures Compare(k, x, cs, 0) < 0
    decreases |s|
  {
    if s[0].key != x {
      KeyBelow(k, s[1..], x, cs);
    }
  }

  /** A cursor whose key is first in byte order stands on a key that the other list does not have. */
  lemma AheadIsAlone(f: seq<Member>, t: seq<Member>, cs: bool)
    requires f != [] && Ascending(f, cs) && Ascending(t, cs) && LinedUp(MapOf(f).Keys, MapOf(t).Keys, cs)
    requires t == [] || Order(f[0].key, t[0].key) < 0
    ensures f[0].key !in MapOf(t)
  {
    if t != [] && f[0].key in MapOf(t) {
      var a, b := f[0].key, t[0].key;
      OrderEqual(a, b);
      KeyBelow(b, t[1..], a, cs);
      CompareFlips(a, b, cs, 0);
      if b in MapOf(f) {
        KeyBelow(a, f[1..], b, cs);
      }
    }
  }

  lemma LinedUpSwaps(f: set<Text>, t: set<Text>, cs: bool)
    requires LinedUp(f, t, cs)
    ensures LinedUp(t, f, cs)
  {
  }

  lemma TailKeys(s: seq<Member>, u: Universe)
    requires s != [] && GoodMembers(s, u)
    ensures MapOf(s).Keys == MapOf(s[1..]).Keys + {s[0].key} && s[0].key !in MapOf(s[1..])
    ensures forall x :: x in s[1..] ==> x in s
  {
  }

  /** The walk over sorted lists finds the delta of the maps. */
  lemma {:induction false} WalkMeans(f: seq<Member>, t: seq<Member>, u: Universe, cs: bool)
    requires GoodMembers(f, u) && GoodMembers(t, u) && Orderly(u, cs) && Ascending(f, cs) && Ascending(t, cs)
    requires LinedMembers(f, t, cs)
    ensures GoodMembers(Walk(f, t, cs), u) && MapOf(Walk(f, t, cs)) == DeltaFields(MapOf(f), MapOf(t))
    decreases SizeMembers(f) + SizeMembers(t), 4
  {
    if f != [] || t != [] {
      var diff := Ahead(f, t);
      if diff < 0 {
        WalkDrops(f, t, u, cs);
      } else if diff > 0 {
        WalkAdds(f, t, u, cs);
      } else {
        WalkBoth(f, t, u, cs);
      }
    } else {
      assert DeltaFields(map[], map[]) == map[];
    }
  }

  lemma {:induction false} WalkDrops(f: seq<Member>, t: seq<Member>, u: Universe, cs: bool)
    requires f != [] && Ahead(f, t) < 0 && LinedMembers(f, t, cs)
    requires GoodMembers(f, u) && GoodMembers(t, u) && Orderly(u, cs) && Ascending(f, cs) && Ascending(t, cs)
    ensures GoodMembers(Walk(f, t, cs), u) && MapOf(Walk(f, t, cs)) == DeltaFields(MapOf(f), MapOf(t))
    decreases SizeMembers(f) + SizeMembers(t), 3
  {
    var k := f[0].key;
    AheadIsAlone(f, t, cs);
    TailKeys(f, u);
    WalkMeans(f[1..], t, u, cs);
    DeltaKeys(MapOf(f[1..]), MapOf(t), k);
    Cons(Member(k, Null), Walk(f[1..], t, cs), u);
    DeltaDropped(MapOf(f[1..]), MapOf(t), k, Mean(f[0].value));
  }

  lemma {:induction false} WalkAdds(f: seq<Member>, t: seq<Member>, u: Universe, cs: bool)
    requires t != [] && Ahead(f, t) > 0 && LinedMembers(f, t, cs)
    requires GoodMembers(f, u) && GoodMembers(t, u) && Orderly(u, cs) && Ascending(f, cs) && Ascending(t, cs)
    ensures GoodMembers(Walk(f, t, cs), u) && MapOf(Walk(f, t, cs)) == DeltaFields(MapOf(f), MapOf(t))
    decreases SizeMembers(f) + SizeMembers(t), 3
  {
    var k := t[0].key;
    if f != [] {
      OrderEqual(f[0].key, k);
    }
    LinedUpSwaps(MapOf(f).Keys, MapOf(t).Keys, cs);
    AheadIsAlone(t, f, cs);
    TailKeys(t, u);
    WalkMeans(f, t[1..], u, cs);
    DeltaKeys(MapOf(f), MapOf(t[1..]), k);
    Cons(t[0], Walk(f, t[1..], cs), u);
    DeltaAdded(MapOf(f), MapOf(t[1..]), k, Mean(t[0].value));
  }

  lemma {:induction false} WalkBoth(f: seq<Member>, t: seq<Member>, u: Universe, cs: bool)
    requires f != [] && t != [] && Ahead(f, t) == 0 && LinedMembers(f, t, cs)
    requires GoodMembers(f, u) && GoodMembers(t, u) && Orderly(u, cs) && Ascending(f, cs) && Ascending(t, cs)
    ensures GoodMembers(Walk(f, t, cs), u) && MapOf(Walk(f, t, cs)) == DeltaFields(MapOf(f), MapOf(t))
    decreases SizeMembers(f) + SizeMembers(t), 3
  {
    var k := t[0].key;
    OrderEqual(f[0].key, k);
    TailKeys(f, u);
    TailKeys(t, u);
    assert Lined(f[0].value, t[0].value, false);
    WalkMeans(f[1..], t[1..], u, cs);
    ChangedMeans(f[0], t[0], u, cs);
    DeltaKeys(MapOf(f[1..]), MapOf(t[1..]), k);
    DeltaBoth(MapOf(f[1..]), MapOf(t[1..]), k, Mean(f[0].value), Mean(t[0].value));
    var rest := Walk(f[1..], t[1..], cs);
    assert Walk(f, t, cs) == Changed(f[0], t[0], cs) + rest;
    if Mean(f[0].value) != Mean(t[0].value) {
      var p :| Changed(f[0], t[0], cs) == [Member(k, p)] && Good(p, Behind(u, Key(k)))
               && Mean(p) == Delta(Mean(f[0].value), Mean(t[0].value));
      Cons(Member(k, p), rest, u);
    } else {
      assert Changed(f[0], t[0], cs) + rest == rest;
    }
  }

  /** generate_merge_patch finds the delta, and NULL exactly for two objects that mean the same. */
  lemma {:induction false} GeneratesDelta(from: Json, to: Json, u: Universe, cs: bool)
    requires Good(from, u) && Good(to, u) && Orderly(u, cs) && Lined(from, to, cs)
    ensures Generated(from, to, cs).None? <==> from.Object? && to.Object? && Mean(from) == Mean(to)
    ensures Generated(from, to, cs).Some? ==>
              Good(Generated(from, to, cs).value, u)
              && Mean(Generated(from, to, cs).value) == Delta(Mean(from), Mean(to))
    decreases Size(from) + Size(to), 1
  {
    if from.Object? && to.Object? {
      OrderlyAll(u, cs);
      ArrangeKeeps(from.members, u, cs);
      ArrangeKeeps(to.members, u, cs);
      ArrangeAscends(from.members, u, cs);
      ArrangeAscends(to.members, u, cs);
      LinedArranged(from.members, to.members, u, cs);
      var f, t := Arrange(from.members, cs), Arrange(to.members, cs);
      WalkMeans(f, t, u, cs);
      NullExactly(from, to, u, cs);
    }
  }

  lemma EmptyMap(s: seq<Member>)
    ensures MapOf(s) == map[] <==> s == []
  {
    if s != [] {
      assert s[0].key in MapOf(s);
    }
  }

  /** At every place keys of the two documents that count as equal are equal. Case counts at the root only, and only
      when it is asked for. */
  ghost predicate Apart(from: Json, to: Json, cs: bool) {
    forall p :: Told(KeysAt(from, p) + KeysAt(to, p), cs && p == [])
  }

  lemma ApartGood(from: Json, to: Json, cs: bool)
    requires Unique(from) && Unique(to) && Apart(from, to, cs)
    ensures var u := Both(from, to);
            Good(from, u) && Good(to, u) && Orderly(u, cs) && AllTold(u, cs)
  {
    var u := Both(from, to);
    UniqueGood(from, u);
    UniqueGood(to, u);
    forall p ensures Told(u(p), cs && p == []) {
      assert Told(KeysAt(from, p) + KeysAt(to, p), cs && p == []);
    }
    OrderlyAll(u, cs);
  }

  /** Where the orders are lined up, merging the generated patch into the first document gives the second exactly when
      it is recoverable. */
  lemma RoundTrip(from: Json, to: Json, cs: bool)
    requires Unique(from) && Unique(to) && Apart(from, to, cs) && Lined(from, to, cs) && Generated(from, to, cs).Some?
    ensures CompareJson(Merged(Some(from), Generated(from, to, cs).value, cs), to, cs) <==>
            Recoverable(Mean(from), Mean(to))
  {
    var u, p := Both(from, to), Generated(from, to, cs).value;
    ApartGood(from, to, cs);
    GeneratesDelta(from, to, u, cs);
    MergeMeans(Some(from), p, u, cs);
    ThereAndBack(Mean(from), Mean(to));
    ComparesMeaning(Merged(Some(from), p, cs), to, u, cs);
  }

  // ---------------------------------------------------------------- exactly when the second document comes back

  /** Which cursor goes past key k first: the first document's (negative), the second's (positive), or both at once. */
  function Passing(f: seq<Member>, t: seq<Member>, k: Text): int
    decreases |f| + |t|
  {
    if f == [] && t == [] then 0
    else
      var diff := Ahead(f, t);
      if diff < 0 then if f[0].key == k then -1 else Passing(f[1..], t, k)
      else if diff > 0 then if t[0].key == k then 1 else Passing(f, t[1..], k)
      else if f[0].key == k then 0 else Passing(f[1..], t[1..], k)
  }

  /** What can be set anew: it is not null and has no null members. */
  ghost predicate Settable(v: Value) { !v.VNull? && NoNulls(v) }

  /** The second document comes back when every one of its members does. */
  ghost predicate Returns(from: Json, to: Json, cs: bool)
    decreases from, 1
  {
    if !to.Object? then true
    else if !from.Object? then NoNulls(Mean(to))
    else forall m <- to.members ::
      MemberReturns(from.members, m, Passing(Arrange(from.members, cs), Arrange(to.members, cs), m.key))
  }

  /** A member that is new, or passed in the first document first, is set anew. Any other must be passed in both at
      once, and then it is kept or its value comes back. */
  ghost predicate MemberReturns(f: seq<Member>, m: Member, passing: int)
    decreases f, 0
  {
    if m.key !in MapOf(f) || passing < 0 then Settable(Mean(m.value))
    else passing == 0 && forall i :: 0 <= i < |f| && f[i].key == m.key ==>
      || Mean(f[i].value) == Mean(m.value)
      || (!m.value.Null? && Returns(f[i].value, m.value, false))
  }

  /** A key holding o, after a patch sets it to v. */
  function Put(o: Option<Value>, v: Json): Option<Value> { if v.Null? then None else Some(Applied(o, v)) }

  function PutChanged(o: Option<Value>, f: Member, t: Member, cs: bool): Option<Value> {
    var c := Changed(f, t, cs);
    if c == [] then o else Put(o, c[0].value)
  }

  /** What a key holding o holds after the walk's patch. */
  function Walked(o: Option<Value>, f: seq<Member>, t: seq<Member>, k: Text, cs: bool): Option<Value> {
    var x, y := ValueAt(f, k), ValueAt(t, k);
    if y.None? then if x.None? then o else None
    else if x.None? then Put(o, y.value)
    else if Passing(f, t, k) < 0 then Put(None, y.value)
    else if Passing(f, t, k) > 0 then None
    else PutChanged(o, Member(k, x.value), Member(k, y.value), cs)
  }

  lemma AppliedCons(s: map<Text, Value>, c: Member, p: seq<Member>)
    ensures AppliedMembers(s, [c] + p) == AppliedMembers(AppliedMember(s, c), p)
  {
    assert ([c] + p)[1..] == p;
  }

  lemma {:induction false} ValueFound(ms: seq<Member>, k: Text)
    ensures ValueAt(ms, k).Some? <==> k in MapOf(ms)
    ensures ValueAt(ms, k).Some? ==> Member(k, ValueAt(ms, k).value) in ms && MapOf(ms)[k] == Mean(ValueAt(ms, k).value)
    decreases |ms|
  {
    if ms != [] && ms[0].key != k {
      ValueFound(ms[1..], k);
    }
  }

  lemma WalkedDrops(o: Option<Value>, f: seq<Member>, t: seq<Member>, k: Text, cs: bool)
    requires f != [] && UniqueMembers(f) && Ahead(f, t) < 0
    ensures Walked(o, f, t, k, cs) == Walked(if k == f[0].key then None else o, f[1..], t, k, cs)
  {
    ValueFound(f[1..], k);
  }

  lemma WalkedAdds(o: Option<Value>, f: seq<Member>, t: seq<Member>, k: Text, cs: bool)
    requires t != [] && UniqueMembers(t) && Ahead(f, t) > 0
    ensures Walked(o, f, t, k, cs) == Walked(if k == t[0].key then Put(o, t[0].value) else o, f, t[1..], k, cs)
  {
    ValueFound(t[1..], k);
  }

  lemma WalkedBoth(o: Option<Value>, f: seq<Member>, t: seq<Member>, k: Text, cs: bool)
    requires f != [] && t != [] && UniqueMembers(f) && UniqueMembers(t) && Ahead(f, t) == 0
    ensures Walked(o, f, t, k, cs) ==
            Walked(if k == t[0].key then PutChanged(o, f[0], t[0], cs) else o, f[1..], t[1..], k, cs)
  {
    OrderEqual(f[0].key, t[0].key);
    ValueFound(f[1..], k);
    ValueFound(t[1..], k);
  }

  lemma SetAt(s: map<Text, Value>, c: Member, k: Text)
    ensures Get(AppliedMember(s, c), k) == if k == c.key then Put(Get(s, k), c.value) else Get(s, k)
  {
  }

  /** The walk's patch, one key at a time. */
  lemma {:induction false} WalkApplies(s: map<Text, Value>, f: seq<Member>, t: seq<Member>, k: Text, cs: bool)
    requires UniqueMembers(f) && UniqueMembers(t)
    ensures Get(AppliedMembers(s, Walk(f, t, cs)), k) == Walked(Get(s, k), f, t, k, cs)
    decreases |f| + |t|
  {
    if f != [] || t != [] {
      var diff := Ahead(f, t);
      if diff < 0 {
        var c := Member(f[0].key, Null);
        WalkedDrops(Get(s, k), f, t, k, cs);
        SetAt(s, c, k);
        AppliedCons(s, c, Walk(f[1..], t, cs));
        WalkApplies(AppliedMember(s, c), f[1..], t, k, cs);
      } else if diff > 0 {
        WalkedAdds(Get(s, k), f, t, k, cs);
        SetAt(s, t[0], k);
        AppliedCons(s, t[0], Walk(f, t[1..], cs));
        WalkApplies(AppliedMember(s, t[0]), f, t[1..], k, cs);
      } else {
        WalkedBoth(Get(s, k), f, t, k, cs);
        ChangeApplies(s, f, t, k, cs);
      }
    }
  }

  lemma {:induction false} ChangeApplies(s: map<Text, Value>, f: seq<Member>, t: seq<Member>, k: Text, cs: bool)
    requires f != [] && t != [] && UniqueMembers(f) && UniqueMembers(t) && Ahead(f, t) == 0
    ensures Get(AppliedMembers(s, Walk(f, t, cs)), k) ==
            Walked(if k == t[0].key then PutChanged(Get(s, k), f[0], t[0], cs) else Get(s, k), f[1..], t[1..], k, cs)
    decreases |f| + |t|, 0
  {
    var c, rest := Changed(f[0], t[0], cs), Walk(f[1..], t[1..], cs);
    assert Walk(f, t, cs) == c + rest;
    if c == [] {
      assert c + rest == rest;
      WalkApplies(s, f[1..], t[1..], k, cs);
    } else {
      assert c == [c[0]] && c[0].key == t[0].key;
      AppliedCons(s, c[0], rest);
      SetAt(s, c[0], k);
      WalkApplies(AppliedMember(s, c[0]), f[1..], t[1..], k, cs);
    }
  }

  // What is generated stays within the documents' keys.

  lemma {:induction false} ChangedFits(f: Member, t: Member, u: Universe, cs: bool)
    requires f.key == t.key && GoodMember(f, u) && GoodMember(t, u)
    ensures FitMembers(Changed(f, t, cs), u)
    decreases Size(f.value) + Size(t.value), 2
  {
    GeneratedFits(f.value, t.value, Behind(u, Key(t.key)), false);
    var c := Changed(f, t, cs);
    if c != [] {
      var p := Generated(f.value, t.value, false).value;
      FitCons(Member(t.key, p), [], u);
      assert c == [Member(t.key, p)] + [];
    }
  }

  lemma {:induction false} WalkFits(f: seq<Member>, t: seq<Member>, u: Universe, cs: bool)
    requires GoodMembers(f, u) && GoodMembers(t, u)
    ensures FitMembers(Walk(f, t, cs), u)
    decreases SizeMembers(f) + SizeMembers(t), 3
  {
    if f != [] || t != [] {
      var diff := Ahead(f, t);
      if diff < 0 {
        WalkFits(f[1..], t, u, cs);
        FitCons(Member(f[0].key, Null), Walk(f[1..], t, cs), u);
      } else if diff > 0 {
        WalkFits(f, t[1..], u, cs);
        AppliesPatch(None, t[0].value, Behind(u, Key(t[0].key)));
        FitCons(t[0], Walk(f, t[1..], cs), u);
      } else {
        OrderEqual(f[0].key, t[0].key);
        ChangedFits(f[0], t[0], u, cs);
        var c, rest := Changed(f[0], t[0], cs), Walk(f[1..], t[1..], cs);
        WalkFits(f[1..], t[1..], u, cs);
        assert Walk(f, t, cs) == c + rest;
        if c == [] {
          assert c + rest == rest;
        } else {
          assert c == [c[0]];
          FitCons(c[0], rest, u);
        }
      }
    }
  }

  lemma FitCons(c: Member, p: seq<Member>, u: Universe)
    requires FitMember(c, u) && FitMembers(p, u)
    ensures FitMembers([c] + p, u)
  {
    assert ([c] + p)[1..] == p;
  }

  lemma {:induction false} GeneratedFits(from: Json, to: Json, u: Universe, cs: bool)
    requires Good(from, u) && Good(to, u)
    ensures Generated(from, to, cs).Some? ==> Fits(Generated(from, to, cs).value, u)
    decreases Size(from) + Size(to), 1
  {
    if from.Object? && to.Object? {
      ArrangeKeeps(from.members, u, cs);
      ArrangeKeeps(to.members, u, cs);
      WalkFits(Arrange(from.members, cs), Arrange(to.members, cs), u, cs);
    } else {
      AppliesPatch(None, to, u);
    }
  }

  // NULL is for documents that mean the same, in whatever order their keys are.

  lemma {:induction false} Unchanged(f: Member, t: Member, u: Universe, cs: bool)
    requires f.key == t.key && GoodMember(f, u) && GoodMember(t, u) && Orderly(u, cs)
    ensures Changed(f, t, cs) == [] <==> Mean(f.value) == Mean(t.value)
    decreases Size(f.value) + Size(t.value), 2
  {
    OrderlyBehind(u, Key(t.key), cs);
    OrderlyAll(Behind(u, Key(t.key)), false);
    ComparesMeaning(f.value, t.value, Behind(u, Key(t.key)), cs);
    NullExactly(f.value, t.value, Behind(u, Key(t.key)), false);
  }

  lemma SameHeads(f: seq<Member>, t: seq<Member>, cs: bool)
    requires f != [] && t != [] && Ascending(f, cs) && Ascending(t, cs) && MapOf(f).Keys == MapOf(t).Keys
    ensures f[0].key == t[0].key
  {
    var a, b := f[0].key, t[0].key;
    assert a in MapOf(t) && b in MapOf(f) by {
      assert a in MapOf(f) && b in MapOf(t);
    }
    if a != b {
      KeyBelow(b, t[1..], a, cs);
      KeyBelow(a, f[1..], b, cs);
      CompareFlips(a, b, cs, 0);
    }
  }

  lemma {:induction false} EmptyWalk(f: seq<Member>, t: seq<Member>, u: Universe, cs: bool)
    requires GoodMembers(f, u) && GoodMembers(t, u) && Orderly(u, cs) && Ascending(f, cs) && Ascending(t, cs)
    ensures Walk(f, t, cs) == [] <==> MapOf(f) == MapOf(t)
    decreases SizeMembers(f) + SizeMembers(t), 3
  {
    EmptyMap(f);
    EmptyMap(t);
    if f != [] && t != [] {
      OrderEqual(f[0].key, t[0].key);
      if f[0].key == t[0].key {
        var k := t[0].key;
        Unchanged(f[0], t[0], u, cs);
        EmptyWalk(f[1..], t[1..], u, cs);
        assert MapOf(f)[k] == Mean(f[0].value) && MapOf(f) - {k} == MapOf(f[1..]);
        assert MapOf(t)[k] == Mean(t[0].value) && MapOf(t) - {k} == MapOf(t[1..]);
      } else if MapOf(f) == MapOf(t) {
        SameHeads(f, t, cs);
      }
    }
  }

  /** generate_merge_patch returns NULL exactly for two objects that mean the same. */
  lemma {:induction false} NullExactly(from: Json, to: Json, u: Universe, cs: bool)
    requires Good(from, u) && Good(to, u) && Orderly(u, cs)
    ensures Generated(from, to, cs).None? <==> from.Object? && to.Object? && Mean(from) == Mean(to)
    decreases Size(from) + Size(to), 1
  {
    if from.Object? && to.Object? {
      OrderlyAll(u, cs);
      ArrangeKeeps(from.members, u, cs);
      ArrangeKeeps(to.members, u, cs);
      ArrangeAscends(from.members, u, cs);
      ArrangeAscends(to.members, u, cs);
      EmptyWalk(Arrange(from.members, cs), Arrange(to.members, cs), u, cs);
    }
  }

  // What the patch brings back.

  lemma SetAnew(v: Json, u: Universe)
    requires Good(v, u)
    ensures Put(None, v) == Some(Mean(v)) <==> Settable(Mean(v))
  {
    AppliesPatch(None, v, u);
    PatchedIntoNothing(None, Mean(v));
  }

  lemma {:induction false} ChangeReturns(f: Member, t: Member, u: Universe, cs: bool)
    requires f.key == t.key && GoodMember(f, u) && GoodMember(t, u) && Orderly(u, cs)
    ensures PutChanged(Some(Mean(f.value)), f, t, cs) == Some(Mean(t.value)) <==>
            Mean(f.value) == Mean(t.value) || (!t.value.Null? && Returns(f.value, t.value, false))
    decreases Size(f.value) + Size(t.value), 2
  {
    OrderlyBehind(u, Key(t.key), cs);
    Unchanged(f, t, u, cs);
    if Mean(f.value) != Mean(t.value) {
      GeneratedReturns(f.value, t.value, Behind(u, Key(t.key)), false);
    }
  }

  lemma {:induction false} GoodUnique(ms: seq<Member>, u: Universe)
    requires GoodMembers(ms, u)
    ensures UniqueMembers(ms) && forall m <- ms :: GoodMember(m, u)
    decreases |ms|
  {
    if ms != [] {
      GoodUnique(ms[1..], u);
      assert ms == [ms[0]] + ms[1..];
    }
  }

  /** A member that is arranged is found where it was. */
  lemma Rearranged(ms: seq<Member>, m: Member, u: Universe, cs: bool)
    requires GoodMembers(ms, u) && m in ms
    ensures ValueAt(Arrange(ms, cs), m.key) == Some(m.value)
    ensures m.key in MapOf(ms) && MapOf(ms)[m.key] == Mean(m.value) && GoodMember(m, u)
    ensures forall i :: 0 <= i < |ms| && ms[i].key == m.key ==> ms[i] == m
  {
    var r := Arrange(ms, cs);
    ArrangeKeeps(ms, u, cs);
    ArrangeHas(ms, cs, m);
    GoodUnique(ms, u);
    GoodUnique(r, u);
    var j :| 0 <= j < |r| && r[j] == m;
    MemberFound(r, j);
    ValueFound(r, m.key);
    forall i | 0 <= i < |ms| && ms[i].key == m.key ensures ms[i] == m {
      var l :| 0 <= l < |ms| && ms[l] == m;
      MemberFound(ms, i);
      MemberFound(ms, l);
    }
  }

  lemma {:induction false} MemberComesBack(f: seq<Member>, t: seq<Member>, m: Member, u: Universe, cs: bool)
    requires GoodMembers(f, u) && GoodMembers(t, u) && Orderly(u, cs) && m in t
    ensures var a, b := Arrange(f, cs), Arrange(t, cs);
            Walked(Get(MapOf(f), m.key), a, b, m.key, cs) == Some(Mean(m.value)) <==>
            MemberReturns(f, m, Passing(a, b, m.key))
    decreases SizeMembers(f) + SizeMembers(t), 3
  {
    var a, b, k := Arrange(f, cs), Arrange(t, cs), m.key;
    Rearranged(t, m, u, cs);
    ArrangeKeeps(f, u, cs);
    ValueFound(a, k);
    SetAnew(m.value, Behind(u, Key(k)));
    if k in MapOf(f) {
      var n := Member(k, ValueAt(a, k).value);
      ArrangeHas(f, cs, n);
      Rearranged(f, n, u, cs);
      assert n in f;
      MemberSize(f, n);
      MemberSize(t, m);
      ChangeReturns(n, m, u, cs);
      assert exists i :: 0 <= i < |f| && f[i] == n;
    }
  }

  lemma {:induction false} MemberSize(ms: seq<Member>, m: Member)
    requires m in ms
    ensures Size(m.value) <= SizeMembers(ms)
    decreases |ms|
  {
    if m != ms[0] {
      MemberSize(ms[1..], m);
    }
  }

  lemma {:induction false} GeneratedReturns(from: Json, to: Json, u: Universe, cs: bool)
    requires Good(from, u) && Good(to, u) && Orderly(u, cs) && Generated(from, to, cs).Some?
    ensures Applied(Some(Mean(from)), Generated(from, to, cs).value) == Mean(to) <==> Returns(from, to, cs)
    decreases Size(from) + Size(to), 1
  {
    if from.Object? && to.Object? {
      MembersReturn(from.members, to.members, u, cs);
    } else if to.Object? {
      AppliesPatch(Some(Mean(from)), to, u);
      PatchedIntoNothing(Some(Mean(from)), Mean(to));
    }
  }

  lemma {:induction false} MembersReturn(f: seq<Member>, t: seq<Member>, u: Universe, cs: bool)
    requires GoodMembers(f, u) && GoodMembers(t, u) && Orderly(u, cs)
    ensures AppliedMembers(MapOf(f), Walk(Arrange(f, cs), Arrange(t, cs), cs)) == MapOf(t) <==>
            Returns(Object(f), Object(t), cs)
    decreases SizeMembers(f) + SizeMembers(t), 4
  {
    var a, b := Arrange(f, cs), Arrange(t, cs);
    var r := AppliedMembers(MapOf(f), Walk(a, b, cs));
    ArrangeKeeps(f, u, cs);
    ArrangeKeeps(t, u, cs);
    GoodUnique(a, u);
    GoodUnique(b, u);
    forall m | m in t
      ensures Get(r, m.key) == Get(MapOf(t), m.key) <==> MemberReturns(f, m, Passing(a, b, m.key))
    {
      WalkApplies(MapOf(f), a, b, m.key, cs);
      MemberComesBack(f, t, m, u, cs);
      Rearranged(t, m, u, cs);
    }
    if Returns(Object(f), Object(t), cs) {
      forall k ensures Get(r, k) == Get(MapOf(t), k) {
        ValueFound(t, k);
        if k in MapOf(t) {
          assert Member(k, ValueAt(t, k).value) in Object(t).members;
        } else {
          WalkApplies(MapOf(f), a, b, k, cs);
          ValueFound(a, k);
          ValueFound(b, k);
        }
      }
      SameMap(r, MapOf(t));
    }
  }

  lemma PatchReturns(from: Json, to: Json, u: Universe, cs: bool)
    requires Good(from, u) && Good(to, u) && Orderly(u, cs) && AllTold(u, cs) && Generated(from, to, cs).Some?
    ensures CompareJson(Merged(Some(from), Generated(from, to, cs).value, cs), to, cs) <==> Returns(from, to, cs)
  {
    var p := Generated(from, to, cs).value;
    GeneratedFits(from, to, u, cs);
    MergeApplies(Some(from), p, u, cs);
    GeneratedReturns(from, to, u, cs);
    ComparesMeaning(Merged(Some(from), p, cs), to, u, cs);
  }

  /** Merging the generated patch into the first document gives the second exactly when every member comes back, and
      there is no patch exactly for objects that compare equal. */
  lemma RoundTripExactly(from: Json, to: Json, cs: bool)
    requires Unique(from) && Unique(to) && Apart(from, to, cs)
    ensures Generated(from, to, cs).None? <==> from.Object? && to.Object? && CompareJson(from, to, cs)
    ensures Generated(from, to, cs).Some? ==>
              (CompareJson(Merged(Some(from), Generated(from, to, cs).value, cs), to, cs) <==> Returns(from, to, cs))
  {
    var u := Both(from, to);
    ApartGood(from, to, cs);
    NullExactly(from, to, u, cs);
    ComparesMeaning(from, to, u, cs);
    if Generated(from, to, cs).Some? {
      PatchReturns(from, to, u, cs);
    }
  }

  /** Where the orders are lined up, coming back is being recoverable. */
  lemma LinedReturns(from: Json, to: Json, cs: bool)
    requires Unique(from) && Unique(to) && Apart(from, to, cs) && Lined(from, to, cs) && Generated(from, to, cs).Some?
    ensures Returns(from, to, cs) <==> Recoverable(Mean(from), Mean(to))
  {
    RoundTrip(from, to, cs);
    RoundTripExactly(from, to, cs);
  }

  /** Members are sorted ignoring case and then walked in byte order: towards {"B": 1}, the patch for
      {"B": 1, "a": 2} ends with "B": null, and nothing is left. */
  lemma CaseOrderLost()
    ensures var from := Object([Member(['B' as byte], Number(1)), Member(['a' as byte], Number(2))]);
            var to := Object([Member(['B' as byte], Number(1))]);
            var patch := Object([Member(['B' as byte], Number(1)), Member(['a' as byte], Null),
                                 Member(['B' as byte], Null)]);
            Generated(from, to, false) == Some(patch) && Merged(Some(from), patch, false) == Object([])
            && !CompareJson(Object([]), to, false)
  {
    var B, a: Text := ['B' as byte], ['a' as byte];
    var B1, a2, a0, B0 := Member(B, Number(1)), Member(a, Number(2)), Member(a, Null), Member(B, Null);
    CaseOrder(B, a);
    assert Arrange([B1], false) == [B1] && Arrange([a2], false) == [a2];
    assert Arrange([B1, a2], false) == Insert(B1, [a2], false) == [a2, B1] by {
      assert [B1, a2][1..] == [a2] && [a2][1..] == [];
    }
    WalkLost(B1, a2);
    MergeLost(B1, a2, a0, B0);
  }

  lemma CaseOrder(B: Text, a: Text)
    requires B == ['B' as byte] && a == ['a' as byte]
    ensures Compare(B, a, false, 0) == 1 && Compare(a, B, false, 0) == -1 && Order(a, B) == 31
    ensures Compare(B, B, false, 0) == 0 && Compare(a, a, false, 0) == 0
  {
    CompareFlips(B, a, false, 0);
    assert Compare(B, B, false, 1) == 0 && Compare(a, a, false, 1) == 0;
  }

  lemma WalkLost(B1: Member, a2: Member)
    requires B1 == Member(['B' as byte], Number(1)) && a2 == Member(['a' as byte], Number(2))
    ensures Walk([a2, B1], [B1], false) == [B1, Member(a2.key, Null), Member(B1.key, Null)]
  {
    CaseOrder(B1.key, a2.key);
    assert [a2, B1][1..] == [B1] && [B1][1..] == [];
    assert Walk([B1], [], false) == [Member(B1.key, Null)] + Walk([], [], false);
    assert Walk([a2, B1], [], false) == [Member(a2.key, Null)] + Walk([B1], [], false);
    assert Walk([a2, B1], [B1], false) == [B1] + Walk([a2, B1], [], false);
  }

  lemma MergeLost(B1: Member, a2: Member, a0: Member, B0: Member)
    requires B1 == Member(['B' as byte], Number(1)) && a2 == Member(['a' as byte], Number(2))
    requires a0 == Member(a2.key, Null) && B0 == Member(B1.key, Null)
    ensures MergedMembers([B1, a2], [B1, a0, B0], false) == []
  {
    CaseOrder(B1.key, a2.key);
    assert [B1, a2][1..] == [a2] && [a2, B1][1..] == [B1] && [B1][1..] == [];
    assert MergedMember([B1, a2], B1, false) == [a2] + [B1] == [a2, B1];
    assert MergedMember([a2, B1], a0, false) == [B1];
    assert MergedMember([B1], B0, false) == [];
    assert [B1, a0, B0][1..] == [a0, B0] && [a0, B0][1..] == [B0] && [B0][1..] == [];
    assert MergedMembers([B1], [B0], false) == [];
    assert MergedMembers([a2, B1], [a0, B0], false) == MergedMembers([B1], [B0], false);
  }

  /** A key cannot be changed in case only: the patch from {"a": 1} to {"A": 1} adds "A" and then drops "a". */
  lemma CaseChangeLost()
    ensures var from, to := Object([Member(['a' as byte], Number(1))]), Object([Member(['A' as byte], Number(1))]);
            var patch := Object([Member(['A' as byte], Number(1)), Member(['a' as byte], Null)]);
            Generated(from, to, false) == Some(patch) && Merged(Some(from), patch, false) == Object([])
  {
    var A, a: Text := ['A' as byte], ['a' as byte];
    var A1, a1, a0 := Member(A, Number(1)), Member(a, Number(1)), Member(a, Null);
    assert Compare(A, a, false, 1) == 0 && Compare(a, A, false, 1) == 0 && Order(a, A) == 32;
    assert [A1][1..] == [] && [a1][1..] == [] && [A1, a0][1..] == [a0] && [a0][1..] == [];
    assert Arrange([A1], false) == [A1] && Arrange([a1], false) == [a1];
    assert Walk([a1], [], false) == [a0] + Walk([], [], false);
    assert Walk([a1], [A1], false) == [A1] + Walk([a1], [], false) == [A1, a0];
    assert MergedMember([a1], A1, false) == [A1] && MergedMember([A1], a0, false) == [];
    assert MergedMembers([A1], [a0], false) == MergedMembers([], [], false);
    assert MergedMembers([a1], [A1, a0], false) == MergedMembers([A1], [a0], false);
  }

  /** A null member cannot be added: patching {} towards {"a": null} leaves {}. */
  lemma NullMemberLost()
    ensures var to := Object([Member([97], Null)]);
            Generated(Object([]), to, true) == Some(to)
            && Merged(Some(Object([])), to, true) == Object([])
            && !CompareJson(Object([]), to, true)
  {
    var m := Member([97], Null);
    assert Arrange([], true) == [] && Arrange([m], true) == [m];
    assert Walk([], [m], true) == [m] + Walk([], [], true);
    assert MergedMembers([], [m], true) == MergedMembers(MergedMember([], m, true), [], true);
  }
}
