/** cJSON_Compare and member lookup (cJSON/cJSON.c:98-120, 1776-1806, 2807-2930). */
module JsonCompare {
  import opened Bytes
  import opened JsonText
  import opened Wrappers

  // ---------------------------------------------------------------------------------------------
  // What a tree means: arrays are sequences, objects are finite maps

  datatype Value =
    | Atom(atom: Json)
    | Sequence(items: seq<Value>)
    | Mapping(members: map<Text, Value>)

  function Lower(b: Byte): Byte { if 65 <= b <= 90 then b + 32 else b }

  function LowerAll(t: Text): Text {
    if |t| == 0 then [] else [Lower(t[0])] + LowerAll(t[1..])
  }

  /** What counts of a name: everything, or everything but the case of its letters. */
  function Fold(name: Text, sensitive: bool): Text {
    if sensitive then name else LowerAll(name)
  }

  /** Folded names are the same exactly if the names are, or, when case does not count, if they are equally
      long and differ at most by 32 in the letters A to Z and a to z. */
  lemma FoldedAlike(a: Text, b: Text, sensitive: bool)
    ensures Fold(a, sensitive) == Fold(b, sensitive) <==>
              |a| == |b| && forall i | 0 <= i < |a| ::
                a[i] == b[i] || (!sensitive && ((65 <= a[i] <= 90 && b[i] == a[i] + 32) ||
                                                (65 <= b[i] <= 90 && a[i] == b[i] + 32)))
  {
    if !sensitive {
      LowerEach(a);
      LowerEach(b);
      if |a| == |b| {
        assert LowerAll(a) == LowerAll(b) <==> forall i | 0 <= i < |a| :: LowerAll(a)[i] == LowerAll(b)[i];
      }
    }
  }

  lemma {:induction false} LowerEach(t: Text)
    ensures |LowerAll(t)| == |t| && forall i | 0 <= i < |t| :: LowerAll(t)[i] == Lower(t[i])
  {
    if |t| > 0 { LowerEach(t[1..]); }
  }

  function Meaning(v: Json, sensitive: bool): Value
    decreases v
  {
    match v
    case Array(items) => Sequence(ItemsMeaning(items, sensitive))
    case Object(members) => Mapping(MembersMeaning(members, sensitive))
    case _ => Atom(v)
  }

  function ItemsMeaning(items: seq<Json>, sensitive: bool): (r: seq<Value>)
    ensures |r| == |items|
    decreases items
  {
    if |items| == 0 then [] else [Meaning(items[0], sensitive)] + ItemsMeaning(items[1..], sensitive)
  }

  function MembersMeaning(members: seq<Member>, sensitive: bool): map<Text, Value>
    decreases members
  {
    if |members| == 0 then map[]
    else MembersMeaning(members[1..], sensitive)[Fold(members[0].key, sensitive) :=
        Meaning(members[0].value, sensitive)]
  }

  /** No object, at any depth, has two members of the same name. */
  predicate DistinctKeys(v: Json, sensitive: bool)
    decreases v
  {
    match v
    case Array(items) => ItemsDistinct(items, sensitive)
    case Object(members) => MembersDistinct(members, sensitive)
    case _ => true
  }

  predicate ItemsDistinct(items: seq<Json>, sensitive: bool)
    decreases items
  {
    |items| == 0 || (DistinctKeys(items[0], sensitive) && ItemsDistinct(items[1..], sensitive))
  }

  predicate MembersDistinct(members: seq<Member>, sensitive: bool)
    decreases members
  {
    |members| == 0 ||
    (DistinctKeys(members[0].value, sensitive) && Lookup(members[1..], members[0].key, sensitive).None? &&
     MembersDistinct(members[1..], sensitive))
  }

  // ---------------------------------------------------------------------------------------------
  // What the code computes

  /** get_object_item: the first member of that name. */
  function Lookup(members: seq<Member>, name: Text, sensitive: bool): (r: Option<Json>)
    ensures r.Some? ==> Size(r.value) < MembersSize(members)
  {
    if |members| == 0 then None
    else if Fold(members[0].key, sensitive) == Fold(name, sensitive) then Some(members[0].value)
    else Lookup(members[1..], name, sensitive)
  }

  function Size(v: Json): nat
    decreases v
  {
    match v
    case Array(items) => 1 + ItemsSize(items)
    case Object(members) => 1 + MembersSize(members)
    case _ => 1
  }

  function ItemsSize(items: seq<Json>): nat
    decreases items
  {
    if |items| == 0 then 0 else 1 + Size(items[0]) + ItemsSize(items[1..])
  }

  function MembersSize(members: seq<Member>): nat
    decreases members
  {
    if |members| == 0 then 0 else 1 + Size(members[0].value) + MembersSize(members[1..])
  }

  /** cJSON_Compare, for different nodes. */
  function Compare(a: Json, b: Json, sensitive: bool): bool
    decreases Size(a) + Size(b), 0
  {
    match a
    case Array(items) => b.Array? && CompareItems(items, b.items, sensitive)
    case Object(members) =>
      b.Object? && CompareMembers(members, b.members, sensitive) && CompareMembers(b.members, members, sensitive)
    case _ => a == b
  }

  function CompareItems(a: seq<Json>, b: seq<Json>, sensitive: bool): bool
    decreases ItemsSize(a) + ItemsSize(b), 1
  {
    if |a| == 0 || |b| == 0 then |a| == |b|
    else Compare(a[0], b[0], sensitive) && CompareItems(a[1..], b[1..], sensitive)
  }

  // Every member of `a` has a counterpart in `b`.
  function CompareMembers(a: seq<Member>, b: seq<Member>, sensitive: bool): bool
    decreases MembersSize(a) + MembersSize(b), 1
  {
    |a| == 0 ||
    match Lookup(b, a[0].key, sensitive)
    case None => false
    case Some(w) => Compare(a[0].value, w, sensitive) && CompareMembers(a[1..], b, sensitive)
  }

  // ---------------------------------------------------------------------------------------------
  // Comparing is comparing meanings, on trees that contradict themselves nowhere

  /** At every depth, members of the same name mean the same. */
  predicate Consistent(v: Json, sensitive: bool)
    decreases v
  {
    match v
    case Array(items) => ItemsConsistent(items, sensitive)
    case Object(members) => MembersConsistent(members, MembersMeaning(members, sensitive), sensitive)
    case _ => true
  }

  predicate ItemsConsistent(items: seq<Json>, sensitive: bool)
    decreases items
  {
    |items| == 0 || (Consistent(items[0], sensitive) && ItemsConsistent(items[1..], sensitive))
  }

  // Every member is consistent, and has this meaning of its name.
  predicate MembersConsistent(members: seq<Member>, m: map<Text, Value>, sensitive: bool)
    decreases members
  {
    |members| == 0 ||
    (Consistent(members[0].value, sensitive) &&
        Means(m, Fold(members[0].key, sensitive), Meaning(members[0].value, sensitive)) &&
     MembersConsistent(members[1..], m, sensitive))
  }

  predicate Means(m: map<Text, Value>, k: Text, v: Value) { k in m && m[k] == v }

  lemma {:induction false} LookupMeaning(members: seq<Member>, name: Text, sensitive: bool)
    ensures var m := MembersMeaning(members, sensitive); var k := Fold(name, sensitive);
            match Lookup(members, name, sensitive)
            case None => k !in m
            case Some(w) => k in m && m[k] == Meaning(w, sensitive)
  {
    hide Fold, Meaning;
    if |members| > 0 { LookupMeaning(members[1..], name, sensitive); }
  }

  /** A lookup finds the first member whose name folds like the one looked for. */
  lemma {:induction false} LookupIsFirst(members: seq<Member>, name: Text, sensitive: bool)
    ensures match Lookup(members, name, sensitive)
            case None => forall m <- members :: Fold(m.key, sensitive) != Fold(name, sensitive)
            case Some(v) => exists i | 0 <= i < |members| ::
              && Fold(members[i].key, sensitive) == Fold(name, sensitive) && members[i].value == v
              && forall j | 0 <= j < i :: Fold(members[j].key, sensitive) != Fold(name, sensitive)
  {
    hide Fold;
    if |members| > 0 && Fold(members[0].key, sensitive) != Fold(name, sensitive) {
      LookupIsFirst(members[1..], name, sensitive);
      if Lookup(members, name, sensitive).Some? {
        var rest := members[1..];
        var i :| 0 <= i < |rest| && Fold(rest[i].key, sensitive) == Fold(name, sensitive) &&
                 rest[i].value == Lookup(members, name, sensitive).value &&
                 forall j | 0 <= j < i :: Fold(rest[j].key, sensitive) != Fold(name, sensitive);
        assert members[i + 1] == rest[i];
        assert forall j | 0 < j < i + 1 :: members[j] == rest[j - 1];
      }
    }
  }

  // Two lookups that find the same, as far as it matters.
  predicate FoundAlike(a: Option<Json>, b: Option<Json>, sensitive: bool) {
    (a.None? && b.None?) || (a.Some? && b.Some? && Meaning(a.value, sensitive) == Meaning(b.value, sensitive))
  }

  // Whatever name is looked up.
  ghost predicate LookupsAgree(a: seq<Member>, b: seq<Member>, sensitive: bool) {
    forall name: Text :: FoundAlike(Lookup(a, name, sensitive), Lookup(b, name, sensitive), sensitive)
  }

  /** When two trees mean the same: words, numbers and strings if they are the same, arrays if they are equally
      long and mean the same item by item, and objects if every name that is looked up finds the same in both. */
  lemma SameMeaning(a: Json, b: Json, sensitive: bool)
    ensures Meaning(a, sensitive) == Meaning(b, sensitive) <==>
              if a.Array? then
                b.Array? && |a.items| == |b.items| &&
                forall i | 0 <= i < |a.items| :: Meaning(a.items[i], sensitive) == Meaning(b.items[i], sensitive)
              else if a.Object? then
                b.Object? && LookupsAgree(a.members, b.members, sensitive)
              else a == b
  {
    if a.Array? && b.Array? {
      ItemByItem(a.items, sensitive);
      ItemByItem(b.items, sensitive);
    } else if a.Object? && b.Object? {
      SameMembers(a.members, b.members, sensitive);
    }
  }

  lemma {:induction false} ItemByItem(items: seq<Json>, sensitive: bool)
    ensures forall i | 0 <= i < |items| :: ItemsMeaning(items, sensitive)[i] == Meaning(items[i], sensitive)
  {
    hide Meaning;
    if |items| > 0 { ItemByItem(items[1..], sensitive); }
  }

  lemma SameMembers(a: seq<Member>, b: seq<Member>, sensitive: bool)
    ensures MembersMeaning(a, sensitive) == MembersMeaning(b, sensitive) <==>
              LookupsAgree(a, b, sensitive)
  {
    hide Lookup, MembersMeaning, Meaning, Fold, FoundAlike;
    var m, n := MembersMeaning(a, sensitive), MembersMeaning(b, sensitive);
    forall name: Text
      ensures FoundAlike(Lookup(a, name, sensitive), Lookup(b, name, sensitive), sensitive) <==>
                EntriesAlike(m, n, Fold(name, sensitive))
    {
      LookupsAlike(a, b, name, sensitive);
    }
    if LookupsAgree(a, b, sensitive) {
      forall k: Text ensures EntriesAlike(m, n, k) {
        if k in m || k in n {
          var name := NameOf(if k in m then a else b, k, sensitive);
          assert FoundAlike(Lookup(a, name, sensitive), Lookup(b, name, sensitive), sensitive);
        }
      }
      AlikeEverywhere(m, n);
    }
  }

  predicate EntriesAlike(m: map<Text, Value>, n: map<Text, Value>, k: Text) {
    (k in m <==> k in n) && (k in m ==> m[k] == n[k])
  }

  lemma AlikeEverywhere(m: map<Text, Value>, n: map<Text, Value>)
    requires forall k: Text :: EntriesAlike(m, n, k)
    ensures m == n
  {
    assert forall k: Text :: EntriesAlike(m, n, k) ==> (k in m <==> k in n);
  }

  lemma LookupsAlike(a: seq<Member>, b: seq<Member>, name: Text, sensitive: bool)
    ensures FoundAlike(Lookup(a, name, sensitive), Lookup(b, name, sensitive), sensitive) <==>
              EntriesAlike(MembersMeaning(a, sensitive), MembersMeaning(b, sensitive), Fold(name, sensitive))
  {
    hide Lookup, MembersMeaning, Meaning, Fold;
    LookupMeaning(a, name, sensitive);
    LookupMeaning(b, name, sensitive);
  }

  // Every key of a meaning is the name of some member.
  lemma {:induction false} NameOf(members: seq<Member>, k: Text, sensitive: bool) returns (name: Text)
    requires k in MembersMeaning(members, sensitive)
    ensures Fold(name, sensitive) == k
  {
    hide Fold, Meaning;
    name := members[0].key;
    if Fold(name, sensitive) != k { name := NameOf(members[1..], k, sensitive); }
  }

  lemma {:induction false} LookupConsistent(members: seq<Member>, m: map<Text, Value>, name: Text, sensitive: bool)
    requires MembersConsistent(members, m, sensitive) && Lookup(members, name, sensitive).Some?
    ensures Consistent(Lookup(members, name, sensitive).value, sensitive)
  {
    hide Fold, Consistent, Meaning;
    if Fold(members[0].key, sensitive) != Fold(name, sensitive) { LookupConsistent(members[1..], m, name, sensitive); }
  }

  /** Case-sensitive or not, any two trees compare equal exactly when neither contradicts itself and
      they mean the same. */
  lemma {:induction false} CompareMeaning(a: Json, b: Json, sensitive: bool)
    ensures Compare(a, b, sensitive) <==>
              Consistent(a, sensitive) && Consistent(b, sensitive) && Meaning(a, sensitive) == Meaning(b, sensitive)
    decreases Size(a) + Size(b), 0
  {
    match a
    case Array(items) =>
      if b.Array? { CompareItemsMeaning(items, b.items, sensitive); }
    case Object(members) =>
      if b.Object? { CompareObjects(members, b.members, sensitive); }
    case _ =>
  }

  lemma {:induction false} CompareItemsMeaning(a: seq<Json>, b: seq<Json>, sensitive: bool)
    ensures CompareItems(a, b, sensitive) <==>
              && ItemsConsistent(a, sensitive) && ItemsConsistent(b, sensitive)
              && ItemsMeaning(a, sensitive) == ItemsMeaning(b, sensitive)
    decreases ItemsSize(a) + ItemsSize(b), 1
  {
    if |a| > 0 && |b| > 0 {
      CompareMeaning(a[0], b[0], sensitive);
      CompareItemsMeaning(a[1..], b[1..], sensitive);
      hide Compare, Meaning, Consistent, Size;
      var s, t := ItemsMeaning(a, sensitive), ItemsMeaning(b, sensitive);
      assert s[1..] == ItemsMeaning(a[1..], sensitive) && t[1..] == ItemsMeaning(b[1..], sensitive);
      assert s[0] == Meaning(a[0], sensitive) && t[0] == Meaning(b[0], sensitive);
    }
  }

  /** One map is part of another. */
  ghost predicate Part(m: map<Text, Value>, n: map<Text, Value>) {
    forall k <- m :: k in n && n[k] == m[k]
  }

  // Every member of `a` has, in `b`, the value that comes first with its name: it is consistent and means
  // what `b` means by that name.
  lemma {:induction false} CompareMembersMeaning(a: seq<Member>, b: seq<Member>, sensitive: bool)
    ensures CompareMembers(a, b, sensitive) ==>
              MembersConsistent(a, MembersMeaning(b, sensitive), sensitive) &&
              Part(MembersMeaning(a, sensitive), MembersMeaning(b, sensitive))
    ensures (var n := MembersMeaning(b, sensitive);
             MembersConsistent(a, n, sensitive) && MembersConsistent(b, n, sensitive)) ==>
              CompareMembers(a, b, sensitive)
    decreases MembersSize(a) + MembersSize(b), 1
  {
    if |a| > 0 {
      var name := a[0].key;
      LookupMeaning(b, name, sensitive);
      CompareMembersMeaning(a[1..], b, sensitive);
      if Lookup(b, name, sensitive).Some? {
        CompareMeaning(a[0].value, Lookup(b, name, sensitive).value, sensitive);
        if MembersConsistent(b, MembersMeaning(b, sensitive), sensitive) {
          LookupConsistent(b, MembersMeaning(b, sensitive), name, sensitive);
        }
      }
      hide Compare, Meaning, Consistent, Size, Fold, Lookup;
      assert CompareMembers(a, b, sensitive) ==> CompareMembers(a[1..], b, sensitive);
    }
  }

  lemma CompareObjects(a: seq<Member>, b: seq<Member>, sensitive: bool)
    ensures CompareMembers(a, b, sensitive) && CompareMembers(b, a, sensitive) <==>
              && Consistent(Object(a), sensitive) && Consistent(Object(b), sensitive)
              && MembersMeaning(a, sensitive) == MembersMeaning(b, sensitive)
    decreases MembersSize(a) + MembersSize(b), 2
  {
    CompareMembersMeaning(a, b, sensitive);
    CompareMembersMeaning(b, a, sensitive);
    hide CompareMembers, MembersConsistent;
    var m, n := MembersMeaning(a, sensitive), MembersMeaning(b, sensitive);
    if CompareMembers(a, b, sensitive) && CompareMembers(b, a, sensitive) {
      assert m == n;
    }
  }

  /** A tree compares equal to a copy of itself exactly when it contradicts itself nowhere. On all trees
      comparing is symmetric and transitive. */
  lemma CompareIsEquivalence(a: Json, b: Json, c: Json, sensitive: bool)
    ensures Compare(a, a, sensitive) <==> Consistent(a, sensitive)
    ensures Compare(a, b, sensitive) <==> Compare(b, a, sensitive)
    ensures Compare(a, b, sensitive) && Compare(b, c, sensitive) ==> Compare(a, c, sensitive)
  {
    hide Compare, Meaning, Consistent;
    CompareMeaning(a, a, sensitive);
    CompareMeaning(a, b, sensitive);
    CompareMeaning(b, a, sensitive);
    CompareMeaning(b, c, sensitive);
    CompareMeaning(a, c, sensitive);
  }

  /** Distinct keys are enough. */
  lemma {:induction false} DistinctIsConsistent(v: Json, sensitive: bool)
    requires DistinctKeys(v, sensitive)
    ensures Consistent(v, sensitive)
    decreases v, 0
  {
    match v
    case Array(items) => DistinctItems(items, sensitive);
    case Object(members) =>
      DistinctMembers(members, MembersMeaning(members, sensitive), sensitive);
    case _ =>
  }

  lemma {:induction false} DistinctItems(items: seq<Json>, sensitive: bool)
    requires ItemsDistinct(items, sensitive)
    ensures ItemsConsistent(items, sensitive)
    decreases items, 1
  {
    if |items| > 0 {
      DistinctIsConsistent(items[0], sensitive);
      DistinctItems(items[1..], sensitive);
    }
  }

  lemma {:induction false} DistinctMembers(members: seq<Member>, m: map<Text, Value>, sensitive: bool)
    requires MembersDistinct(members, sensitive) && Part(MembersMeaning(members, sensitive), m)
    ensures MembersConsistent(members, m, sensitive)
    decreases members, 1
  {
    if |members| > 0 {
      LookupMeaning(members[1..], members[0].key, sensitive);
      DistinctIsConsistent(members[0].value, sensitive);
      hide Meaning, Consistent, DistinctKeys, Fold;
      DistinctMembers(members[1..], m, sensitive);
    }
  }

  /** Two members of the same name do no harm if they agree; if they do not, the object differs from an
      equal copy of itself. */
  lemma RepeatedKeyBreaksIt(key: Text, x: Json, y: Json)
    requires Consistent(x, true) && Consistent(y, true)
    ensures var v := Object([Member(key, x), Member(key, y)]);
            !DistinctKeys(v, true) && (Compare(v, v, true) <==> Meaning(x, true) == Meaning(y, true))
  {
    var members := [Member(key, x), Member(key, y)];
    var rest := members[1..];
    assert rest == [Member(key, y)] && rest[1..] == [];
    CompareMeaning(Object(members), Object(members), true);
    hide Compare, Consistent;
    assert Lookup(rest, key, true) == Some(y);
    ConsistentPair(key, x, y);
  }

  lemma ConsistentPair(key: Text, x: Json, y: Json)
    requires Consistent(x, true) && Consistent(y, true)
    ensures Consistent(Object([Member(key, x), Member(key, y)]), true) <==> Meaning(x, true) == Meaning(y, true)
  {
    var members := [Member(key, x), Member(key, y)];
    var rest, m := members[1..], MembersMeaning(members, true);
    assert rest == [Member(key, y)] && rest[1..] == [];
    hide Meaning;
    assert m == MembersMeaning(rest, true)[key := Meaning(x, true)];
    assert MembersConsistent(rest, m, true) <==> Means(m, key, Meaning(y, true)) by {
      assert MembersConsistent(rest[1..], m, true);
    }
    assert Consistent(Object(members), true) <==> MembersConsistent(members, m, true);
  }

  // ---------------------------------------------------------------------------------------------
  // The loops

  lemma {:induction false} LookupFrom(members: seq<Member>, i: nat, name: Text, sensitive: bool)
    requires i < |members|
    ensures Lookup(members[i..], name, sensitive) ==
            if Fold(members[i].key, sensitive) == Fold(name, sensitive) then Some(members[i].value)
            else Lookup(members[i + 1..], name, sensitive)
  {
    hide Fold;
    assert members[i..][1..] == members[i + 1..];
  }

  /** get_object_item */
  method GetObjectItem(members: seq<Member>, name: Text, sensitive: bool) returns (r: Option<Json>)
    ensures r == Lookup(members, name, sensitive)
  {
    hide Lookup, Fold;
    var i := 0;
    assert members[0..] == members;
    while i < |members| && Fold(members[i].key, sensitive) != Fold(name, sensitive)
      invariant i <= |members| && Lookup(members, name, sensitive) == Lookup(members[i..], name, sensitive)
    {
      LookupFrom(members, i, name, sensitive);
      i := i + 1;
    }
    if i == |members| {
      assert members[i..] == [];
      NothingThere(name, sensitive);
      return None;
    }
    LookupFrom(members, i, name, sensitive);
    return Some(members[i].value);
  }

  lemma NothingThere(name: Text, sensitive: bool)
    ensures Lookup([], name, sensitive) == None
  {
  }

  /** cJSON_Compare */
  method CompareTrees(a: Json, b: Json, sensitive: bool) returns (same: bool)
    ensures same == Compare(a, b, sensitive)
    ensures same <==>
              Consistent(a, sensitive) && Consistent(b, sensitive) && Meaning(a, sensitive) == Meaning(b, sensitive)
    decreases Size(a) + Size(b), 0
  {
    CompareMeaning(a, b, sensitive);
    hide CompareItems, CompareMembers, Meaning, Consistent;
    if a.Array? && b.Array? {
      same := CompareElements(a.items, b.items, sensitive);
    } else if a.Object? && b.Object? {
      same := CompareEach(a.members, b.members, sensitive);
      if same {
        same := CompareEach(b.members, a.members, sensitive);
      }
    } else {
      same := !a.Array? && !a.Object? && a == b;
    }
  }

  lemma ItemsFrom(a: seq<Json>, b: seq<Json>, i: nat, sensitive: bool)
    requires i <= |a| && i <= |b|
    ensures i < |a| && i < |b| ==>
              && CompareItems(a[i..], b[i..], sensitive) ==
                 (Compare(a[i], b[i], sensitive) && CompareItems(a[i + 1..], b[i + 1..], sensitive))
              && Size(a[i]) + Size(b[i]) < ItemsSize(a[i..]) + ItemsSize(b[i..])
              && ItemsSize(a[i + 1..]) + ItemsSize(b[i + 1..]) <= ItemsSize(a[i..]) + ItemsSize(b[i..])
    ensures i == |a| || i == |b| ==> CompareItems(a[i..], b[i..], sensitive) == (|a| == |b|)
  {
    hide Compare, Size;
    if i < |a| && i < |b| { assert a[i..][1..] == a[i + 1..] && b[i..][1..] == b[i + 1..]; }
  }

  // The loop over two arrays at once.
  method CompareElements(a: seq<Json>, b: seq<Json>, sensitive: bool) returns (same: bool)
    ensures same == CompareItems(a, b, sensitive)
    decreases ItemsSize(a) + ItemsSize(b), 1
  {
    hide CompareItems, Compare, Size, ItemsSize;
    var i := 0;
    assert a[0..] == a && b[0..] == b;
    while i < |a| && i < |b|
      invariant i <= |a| && i <= |b| && CompareItems(a, b, sensitive) == CompareItems(a[i..], b[i..], sensitive)
      invariant ItemsSize(a[i..]) + ItemsSize(b[i..]) <= ItemsSize(a) + ItemsSize(b)
    {
      ItemsFrom(a, b, i, sensitive);
      var equal := CompareTrees(a[i], b[i], sensitive);
      if !equal { return false; }
      i := i + 1;
    }
    ItemsFrom(a, b, i, sensitive);
    return i == |a| && i == |b|;
  }

  lemma MembersFrom(a: seq<Member>, b: seq<Member>, i: nat, sensitive: bool)
    requires i <= |a|
    ensures i < |a| ==>
              && CompareMembers(a[i..], b, sensitive) ==
                 (var w := Lookup(b, a[i].key, sensitive);
                  w.Some? && Compare(a[i].value, w.value, sensitive) && CompareMembers(a[i + 1..], b, sensitive))
              && Size(a[i].value) < MembersSize(a[i..]) && MembersSize(a[i + 1..]) <= MembersSize(a[i..])
    ensures i == |a| ==> CompareMembers(a[i..], b, sensitive)
  {
    hide Compare, Size, Lookup;
    if i < |a| { assert a[i..][1..] == a[i + 1..]; }
  }

  // One of the two loops over the members of an object.
  method CompareEach(a: seq<Member>, b: seq<Member>, sensitive: bool) returns (same: bool)
    ensures same == CompareMembers(a, b, sensitive)
    decreases MembersSize(a) + MembersSize(b), 1
  {
    hide CompareMembers, Compare, Size, MembersSize, Lookup;
    var i := 0;
    assert a[0..] == a;
    while i < |a|
      invariant i <= |a| && CompareMembers(a, b, sensitive) == CompareMembers(a[i..], b, sensitive)
      invariant MembersSize(a[i..]) <= MembersSize(a)
    {
      MembersFrom(a, b, i, sensitive);
      var w := GetObjectItem(b, a[i].key, sensitive);
      if w.None? { return false; }
      var equal := CompareTrees(a[i].value, w.value, sensitive);
      if !equal { return false; }
      i := i + 1;
    }
    MembersFrom(a, b, i, sensitive);
    return true;
  }
}
