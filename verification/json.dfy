/** The JSON value model: serde_json's `Value` restricted to integer numbers.

    Objects are kept as a list of members sorted by key without duplicates, which is how
    serde_json's default `Map` (a `BTreeMap<String, Value>`) stores and iterates them. Keys
    compare by code point, which for Rust's `String` is the same order as comparing UTF-8 bytes. */
module Json {
  import opened Results

  datatype Value =
    | Null
    | Bool(b: bool)
    | Number(n: int)
    | String(s: string)
    | Array(items: seq<Value>)
    | Object(members: seq<Member>)

  datatype Member = Member(key: string, value: Value)

  /** Strict lexicographic order on keys. */
  predicate KeyLess(a: string, b: string)
    decreases |a|
  {
    if |a| == 0 then |b| > 0
    else |b| > 0 && (a[0] < b[0] || (a[0] == b[0] && KeyLess(a[1..], b[1..])))
  }

  lemma {:induction false} KeyLessIrreflexive(a: string)
    ensures !KeyLess(a, a)
    decreases |a|
  {
    if |a| > 0 {
      KeyLessIrreflexive(a[1..]);
    }
  }

  lemma {:induction false} KeyLessTransitive(a: string, b: string, c: string)
    requires KeyLess(a, b) && KeyLess(b, c)
    ensures KeyLess(a, c)
    decreases |a|
  {
    if |a| > 0 && a[0] == b[0] && b[0] == c[0] {
      KeyLessTransitive(a[1..], b[1..], c[1..]);
    }
  }

  /** Any two different keys are ordered one way or the other. */
  lemma {:induction false} KeyLessTotal(a: string, b: string)
    requires a != b
    ensures KeyLess(a, b) || KeyLess(b, a)
    decreases |a|
  {
    if |a| > 0 && |b| > 0 && a[0] == b[0] {
      assert a == [a[0]] + a[1..] && b == [b[0]] + b[1..];
      KeyLessTotal(a[1..], b[1..]);
    }
  }

  lemma {:induction false} KeyLessAsymmetric(a: string, b: string)
    requires KeyLess(a, b)
    ensures !KeyLess(b, a)
  {
    if KeyLess(b, a) {
      KeyLessTransitive(a, b, a);
      KeyLessIrreflexive(a);
    }
  }

  /** Members strictly increase by key: sorted and without a duplicate key. */
  predicate SortedKeys(ms: seq<Member>)
  {
    forall i, j | 0 <= i < j < |ms| :: KeyLess(ms[i].key, ms[j].key)
  }

  /** Every object anywhere inside `v` keeps its members sorted by key. */
  predicate WellFormed(v: Value)
  {
    match v
    case Array(items) => forall i | 0 <= i < |items| :: WellFormed(items[i])
    case Object(ms) => SortedKeys(ms) && forall i | 0 <= i < |ms| :: WellFormed(ms[i].value)
    case _ => true
  }

  /** The value stored under `key`, looking at the first member that has it. */
  function Lookup(ms: seq<Member>, key: string): Option<Value>
  {
    if |ms| == 0 then None
    else if ms[0].key == key then Some(ms[0].value)
    else Lookup(ms[1..], key)
  }

  function Keys(ms: seq<Member>): set<string>
  {
    set i | 0 <= i < |ms| :: ms[i].key
  }

  lemma {:induction false} LookupKeys(ms: seq<Member>, key: string)
    ensures Lookup(ms, key).Some? <==> key in Keys(ms)
  {
    if |ms| > 0 {
      LookupKeys(ms[1..], key);
      assert Keys(ms) == {ms[0].key} + Keys(ms[1..]) by {
        forall k | k in Keys(ms) ensures k in {ms[0].key} + Keys(ms[1..]) {
          var i :| 0 <= i < |ms| && ms[i].key == k;
          if i > 0 { assert ms[1..][i - 1].key == k; }
        }
        forall k | k in Keys(ms[1..]) ensures k in Keys(ms) {
          var i :| 0 <= i < |ms[1..]| && ms[1..][i].key == k;
          assert ms[i + 1].key == k;
        }
      }
    }
  }

  /** `BTreeMap::insert`: the member for `key` is set to `v`, replacing any earlier value, and
      every other key keeps its value. */
  function Insert(ms: seq<Member>, key: string, v: Value): (r: seq<Member>)
    ensures Lookup(r, key) == Some(v)
    ensures forall k :: k != key ==> Lookup(r, k) == Lookup(ms, k)
    ensures forall i | 0 <= i < |r| :: r[i] == Member(key, v) || r[i] in ms
  {
    if |ms| == 0 then [Member(key, v)]
    else if ms[0].key == key then [Member(key, v)] + ms[1..]
    else if KeyLess(key, ms[0].key) then [Member(key, v)] + ms
    else [ms[0]] + Insert(ms[1..], key, v)
  }

  /** Inserting into a sorted member list keeps it sorted, and adds a member exactly when the key
      was absent. */
  lemma {:induction false} InsertSorted(ms: seq<Member>, key: string, v: Value)
    requires SortedKeys(ms)
    ensures SortedKeys(Insert(ms, key, v))
    ensures |Insert(ms, key, v)| == |ms| + 1 <==> Lookup(ms, key).None?
    ensures Lookup(ms, key).Some? ==> |Insert(ms, key, v)| == |ms|
  {
    if |ms| == 0 {
    } else if ms[0].key == key {
      ReplaceFirstSorted(ms, Member(key, v));
    } else if KeyLess(key, ms[0].key) {
      ConsSorted(Member(key, v), ms);
      LookupAbsentBelow(ms, key);
    } else {
      assert SortedKeys(ms[1..]);
      InsertSorted(ms[1..], key, v);
      KeyLessTotal(key, ms[0].key);
      InsertAbove(ms, key, v);
      ConsSorted(ms[0], Insert(ms[1..], key, v));
    }
  }

  /** A member whose key is below every key of a sorted list can go in front of it. */
  lemma ConsSorted(m: Member, ms: seq<Member>)
    requires SortedKeys(ms)
    requires |ms| > 0 ==> KeyLess(m.key, ms[0].key)
    ensures SortedKeys([m] + ms)
  {
    var r := [m] + ms;
    forall i, j | 0 <= i < j < |r| ensures KeyLess(r[i].key, r[j].key) {
      if i == 0 && j > 1 {
        KeyLessTransitive(m.key, ms[0].key, ms[j - 1].key);
      }
    }
  }

  /** Replacing the first member by one with the same key keeps a list sorted. */
  lemma ReplaceFirstSorted(ms: seq<Member>, m: Member)
    requires SortedKeys(ms) && |ms| > 0 && m.key == ms[0].key
    ensures SortedKeys([m] + ms[1..])
  {
    var r := [m] + ms[1..];
    forall i, j | 0 <= i < j < |r| ensures KeyLess(r[i].key, r[j].key) {
      assert r[i].key == ms[i].key && r[j].key == ms[j].key;
    }
  }

  /** Inserting a key above the first key of a sorted list into the rest of the list keeps every
      member there above the first key. */
  lemma InsertAbove(ms: seq<Member>, key: string, v: Value)
    requires SortedKeys(ms) && |ms| > 0 && KeyLess(ms[0].key, key)
    ensures var tail := Insert(ms[1..], key, v); |tail| > 0 && KeyLess(ms[0].key, tail[0].key)
  {
    var tail := Insert(ms[1..], key, v);
    if tail[0] != Member(key, v) {
      assert tail[0] in ms[1..];
      var i :| 0 <= i < |ms[1..]| && ms[1..][i] == tail[0];
      assert ms[i + 1] == tail[0];
    }
  }

  /** In a sorted member list, a key below the first key is absent. */
  lemma {:induction false} LookupAbsentBelow(ms: seq<Member>, key: string)
    requires SortedKeys(ms) && |ms| > 0 && KeyLess(key, ms[0].key)
    ensures Lookup(ms, key).None?
  {
    KeyLessIrreflexive(key);
    if |ms| > 1 {
      KeyLessTransitive(key, ms[0].key, ms[1].key);
      assert SortedKeys(ms[1..]);
      LookupAbsentBelow(ms[1..], key);
    }
  }

  /** Inserting a well-formed value into a well-formed object keeps it well formed. */
  lemma InsertWellFormed(ms: seq<Member>, key: string, v: Value)
    requires WellFormed(Object(ms)) && WellFormed(v)
    ensures WellFormed(Object(Insert(ms, key, v)))
  {
    InsertSorted(ms, key, v);
    var r := Insert(ms, key, v);
    forall i | 0 <= i < |r| ensures WellFormed(r[i].value) {
      if r[i] != Member(key, v) {
        var j :| 0 <= j < |ms| && ms[j] == r[i];
      }
    }
  }

  /** Inserting the members of `ms` one after the other, as a JSON object's members are read. */
  function InsertAll(acc: seq<Member>, ms: seq<Member>): seq<Member>
    decreases |ms|
  {
    if |ms| == 0 then acc else InsertAll(Insert(acc, ms[0].key, ms[0].value), ms[1..])
  }

  /** serde_json's `value[key]` on a `&str`: the member of an object, and `Null` for a missing key
      or a value that is not an object. */
  function Index(v: Value, key: string): Value
  {
    if v.Object? then Lookup(v.members, key).GetOr(Null) else Null
  }

  /** When every key already present is below `key`, inserting appends. */
  lemma {:induction false} InsertAtEnd(ms: seq<Member>, key: string, v: Value)
    requires forall i | 0 <= i < |ms| :: KeyLess(ms[i].key, key)
    ensures Insert(ms, key, v) == ms + [Member(key, v)]
  {
    if |ms| > 0 {
      var m := Member(key, v);
      KeyLessIrreflexive(key);
      KeyLessAsymmetric(ms[0].key, key);
      assert ms[0].key != key && !KeyLess(key, ms[0].key);
      assert Insert(ms, key, v) == [ms[0]] + Insert(ms[1..], key, v);
      forall i | 0 <= i < |ms[1..]| ensures KeyLess(ms[1..][i].key, key) {
        assert ms[1..][i] == ms[i + 1];
      }
      InsertAtEnd(ms[1..], key, v);
      assert ms == [ms[0]] + ms[1..];
      assert [ms[0]] + (ms[1..] + [m]) == ms + [m];
    }
  }

  /** Inserting members that are already in key order, after a prefix whose keys are all smaller,
      just appends them: the object serde_json builds from sorted text is that text's member list. */
  lemma {:induction false} InsertAllSorted(acc: seq<Member>, ms: seq<Member>)
    requires SortedKeys(acc + ms)
    ensures InsertAll(acc, ms) == acc + ms
    decreases |ms|
  {
    if |ms| > 0 {
      var all := acc + ms;
      forall i | 0 <= i < |acc| ensures KeyLess(acc[i].key, ms[0].key) {
        assert all[i] == acc[i] && all[|acc|] == ms[0];
      }
      InsertAtEnd(acc, ms[0].key, ms[0].value);
      assert (acc + [ms[0]]) + ms[1..] == all;
      InsertAllSorted(acc + [ms[0]], ms[1..]);
    }
  }

  /** The value serde_json builds when it reads the text of `v`: every object is rebuilt by
      inserting its members in order, so keys end up sorted and a repeated key keeps its last
      value. */
  function Normalize(v: Value): Value
  {
    match v
    case Array(items) => Array(NormalizeItems(items))
    case Object(ms) => Object(InsertAll([], NormalizeMembers(ms)))
    case _ => v
  }

  function NormalizeItems(items: seq<Value>): (r: seq<Value>)
    ensures |r| == |items|
  {
    if |items| == 0 then [] else [Normalize(items[0])] + NormalizeItems(items[1..])
  }

  function NormalizeMembers(ms: seq<Member>): (r: seq<Member>)
    ensures |r| == |ms|
    ensures forall i | 0 <= i < |ms| :: r[i].key == ms[i].key
  {
    if |ms| == 0 then [] else [Member(ms[0].key, Normalize(ms[0].value))] + NormalizeMembers(ms[1..])
  }

  /** A well-formed value is already in the form serde_json builds. */
  lemma {:induction false} NormalizeWellFormed(v: Value)
    requires WellFormed(v)
    ensures Normalize(v) == v
  {
    match v
    case Array(items) => NormalizeItemsWellFormed(items);
    case Object(ms) =>
      NormalizeMembersWellFormed(ms);
      InsertAllSorted([], ms);
      assert [] + ms == ms;
    case _ =>
  }

  lemma {:induction false} NormalizeItemsWellFormed(items: seq<Value>)
    requires forall i | 0 <= i < |items| :: WellFormed(items[i])
    ensures NormalizeItems(items) == items
  {
    if |items| > 0 {
      NormalizeWellFormed(items[0]);
      NormalizeItemsWellFormed(items[1..]);
    }
  }

  lemma {:induction false} NormalizeMembersWellFormed(ms: seq<Member>)
    requires forall i | 0 <= i < |ms| :: WellFormed(ms[i].value)
    ensures NormalizeMembers(ms) == ms
  {
    if |ms| > 0 {
      NormalizeWellFormed(ms[0].value);
      NormalizeMembersWellFormed(ms[1..]);
    }
  }

  /** How many arrays and objects nest inside one another in `v`: none for a scalar, and one more
      than the deepest element or member value for an array or an object. */
  function Depth(v: Value): nat
  {
    match v
    case Array(items) => 1 + ItemsDepth(items)
    case Object(ms) => 1 + MembersDepth(ms)
    case _ => 0
  }

  function ItemsDepth(items: seq<Value>): nat
  {
    if |items| == 0 then 0 else Max(Depth(items[0]), ItemsDepth(items[1..]))
  }

  function MembersDepth(ms: seq<Member>): nat
  {
    if |ms| == 0 then 0 else Max(Depth(ms[0].value), MembersDepth(ms[1..]))
  }

  function Max(a: nat, b: nat): nat
  {
    if a < b then b else a
  }

  /** A list is nested at most `n` deep exactly when each of its elements is. */
  lemma {:induction false} ItemsDepthBound(items: seq<Value>, n: nat)
    ensures ItemsDepth(items) <= n <==> forall i | 0 <= i < |items| :: Depth(items[i]) <= n
  {
    if |items| > 0 {
      ItemsDepthBound(items[1..], n);
      forall i | 1 <= i < |items| ensures items[i] == items[1..][i - 1] {
      }
    }
  }

  /** Members are nested at most `n` deep exactly when each of their values is. */
  lemma {:induction false} MembersDepthBound(ms: seq<Member>, n: nat)
    ensures MembersDepth(ms) <= n <==> forall i | 0 <= i < |ms| :: Depth(ms[i].value) <= n
  {
    if |ms| > 0 {
      MembersDepthBound(ms[1..], n);
      forall i | 1 <= i < |ms| ensures ms[i] == ms[1..][i - 1] {
      }
    }
  }

  /** Inserting a member keeps the members within a depth bound both old and new respect. */
  lemma {:induction false} InsertDepth(ms: seq<Member>, key: string, v: Value, n: nat)
    requires MembersDepth(ms) <= n && Depth(v) <= n
    ensures MembersDepth(Insert(ms, key, v)) <= n
  {
    if |ms| > 0 && ms[0].key != key && !KeyLess(key, ms[0].key) {
      InsertDepth(ms[1..], key, v, n);
      assert Insert(ms, key, v)[1..] == Insert(ms[1..], key, v);
    } else if |ms| > 0 {
      var r := Insert(ms, key, v);
      assert r[1..] == (if ms[0].key == key then ms[1..] else ms);
    }
  }
}
