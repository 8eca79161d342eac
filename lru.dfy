/**
 * The eviction container: a recency list (front = most recently used) and an
 * index from key to list node, with a fixed capacity. `cap <= 0` means no
 * capacity limit.
 *
 * A node is named by a `NodeId`. The list is the sequence `order` of live
 * node ids; `payload` gives the entry each node holds and, as in Go's
 * container/list, a node keeps its entry after it is unlinked. The index maps
 * each key to its live node.
 */
module Lru {
  import opened Wrappers

  type NodeId = nat

  /** One cached mapping. The key never changes; the rest is updated in place. */
  class CacheEntry<K, V> {
    const key: K
    var value: V
    var access: int
    var write: int

    constructor (key: K, value: V, access: int, write: int)
      ensures this.key == key && this.value == value
      ensures this.access == access && this.write == write
    {
      this.key := key;
      this.value := value;
      this.access := access;
      this.write := write;
    }
  }

  /** The element at position `i`; naming it keeps `Distinct` from being applied to every index in sight. */
  function At<T>(s: seq<T>, i: nat): T
    requires i < |s|
  {
    s[i]
  }

  /** No element occurs twice. */
  predicate Distinct<T(==)>(s: seq<T>) {
    forall i, j :: 0 <= i < j < |s| ==> At(s, i) != At(s, j)
  }

  /** In a list without duplicates, equal elements sit at the same position. */
  lemma DistinctAt<T>(s: seq<T>, i: nat, j: nat)
    requires Distinct(s) && i < |s| && j < |s|
    ensures s[i] == s[j] ==> i == j
  {
    if i < j {
      assert At(s, i) != At(s, j);
    } else if j < i {
      assert At(s, j) != At(s, i);
    }
  }

  /** Position of `x` in `s`: its first occurrence. */
  function IndexOf<T(==)>(s: seq<T>, x: T): (i: nat)
    requires x in s
    ensures i < |s| && s[i] == x
  {
    if s[0] == x then 0 else IndexOf(s[1..], x) + 1
  }

  /** In a list without duplicates, an element occurs only at its position. */
  lemma IndexOfDistinct<T>(s: seq<T>, x: T)
    requires Distinct(s) && x in s
    ensures forall j :: 0 <= j < |s| && s[j] == x ==> j == IndexOf(s, x)
  {
    forall j | 0 <= j < |s| && s[j] == x ensures j == IndexOf(s, x) {
      DistinctAt(s, j, IndexOf(s, x));
    }
  }

  /** `s` with (the first occurrence of) `x` unlinked; the others keep their relative order. */
  function Without<T(==)>(s: seq<T>, x: T): (r: seq<T>)
    ensures x !in s ==> r == s
    ensures x in s ==> |r| == |s| - 1
  {
    if s == [] then []
    else if s[0] == x then s[1..]
    else
      assert x in s ==> x in s[1..] by {
        if x in s {
          var j :| 0 <= j < |s| && s[j] == x;
          assert s[1..][j - 1] == x;
        }
      }
      assert s == [s[0]] + s[1..];
      [s[0]] + Without(s[1..], x)
  }

  /** Dropping the head of a list without duplicates leaves one without duplicates and without the head. */
  lemma DistinctTail<T>(s: seq<T>)
    requires Distinct(s) && s != []
    ensures Distinct(s[1..]) && s[0] !in s[1..]
  {
    var t := s[1..];
    forall a, b | 0 <= a < b < |t| ensures At(t, a) != At(t, b) {
      assert At(s, a + 1) != At(s, b + 1);
    }
    forall k | 0 <= k < |t| ensures t[k] != s[0] {
      assert At(s, 0) != At(s, k + 1);
    }
  }

  /** In a list without duplicates, `s[i]` occurs only at `i`, so unlinking it splices out that position. */
  lemma {:induction false} WithoutAt<T>(s: seq<T>, i: nat)
    requires Distinct(s) && i < |s|
    ensures Without(s, s[i]) == s[..i] + s[i + 1..]
    decreases i
  {
    if i == 0 {
      assert s[..0] + s[1..] == s[1..];
    } else {
      DistinctAt(s, 0, i);
      DistinctTail(s);
      var t := s[1..];
      WithoutAt(t, i - 1);
      assert t[i - 1] == s[i];
      assert [s[0]] + (t[..i - 1] + t[i..]) == s[..i] + s[i + 1..];
    }
  }

  /** Splicing one position out of a list without duplicates keeps it without duplicates and drops that element. */
  lemma SpliceDistinct<T>(s: seq<T>, i: nat)
    requires Distinct(s) && i < |s|
    ensures Distinct(s[..i] + s[i + 1..])
    ensures s[i] !in s[..i] + s[i + 1..]
  {
    var o := s[..i] + s[i + 1..];
    forall a, b | 0 <= a < b < |o| ensures At(o, a) != At(o, b) {
      var a', b' := if a < i then a else a + 1, if b < i then b else b + 1;
      assert o[a] == s[a'] && o[b] == s[b'];
      assert At(s, a') != At(s, b');
    }
    forall k | 0 <= k < |o| ensures o[k] != s[i] {
      var k' := if k < i then k else k + 1;
      assert o[k] == s[k'];
      DistinctAt(s, k', i);
    }
  }

  /** In a list without duplicates, unlinking `x` leaves exactly the other elements. */
  lemma WithoutMembers<T>(s: seq<T>, x: T)
    requires Distinct(s)
    ensures Distinct(Without(s, x))
    ensures forall y :: y in Without(s, x) <==> y in s && y != x
  {
    if x in s {
      var i := IndexOf(s, x);
      WithoutAt(s, i);
      SpliceDistinct(s, i);
      SpliceKeeps(s, i);
      SpliceWithin(s, i);
    }
  }

  /** Cutting out position `i` keeps every other element. */
  lemma SpliceKeeps<T>(s: seq<T>, i: nat)
    requires i < |s|
    ensures forall y :: y in s && y != s[i] ==> y in s[..i] + s[i + 1..]
  {
    var o := s[..i] + s[i + 1..];
    forall y | y in s && y != s[i] ensures y in o {
      var j :| 0 <= j < |s| && s[j] == y;
      assert o[if j < i then j else j - 1] == y;
    }
  }

  /** Cutting out position `i` of a list without duplicates removes its element and adds none. */
  lemma SpliceWithin<T>(s: seq<T>, i: nat)
    requires i < |s| && Distinct(s)
    ensures forall y :: y in s[..i] + s[i + 1..] ==> y in s && y != s[i]
  {
    var o := s[..i] + s[i + 1..];
    forall y | y in o ensures y in s && y != s[i] {
      var j :| 0 <= j < |o| && o[j] == y;
      var k := if j < i then j else j + 1;
      assert s[k] == y;
      DistinctAt(s, k, i);
    }
  }

  lemma DistinctCons<T>(x: T, s: seq<T>)
    requires x !in s && Distinct(s)
    ensures Distinct([x] + s)
  {
    var o := [x] + s;
    forall a, b | 0 <= a < b < |o| ensures At(o, a) != At(o, b) {
      assert o[b] == s[b - 1];
      if a > 0 {
        assert o[a] == s[a - 1];
        assert At(s, a - 1) != At(s, b - 1);
      }
    }
  }

  /** Moving the element at `i` to the front permutes a list without duplicates. */
  lemma MoveToFrontPermutes<T>(s: seq<T>, i: nat)
    requires Distinct(s) && i < |s|
    ensures var o := [s[i]] + Without(s, s[i]);
      && o == [s[i]] + (s[..i] + s[i + 1..])
      && Distinct(o) && |o| == |s|
      && multiset(o) == multiset(s)
  {
    WithoutAt(s, i);
    SpliceDistinct(s, i);
    DistinctCons(s[i], s[..i] + s[i + 1..]);
    assert s == s[..i] + [s[i]] + s[i + 1..];
  }

  /** Unlinking the back element of a list without duplicates leaves the prefix before it. */
  lemma WithoutLast<T>(s: seq<T>)
    requires Distinct(s) && s != []
    ensures Without(s, s[|s| - 1]) == s[..|s| - 1]
    ensures Distinct(s[..|s| - 1]) && s[|s| - 1] !in s[..|s| - 1]
  {
    WithoutAt(s, |s| - 1);
    SpliceDistinct(s, |s| - 1);
    assert s[..|s| - 1] + s[|s|..] == s[..|s| - 1];
  }

  /** Appending an element not yet present keeps a list without duplicates. */
  lemma DistinctSnoc<T>(s: seq<T>, x: T)
    requires Distinct(s) && x !in s
    ensures Distinct(s + [x])
  {
    var o := s + [x];
    forall a, b | 0 <= a < b < |o| ensures At(o, a) != At(o, b) {
      assert o[a] == s[a];
      if b < |s| {
        assert o[b] == s[b];
        assert At(s, a) != At(s, b);
      }
    }
  }

  /**
   * A walk over `ids` that has kept `kept` of the elements before position
   * `pos` sees the list `kept + ids[pos..]`: the element it stands on follows
   * the kept ones, and unlinking it splices it out.
   */
  lemma SplitAt<T>(kept: seq<T>, ids: seq<T>, pos: nat, order: seq<T>)
    requires pos < |ids| && order == kept + ids[pos..]
    ensures |order| == |kept| + |ids| - pos
    ensures order[|kept|] == ids[pos]
    ensures pos + 1 < |ids| ==> order[|kept| + 1] == ids[pos + 1]
    ensures ids[pos] !in kept ==> Without(order, ids[pos]) == kept + ids[pos + 1..]
  {
    assert |order| == |kept| + |ids[pos..]|;
    assert ids[pos..] == [ids[pos]] + ids[pos + 1..];
    if ids[pos] !in kept {
      WithoutFirst(kept, ids[pos], ids[pos + 1..]);
    }
  }

  /** Moving the boundary between a prefix and a suffix of `ids` one place on. */
  lemma ShiftOne<T>(kept: seq<T>, ids: seq<T>, pos: nat)
    requires pos < |ids|
    ensures kept + ids[pos..] == (kept + [ids[pos]]) + ids[pos + 1..]
  {
    assert ids[pos..] == [ids[pos]] + ids[pos + 1..];
  }

  /** Removing `x` from a list whose first occurrence of `x` follows `a` drops exactly that occurrence. */
  lemma {:induction false} WithoutFirst<T>(a: seq<T>, x: T, b: seq<T>)
    requires x !in a
    ensures Without(a + ([x] + b), x) == a + b
    decreases |a|
  {
    if a == [] {
      assert a + ([x] + b) == [x] + b && a + b == b;
    } else {
      var t := a[1..];
      assert a + ([x] + b) == [a[0]] + (t + ([x] + b));
      assert a + b == [a[0]] + (t + b);
      WithoutFirst(t, x, b);
    }
  }

  // ---------------------------------------------------------------------
  // Reference model: the container's keys, most recent first.

  /** A hit: move `k` to the front. */
  function Touch<K(==)>(s: seq<K>, k: K): seq<K> {
    [k] + Without(s, k)
  }

  /** The key that adding an absent key `k` to a full list evicts: the back one. */
  function Evicted<K(==)>(s: seq<K>, k: K, cap: int): (r: Option<K>)
    ensures r.Some? <==> k !in s && 0 < cap <= |s|
    ensures r.Some? ==> r.value == s[|s| - 1]
  {
    if k !in s && 0 < cap <= |s| then Some(s[|s| - 1]) else None
  }

  /** Adding `k`: move it to the front if present, else push it, dropping the back key when full. */
  function Insert<K(==)>(s: seq<K>, k: K, cap: int): seq<K> {
    if k in s then Touch(s, k)
    else if cap <= 0 || |s| < cap then [k] + s
    else [k] + s[..|s| - 1]
  }

  /** Adding never pushes a list that fits within a positive capacity past it. */
  lemma InsertKeepsCapacity<K>(s: seq<K>, k: K, cap: int)
    requires 0 < cap && |s| <= cap
    ensures |Insert(s, k, cap)| <= cap
  {
  }

  /** The added key is in front; the others are those before minus the evicted one. */
  lemma InsertMembers<K>(s: seq<K>, k: K, cap: int)
    requires Distinct(s)
    ensures Insert(s, k, cap)[0] == k
    ensures forall y :: y in Insert(s, k, cap) <==> y == k || (y in s && Evicted(s, k, cap) != Some(y))
    ensures Distinct(Insert(s, k, cap))
    ensures |Insert(s, k, cap)| == |s| + (if k !in s && (cap <= 0 || |s| < cap) then 1 else 0)
  {
    if k in s {
      MoveToFrontPermutes(s, IndexOf(s, k));
    } else if cap <= 0 || |s| < cap {
      DistinctCons(k, s);
    } else {
      WithoutLast(s);
      DistinctCons(k, s[..|s| - 1]);
    }
  }

  /**
   * A container of two slots given keys 1, 2, 3 keeps 3 and 2, newest
   * first; a hit on 2 then puts 2 in front of 3.
   */
  lemma TwoSlotScenario()
    ensures var s := Insert(Insert(Insert([], 1, 2), 2, 2), 3, 2);
      && s == [3, 2]
      && Insert(s, 2, 2) == [2, 3]
  {
    var s := Insert(Insert(Insert([], 1, 2), 2, 2), 3, 2);
    assert Insert([], 1, 2) == [1];
    assert Insert([1], 2, 2) == [2, 1];
    assert [2, 1][..1] == [2];
    assert s == [3, 2];
    assert Without([3, 2], 2) == [3] by {
      assert [3, 2][1..] == [2];
    }
  }

  /** Every node in `ids` has an entry in `p`. */
  predicate AllIn<K, V>(ids: seq<NodeId>, p: map<NodeId, CacheEntry<K, V>>) {
    forall id :: id in ids ==> id in p
  }

  /** The keys held by the nodes `ids`, in the same order. */
  function KeysOf<K, V>(ids: seq<NodeId>, p: map<NodeId, CacheEntry<K, V>>): (r: seq<K>)
    requires AllIn(ids, p)
    ensures |r| == |ids|
    decreases |ids|
  {
    if ids == [] then []
    else
      assert forall id :: id in ids[1..] ==> id in ids;
      [p[ids[0]].key] + KeysOf(ids[1..], p)
  }

  /** Position by position, the keys are those of the nodes. */
  lemma {:induction false} KeysOfAt<K, V>(ids: seq<NodeId>, p: map<NodeId, CacheEntry<K, V>>)
    requires AllIn(ids, p)
    ensures forall i :: 0 <= i < |ids| ==> KeysOf(ids, p)[i] == p[ids[i]].key
    decreases |ids|
  {
    if ids != [] {
      assert forall id :: id in ids[1..] ==> id in ids;
      KeysOfAt(ids[1..], p);
      assert forall i :: 1 <= i < |ids| ==> ids[1..][i - 1] == ids[i];
    }
  }

  /** The keys are read through the node ids, so a map that agrees on keys gives the same keys. */
  lemma KeysOfFrame<K, V>(ids: seq<NodeId>, p: map<NodeId, CacheEntry<K, V>>, q: map<NodeId, CacheEntry<K, V>>)
    requires AllIn(ids, p) && AllIn(ids, q)
    requires forall id :: id in ids ==> q[id].key == p[id].key
    ensures KeysOf(ids, q) == KeysOf(ids, p)
  {
    var a, b := KeysOf(ids, q), KeysOf(ids, p);
    KeysOfAt(ids, q);
    KeysOfAt(ids, p);
    forall i | 0 <= i < |ids| ensures a[i] == b[i] {
      assert ids[i] in ids;
    }
  }

  /** Splicing a node out of the list splices its key out of the keys. */
  lemma KeysOfSplice<K, V>(ids: seq<NodeId>, p: map<NodeId, CacheEntry<K, V>>, i: nat)
    requires AllIn(ids, p) && i < |ids|
    ensures AllIn(ids[..i] + ids[i + 1..], p)
    ensures KeysOf(ids[..i] + ids[i + 1..], p) == KeysOf(ids, p)[..i] + KeysOf(ids, p)[i + 1..]
  {
    assert ids == ids[..i] + [ids[i]] + ids[i + 1..];
    var o := ids[..i] + ids[i + 1..];
    var ks := KeysOf(ids, p);
    var lhs := KeysOf(o, p);
    KeysOfAt(ids, p);
    KeysOfAt(o, p);
    var rhs := ks[..i] + ks[i + 1..];
    assert |lhs| == |rhs|;
    forall j | 0 <= j < |lhs| ensures lhs[j] == rhs[j] {
      if j < i {
        assert o[j] == ids[j] && rhs[j] == ks[j];
      } else {
        assert o[j] == ids[j + 1] && rhs[j] == ks[j + 1];
      }
    }
  }

  /** Moving the node at `i` to the front of the list moves its key to the front of the keys. */
  lemma KeysOfMoveToFront<K, V>(ids: seq<NodeId>, p: map<NodeId, CacheEntry<K, V>>, q: map<NodeId, CacheEntry<K, V>>, i: nat)
    requires AllIn(ids, p) && AllIn(ids, q)
    requires forall id :: id in ids ==> q[id].key == p[id].key
    requires Distinct(ids) && i < |ids| && Distinct(KeysOf(ids, p))
    ensures AllIn([ids[i]] + Without(ids, ids[i]), q)
    ensures KeysOf([ids[i]] + Without(ids, ids[i]), q) == Touch(KeysOf(ids, p), p[ids[i]].key)
  {
    var ks := KeysOf(ids, p);
    KeysOfAt(ids, p);
    assert ks[i] == p[ids[i]].key;
    WithoutAt(ids, i);
    WithoutAt(ks, i);
    WithoutMembers(ids, ids[i]);
    var rest := ids[..i] + ids[i + 1..];
    KeysOfSplice(ids, p, i);
    KeysOfSplice(ids, q, i);
    KeysOfFrame(rest, p, q);
    var o := [ids[i]] + rest;
    assert o[1..] == rest;
    assert KeysOf(o, q) == [q[ids[i]].key] + KeysOf(rest, q);
  }

  /** Pushing a node in front of the list pushes its key in front of the keys. */
  lemma KeysOfPush<K, V>(id: NodeId, ids: seq<NodeId>, p: map<NodeId, CacheEntry<K, V>>, q: map<NodeId, CacheEntry<K, V>>)
    requires AllIn(ids, p) && AllIn(ids, q) && id in q
    requires forall x :: x in ids ==> q[x].key == p[x].key
    ensures AllIn([id] + ids, q)
    ensures KeysOf([id] + ids, q) == [q[id].key] + KeysOf(ids, p)
  {
    KeysOfFrame(ids, p, q);
    assert ([id] + ids)[1..] == ids;
  }

  /**
   * The list `order` and index `index` are `ids` and `ix` with the node at
   * position `at` unlinked, or unchanged when `at` is None: the keys in
   * recency order lose that node's key, and so does the key-to-entry map.
   */
  ghost predicate Unlinked<K, V>(ids: seq<NodeId>, ix: map<K, NodeId>, order: seq<NodeId>, index: map<K, NodeId>,
                                 p: map<NodeId, CacheEntry<K, V>>, at: Option<nat>)
  {
    if at.None? then order == ids && index == ix
    else
      && at.value < |ids| && AllIn(ids, p) && AllIn(order, p)
      && order == Without(ids, ids[at.value])
      && KeysOf(order, p) == Without(KeysOf(ids, p), p[ids[at.value]].key)
      && EntriesOf(index, p) == EntriesOf(ix, p) - {p[ids[at.value]].key}
  }

  /** Drop the evicted key, if any, from a key-to-entry map. */
  function Drop<K, E>(m: map<K, E>, evicted: Option<K>): map<K, E> {
    if evicted.Some? then m - {evicted.value} else m
  }

  // ---------------------------------------------------------------------
  // The container's invariant, stated over its four fields, and what each
  // structural change does to it.

  /** List and index agree: each live node is indexed under its own key and nothing else is. */
  ghost predicate Consistent<K, V>(order: seq<NodeId>, payload: map<NodeId, CacheEntry<K, V>>, index: map<K, NodeId>, nextId: NodeId)
    ensures Consistent(order, payload, index, nextId) ==> forall id :: id in order ==> id < nextId
    ensures Consistent(order, payload, index, nextId) ==> forall k :: k in index ==> index[k] in payload
  {
    && Distinct(order)
    && (forall id :: id in order ==> id in payload && payload[id].key in index && index[payload[id].key] == id)
    && (forall k :: k in index ==> index[k] in order && payload[index[k]].key == k)
    && (forall id :: id in payload ==> id < nextId)
  }

  /** The entry each indexed key maps to. */
  ghost function EntriesOf<K, V>(index: map<K, NodeId>, payload: map<NodeId, CacheEntry<K, V>>): map<K, CacheEntry<K, V>> {
    map k | k in index && index[k] in payload :: payload[index[k]]
  }

  /** Under the invariant no key is listed twice and the index holds exactly the listed keys. */
  lemma ConsistentKeys<K, V>(order: seq<NodeId>, payload: map<NodeId, CacheEntry<K, V>>, index: map<K, NodeId>, nextId: NodeId)
    requires Consistent(order, payload, index, nextId)
    ensures AllIn(order, payload)
    ensures Distinct(KeysOf(order, payload))
    ensures forall k :: k in index <==> k in KeysOf(order, payload)
    ensures EntriesOf(index, payload).Keys == index.Keys
  {
    var ks := KeysOf(order, payload);
    KeysOfAt(order, payload);
    forall a, b | 0 <= a < b < |ks| ensures At(ks, a) != At(ks, b) {
      assert order[a] in order && order[b] in order;
      assert At(order, a) != At(order, b);
    }
    forall k | k in index ensures k in ks {
      var i := IndexOf(order, index[k]);
      assert ks[i] == k;
    }
    forall k | k in ks ensures k in index {
      var i :| 0 <= i < |ks| && ks[i] == k;
      assert order[i] in order;
    }
  }

  /** Giving a node another entry for the same key keeps the invariant and updates that key's entry. */
  lemma SwapConsistent<K, V>(order: seq<NodeId>, payload: map<NodeId, CacheEntry<K, V>>, index: map<K, NodeId>, nextId: NodeId, en: CacheEntry<K, V>)
    requires Consistent(order, payload, index, nextId) && en.key in index
    ensures Consistent(order, payload[index[en.key] := en], index, nextId)
    ensures EntriesOf(index, payload[index[en.key] := en]) == EntriesOf(index, payload)[en.key := en]
  {
    var id := index[en.key];
    var p := payload[id := en];
    forall x | x in order ensures x in p && p[x].key in index && index[p[x].key] == x {
      if x == id {
        assert p[x].key == en.key;
      } else {
        assert p[x] == payload[x];
      }
    }
    forall k | k in index ensures index[k] in order && p[index[k]].key == k {
      if index[k] == id {
        assert payload[id].key == en.key;
      }
    }
    assert EntriesOf(index, p) == EntriesOf(index, payload)[en.key := en];
  }

  /** Any reordering of the live nodes keeps the invariant. */
  lemma ReorderConsistent<K, V>(order: seq<NodeId>, o: seq<NodeId>, payload: map<NodeId, CacheEntry<K, V>>, index: map<K, NodeId>, nextId: NodeId)
    requires Consistent(order, payload, index, nextId)
    requires Distinct(o) && multiset(o) == multiset(order)
    ensures Consistent(o, payload, index, nextId)
  {
    forall id | id in o ensures id in order {
      assert id in multiset(o);
    }
    forall k | k in index ensures index[k] in o {
      assert index[k] in multiset(order);
    }
  }

  /** A hit on a live node: the list is reordered, its key moves to the front. */
  lemma MoveStep<K, V>(order: seq<NodeId>, payload: map<NodeId, CacheEntry<K, V>>, index: map<K, NodeId>, nextId: NodeId, id: NodeId)
    requires Consistent(order, payload, index, nextId) && id in order
    ensures Consistent([id] + Without(order, id), payload, index, nextId)
    ensures KeysOf([id] + Without(order, id), payload) == Touch(KeysOf(order, payload), payload[id].key)
  {
    ConsistentKeys(order, payload, index, nextId);
    var i := IndexOf(order, id);
    MoveToFrontPermutes(order, i);
    ReorderConsistent(order, [id] + Without(order, id), payload, index, nextId);
    KeysOfMoveToFront(order, payload, payload, i);
  }

  /** Adding a present key: its node takes the new entry and moves to the front. */
  lemma ReplaceStep<K, V>(order: seq<NodeId>, payload: map<NodeId, CacheEntry<K, V>>, index: map<K, NodeId>, nextId: NodeId, en: CacheEntry<K, V>)
    requires Consistent(order, payload, index, nextId) && en.key in index
    ensures var id := index[en.key]; var p := payload[id := en];
      && Consistent([id] + Without(order, id), p, index, nextId)
      && KeysOf([id] + Without(order, id), p) == Touch(KeysOf(order, payload), en.key)
      && EntriesOf(index, p) == EntriesOf(index, payload)[en.key := en]
  {
    var id := index[en.key];
    var p := payload[id := en];
    ConsistentKeys(order, payload, index, nextId);
    var i := IndexOf(order, id);
    MoveToFrontPermutes(order, i);
    SwapConsistent(order, payload, index, nextId, en);
    ReorderConsistent(order, [id] + Without(order, id), p, index, nextId);
    KeysOfMoveToFront(order, payload, p, i);
  }

  /** Linking a node that is not in the list in front, under a key not yet indexed, keeps the invariant. */
  lemma LinkConsistent<K, V>(order: seq<NodeId>, payload: map<NodeId, CacheEntry<K, V>>, index: map<K, NodeId>, nextId: NodeId, id: NodeId, en: CacheEntry<K, V>, bound: NodeId)
    requires Consistent(order, payload, index, nextId) && en.key !in index
    requires id !in order && id < bound && nextId <= bound
    ensures Consistent([id] + order, payload[id := en], index[en.key := id], bound)
    ensures EntriesOf(index[en.key := id], payload[id := en]) == EntriesOf(index, payload)[en.key := en]
  {
    var p := payload[id := en];
    var ix := index[en.key := id];
    var o := [id] + order;
    DistinctCons(id, order);
    forall x | x in o ensures x in p && p[x].key in ix && ix[p[x].key] == x {
      if x != id {
        assert x in order && p[x] == payload[x];
        assert payload[x].key != en.key;
      }
    }
    forall k | k in ix ensures ix[k] in o && p[ix[k]].key == k {
      if k != en.key {
        assert index[k] in order;
      }
    }
    assert EntriesOf(ix, p) == EntriesOf(index, payload)[en.key := en];
  }

  /** Unlinking a live node and dropping its key keeps the invariant. */
  lemma UnlinkConsistent<K, V>(order: seq<NodeId>, payload: map<NodeId, CacheEntry<K, V>>, index: map<K, NodeId>, nextId: NodeId, id: NodeId)
    requires Consistent(order, payload, index, nextId) && id in order
    ensures Consistent(Without(order, id), payload, index - {payload[id].key}, nextId)
    ensures EntriesOf(index - {payload[id].key}, payload) == EntriesOf(index, payload) - {payload[id].key}
    ensures id !in Without(order, id)
  {
    var key := payload[id].key;
    var ix := index - {key};
    var o := Without(order, id);
    WithoutMembers(order, id);
    forall x | x in o ensures x in payload && payload[x].key in ix && ix[payload[x].key] == x {
      assert x in order && x != id;
    }
    forall k | k in ix ensures ix[k] in o && payload[ix[k]].key == k {
      assert index[k] != id;
    }
    assert EntriesOf(ix, payload) == EntriesOf(index, payload) - {key};
  }

  /** Adding an absent key with room to spare: a new node goes in front. */
  lemma PushStep<K, V>(order: seq<NodeId>, payload: map<NodeId, CacheEntry<K, V>>, index: map<K, NodeId>, nextId: NodeId, en: CacheEntry<K, V>)
    requires Consistent(order, payload, index, nextId) && en.key !in index
    ensures var p := payload[nextId := en];
      && Consistent([nextId] + order, p, index[en.key := nextId], nextId + 1)
      && KeysOf([nextId] + order, p) == [en.key] + KeysOf(order, payload)
      && EntriesOf(index[en.key := nextId], p) == EntriesOf(index, payload)[en.key := en]
  {
    var p := payload[nextId := en];
    ConsistentKeys(order, payload, index, nextId);
    assert nextId !in order;
    LinkConsistent(order, payload, index, nextId, nextId, en, nextId + 1);
    KeysOfPush(nextId, order, payload, p);
  }

  /** Adding an absent key to a full list: the back node is reused for it and moved to the front. */
  lemma EvictStep<K, V>(order: seq<NodeId>, payload: map<NodeId, CacheEntry<K, V>>, index: map<K, NodeId>, nextId: NodeId, en: CacheEntry<K, V>)
    requires Consistent(order, payload, index, nextId) && en.key !in index && order != []
    ensures var back := order[|order| - 1]; var gone := payload[back].key;
      var p := payload[back := en]; var ix := (index - {gone})[en.key := back];
      && Without(order, back) == order[..|order| - 1]
      && Consistent([back] + order[..|order| - 1], p, ix, nextId)
      && KeysOf(order, payload)[|order| - 1] == gone
      && KeysOf([back] + order[..|order| - 1], p) == [en.key] + KeysOf(order, payload)[..|order| - 1]
      && EntriesOf(ix, p) == (EntriesOf(index, payload) - {gone})[en.key := en]
  {
    var back := order[|order| - 1];
    var gone := payload[back].key;
    var p := payload[back := en];
    var rest := order[..|order| - 1];
    assert back in order;
    ConsistentKeys(order, payload, index, nextId);
    WithoutLast(order);
    UnlinkConsistent(order, payload, index, nextId, back);
    assert en.key !in index - {gone};
    LinkConsistent(rest, payload, index - {gone}, nextId, back, en, nextId);
    KeysOfSplice(order, payload, |order| - 1);
    assert rest == order[..|order| - 1] + order[|order|..];
    KeysOfPush(back, rest, payload, p);
    var ks := KeysOf(order, payload);
    KeysOfAt(order, payload);
    assert ks[|order| - 1] == gone;
    assert ks[..|ks| - 1] == ks[..|order| - 1] + ks[|order|..];
  }

  /** Reusing the back node for an absent key in a full container is the reference model's eviction. */
  lemma RecycleStep<K, V>(order: seq<NodeId>, payload: map<NodeId, CacheEntry<K, V>>, index: map<K, NodeId>, nextId: NodeId,
                          en: CacheEntry<K, V>, cap: int)
    requires Consistent(order, payload, index, nextId) && en.key !in index && 0 < cap <= |order|
    ensures var back := order[|order| - 1]; var gone := payload[back].key;
      var o := [back] + order[..|order| - 1]; var p := payload[back := en]; var ix := (index - {gone})[en.key := back];
      var keys := KeysOf(order, payload);
      && Consistent(o, p, ix, nextId)
      && Evicted(keys, en.key, cap) == Some(gone)
      && KeysOf(o, p) == Insert(keys, en.key, cap)
      && EntriesOf(ix, p) == Drop(EntriesOf(index, payload), Evicted(keys, en.key, cap))[en.key := en]
  {
    ConsistentKeys(order, payload, index, nextId);
    EvictStep(order, payload, index, nextId, en);
  }

  /** Unlinking a live node and dropping its key. */
  lemma UnlinkStep<K, V>(order: seq<NodeId>, payload: map<NodeId, CacheEntry<K, V>>, index: map<K, NodeId>, nextId: NodeId, id: NodeId)
    requires Consistent(order, payload, index, nextId) && id in order
    ensures var key := payload[id].key;
      && Consistent(Without(order, id), payload, index - {key}, nextId)
      && KeysOf(Without(order, id), payload) == Without(KeysOf(order, payload), key)
      && EntriesOf(index - {key}, payload) == EntriesOf(index, payload) - {key}
  {
    ConsistentKeys(order, payload, index, nextId);
    UnlinkConsistent(order, payload, index, nextId, id);
    var ks := KeysOf(order, payload);
    var i := IndexOf(order, id);
    KeysOfAt(order, payload);
    assert ks[i] == payload[id].key;
    WithoutAt(order, i);
    WithoutAt(ks, i);
    KeysOfSplice(order, payload, i);
  }

  class LruCache<K(==), V> {
    const cap: int
    var order: seq<NodeId>
    var payload: map<NodeId, CacheEntry<K, V>>
    var index: map<K, NodeId>
    var nextId: NodeId

    ghost predicate Valid()
      reads this
      ensures Valid() ==> forall k :: k in index ==> index[k] in order && index[k] < nextId
      ensures Valid() ==> forall id :: id in order ==> id in payload && payload[id].key in index
    {
      Consistent(order, payload, index, nextId)
    }

    /** The keys in recency order. */
    ghost function KeyOrder(): seq<K>
      reads this
      requires Valid()
    {
      ConsistentKeys(order, payload, index, nextId);
      KeysOf(order, payload)
    }

    /** The entry each indexed key maps to. */
    ghost function Entries(): map<K, CacheEntry<K, V>>
      reads this
    {
      EntriesOf(index, payload)
    }

    /** The entry object the index holds for `key`, as a frame. */
    ghost function EntrySet(key: K): set<CacheEntry<K, V>>
      reads this
    {
      if key in index && index[key] in payload then {payload[index[key]]} else {}
    }

    /** The abstract effect of adding `en`. */
    twostate predicate Inserted(new en: CacheEntry<K, V>)
      reads this
    {
      && old(Valid()) && Valid()
      && KeyOrder() == Insert(old(KeyOrder()), en.key, cap)
      && Entries() == Drop(old(Entries()), Evicted(old(KeyOrder()), en.key, cap))[en.key := en]
    }

    /** The index holds exactly the listed keys. */
    lemma KeyOrderMatchesIndex()
      requires Valid()
      ensures forall k :: k in index <==> k in KeyOrder()
      ensures Entries().Keys == index.Keys
    {
      ConsistentKeys(order, payload, index, nextId);
    }

    /** No key is listed twice. */
    lemma KeyOrderDistinct()
      requires Valid()
      ensures Distinct(KeyOrder())
    {
      ConsistentKeys(order, payload, index, nextId);
    }

    constructor (cap: int)
      ensures Valid() && this.cap == cap
      ensures order == [] && payload == map[] && index == map[]
    {
      this.cap := cap;
      order := [];
      payload := map[];
      index := map[];
      nextId := 0;
    }

    method Get(key: K) returns (id: NodeId, ok: bool)
      ensures ok <==> key in index
      ensures ok ==> id == index[key]
    {
      ok := key in index;
      id := if ok then index[key] else 0;
    }

    /** The front node, or None for an empty list. */
    function Front(): (r: Option<NodeId>)
      reads this
      ensures r.None? <==> order == []
      ensures r.Some? ==> r.value == order[0]
    {
      if order == [] then None else Some(order[0])
    }

    /** The node after `id`; None for the back node and for a node no longer in the list. */
    function Next(id: NodeId): (r: Option<NodeId>)
      reads this
      requires Valid()
      ensures id !in order ==> r.None?
      ensures forall i {:trigger order[i]} :: 0 <= i < |order| && order[i] == id ==>
        r == if i + 1 < |order| then Some(order[i + 1]) else None
    {
      if id in order then
        var i := IndexOf(order, id);
        IndexOfDistinct(order, id);
        if i + 1 < |order| then Some(order[i + 1]) else None
      else None
    }

    /** Adding a present key: its node takes the new entry and moves to the front. */
    method Replace(en: CacheEntry<K, V>)
      requires Valid() && en.key in index
      modifies this
      ensures Inserted(en)
      ensures payload == old(payload)[old(index[en.key]) := en]
      ensures order == [old(index[en.key])] + Without(old(order), old(index[en.key]))
      ensures index == old(index) && nextId == old(nextId)
      ensures |order| == |old(order)|
    {
      ConsistentKeys(order, payload, index, nextId);
      ghost var keys := KeysOf(order, payload);
      ghost var entries := EntriesOf(index, payload);
      var id := index[en.key];
      ReplaceStep(order, payload, index, nextId, en);
      assert id in order && |Without(order, id)| == |order| - 1;
      payload, order := payload[id := en], [id] + Without(order, id);
      assert KeysOf(order, payload) == Touch(keys, en.key) == Insert(keys, en.key, cap);
      assert EntriesOf(index, payload) == entries[en.key := en];
      assert Evicted(keys, en.key, cap) == None;
    }

    /** Adding an absent key while there is room: a new node goes in front. */
    method Push(en: CacheEntry<K, V>)
      requires Valid() && en.key !in index && (cap <= 0 || |order| < cap)
      modifies this
      ensures Inserted(en)
      ensures order == [old(nextId)] + old(order)
      ensures payload == old(payload)[old(nextId) := en]
      ensures index == old(index)[en.key := old(nextId)]
      ensures nextId == old(nextId) + 1
    {
      ConsistentKeys(order, payload, index, nextId);
      ghost var keys := KeysOf(order, payload);
      ghost var entries := EntriesOf(index, payload);
      PushStep(order, payload, index, nextId, en);
      var id := nextId;
      order, payload, index, nextId := [id] + order, payload[id := en], index[en.key := id], nextId + 1;
      assert KeysOf(order, payload) == [en.key] + keys == Insert(keys, en.key, cap);
      assert EntriesOf(index, payload) == entries[en.key := en];
      assert Evicted(keys, en.key, cap) == None;
    }

    /** Adding an absent key to a full list: the back node is reused for it and moved to the front. */
    method Recycle(en: CacheEntry<K, V>) returns (gone: CacheEntry<K, V>)
      requires Valid() && en.key !in index && 0 < cap <= |order|
      modifies this
      ensures Inserted(en)
      ensures gone == old(payload[order[|order| - 1]])
      ensures payload == old(payload)[old(order[|order| - 1]) := en]
      ensures order == [old(order[|order| - 1])] + old(order[..|order| - 1])
      ensures index == (old(index) - {gone.key})[en.key := old(order[|order| - 1])]
      ensures nextId == old(nextId)
      ensures Evicted(old(KeyOrder()), en.key, cap) == Some(gone.key)
    {
      RecycleStep(order, payload, index, nextId, en, cap);
      var back := order[|order| - 1];
      gone := payload[back];
      payload, order, index := payload[back := en], [back] + order[..|order| - 1], (index - {gone.key})[en.key := back];
    }

    /**
     * Stores `en`: a present key's node takes the new entry and moves to the
     * front; an absent key gets a new front node while there is room; else the
     * back node is reused for it and a copy of its previous entry is returned.
     */
    method Add(en: CacheEntry<K, V>) returns (evicted: CacheEntry?<K, V>)
      requires Valid()
      modifies this
      ensures Inserted(en)
      ensures en.key in old(index) ==>
        var id := old(index[en.key]);
        && evicted == null
        && payload == old(payload)[id := en]
        && order == [id] + Without(old(order), id)
        && index == old(index)
      ensures en.key !in old(index) && (cap <= 0 || |old(order)| < cap) ==>
        && evicted == null
        && order == [old(nextId)] + old(order)
        && payload == old(payload)[old(nextId) := en]
        && index == old(index)[en.key := old(nextId)]
      ensures en.key !in old(index) && !(cap <= 0 || |old(order)| < cap) ==>
        var back := old(order[|order| - 1]);
        var gone := old(payload[back]);
        && evicted != null && fresh(evicted)
        && evicted.key == gone.key && evicted.value == gone.value
        && evicted.access == gone.access && evicted.write == gone.write
        && payload == old(payload)[back := en]
        && order == [back] + old(order[..|order| - 1])
        && index == (old(index) - {gone.key})[en.key := back]
      ensures evicted == null <==> Evicted(old(KeyOrder()), en.key, cap).None?
      ensures evicted != null ==> Evicted(old(KeyOrder()), en.key, cap) == Some(evicted.key)
      ensures 0 < cap && |old(order)| <= cap ==> |order| <= cap
    {
      ConsistentKeys(order, payload, index, nextId);
      if en.key in index {
        Replace(en);
        evicted := null;
      } else if cap <= 0 || |order| < cap {
        Push(en);
        evicted := null;
      } else {
        var gone := Recycle(en);
        evicted := new CacheEntry(gone.key, gone.value, gone.access, gone.write);
      }
    }

    /** Marks node `id` most recently used; a node no longer in the list stays out of it. */
    method Hit(id: NodeId)
      requires Valid() && id in payload
      modifies this
      ensures Valid()
      ensures order == if id in old(order) then [id] + Without(old(order), id) else old(order)
      ensures payload == old(payload) && index == old(index) && nextId == old(nextId)
      ensures id in old(order) ==> KeyOrder() == Touch(old(KeyOrder()), payload[id].key)
    {
      if id in order {
        MoveStep(order, payload, index, nextId, id);
        order := [id] + Without(order, id);
      }
    }

    /**
     * Unlinks node `id` and drops its key from the index, returning its entry;
     * returns null and changes nothing when the node's key is not indexed.
     * Only the key is looked up: a node already unlinked whose key now belongs
     * to another node leaves the list alone but still drops that key from the
     * index, and the invariant is then lost.
     */
    method Remove(id: NodeId) returns (r: CacheEntry?<K, V>)
      requires Valid() && id in payload
      modifies this
      ensures payload == old(payload) && nextId == old(nextId)
      ensures payload[id].key !in old(index) ==>
        r == null && order == old(order) && index == old(index)
      ensures payload[id].key in old(index) ==>
        && r == payload[id]
        && order == Without(old(order), id)
        && index == old(index) - {payload[id].key}
      ensures payload[id].key in old(index) && old(index[payload[id].key]) != id ==>
        id !in order && order == old(order)
      ensures !(payload[id].key in old(index) && old(index[payload[id].key]) != id) ==>
        && Valid()
        && (id in old(order) <==> payload[id].key in old(index))
        && KeyOrder() == Without(old(KeyOrder()), payload[id].key)
        && Entries() == old(Entries()) - {payload[id].key}
    {
      var en := payload[id];
      if en.key !in index {
        ghost var keys := KeysOf(order, payload);
        ConsistentKeys(order, payload, index, nextId);
        assert en.key !in keys;
        assert EntriesOf(index, payload) == EntriesOf(index, payload) - {en.key};
        return null;
      }
      if index[en.key] != id {
        assert id !in order;
        index := index - {en.key};
        return en;
      }
      ghost var keys := KeysOf(order, payload);
      UnlinkStep(order, payload, index, nextId, id);
      order, index := Without(order, id), index - {en.key};
      assert KeysOf(order, payload) == Without(keys, en.key);
      r := en;
    }
  }
}
