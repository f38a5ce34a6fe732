/** The insertion-ordered set `sset` of batbelt/structs.py.

    The Python class keeps a circular doubly linked list of three-element
    nodes `[key, prev, next]` with one sentinel node, plus a dict from key to
    node.  Here the nodes live in an arena: three parallel arrays `key`,
    `prev` and `next` indexed by slot number, slot 0 being the sentinel, and
    the dict maps a key to its slot.  The ghost sequence `elems` is the
    abstract value: the contents in iteration order. */
module OrderedSets {
  import opened Outcomes
  import opened Sequences

  /** `add` on the abstract contents: an absent key goes to the end, a
      present key changes nothing. */
  function AddOne<K(==)>(s: seq<K>, k: K): seq<K> {
    if k in s then s else s + [k]
  }

  /** `s |= items`: add every item, in order. */
  function AddEach<K(==)>(s: seq<K>, items: seq<K>): seq<K>
    decreases |items|
  {
    if items == [] then s
    else AddOne(AddEach(s, items[..|items| - 1]), items[|items| - 1])
  }

  /** The elements of `s`, each one kept at its first occurrence only. */
  function Dedup<K(==)>(s: seq<K>): seq<K>
    decreases |s|
  {
    if s == [] then []
    else
      var front := s[..|s| - 1];
      Dedup(front) + (if s[|s| - 1] in front then [] else [s[|s| - 1]])
  }

  /** `discard` on the abstract contents: every occurrence of `k` dropped,
      everything else kept in order. */
  function Without<K(==)>(s: seq<K>, k: K): seq<K> {
    if s == [] then []
    else (if s[0] == k then [] else [s[0]]) + Without(s[1..], k)
  }

  /** The position of the first occurrence of `x` in `s`. */
  ghost function FirstIndex<K>(s: seq<K>, x: K): (r: nat)
    requires x in s
    ensures r < |s| && s[r] == x && x !in s[..r]
  {
    if s[0] == x then 0
    else
      var r := FirstIndex(s[1..], x);
      assert s[1..][..r] == s[1..r + 1];
      1 + r
  }

  lemma {:induction false} FirstIndexUnique<K>(s: seq<K>, x: K, r: nat)
    requires r < |s| && s[r] == x && x !in s[..r]
    ensures FirstIndex(s, x) == r
  {
  }

  /** A sequence without duplicates has as many distinct elements as items. */
  lemma {:induction false} DistinctCount<K>(s: seq<K>)
    requires NoDup(s)
    ensures |Members(s)| == |s|
  {
    if s != [] {
      var rest := s[1..];
      assert NoDup(rest) by {
        forall i, j | 0 <= i < j < |rest| ensures rest[i] != rest[j] {
          assert rest[i] == s[i + 1] && rest[j] == s[j + 1];
        }
      }
      DistinctCount(rest);
      assert Members(s) == {s[0]} + Members(rest);
      assert s[0] !in Members(rest);
    }
  }

  /** Deduplication keeps exactly the elements of its input, once each. */
  lemma {:induction false} DedupMembers<K>(s: seq<K>)
    ensures forall x :: x in Dedup(s) <==> x in s
    ensures NoDup(Dedup(s))
    decreases |s|
  {
    if s != [] {
      var front := s[..|s| - 1];
      DedupMembers(front);
      assert s == front + [s[|s| - 1]];
    }
  }

  /** Building from `s` gives as many elements as `s` has distinct ones. */
  lemma DedupSize<K>(s: seq<K>)
    ensures |Dedup(s)| == |Members(s)|
  {
    DedupMembers(s);
    DistinctCount(Dedup(s));
    assert Members(Dedup(s)) == Members(s);
  }

  /** Deduplication lists the elements in the order of their first
      occurrence in the input. */
  lemma {:induction false} DedupOrder<K>(s: seq<K>)
    ensures forall x :: x in Dedup(s) ==> x in s
    ensures forall i, j :: 0 <= i < j < |Dedup(s)| ==>
              FirstIndex(s, Dedup(s)[i]) < FirstIndex(s, Dedup(s)[j])
    decreases |s|
  {
    DedupMembers(s);
    if s != [] {
      var n := |s| - 1;
      var front := s[..n];
      var d := Dedup(front);
      DedupOrder(front);
      DedupMembers(front);
      assert s[..n] == front;
      // A first occurrence inside `front` is a first occurrence in `s`.
      forall x | x in front ensures FirstIndex(s, x) == FirstIndex(front, x) {
        var r := FirstIndex(front, x);
        assert s[..r] == front[..r];
        FirstIndexUnique(s, x, r);
      }
      if s[n] !in front {
        FirstIndexUnique(s, s[n], n);
      }
      forall i, j | 0 <= i < j < |Dedup(s)|
        ensures FirstIndex(s, Dedup(s)[i]) < FirstIndex(s, Dedup(s)[j])
      {
        assert Dedup(s)[i] == d[i];
        if j < |d| {
          assert Dedup(s)[j] == d[j];
        }
      }
    }
  }

  /** Adding the items one by one to an empty set is deduplication. */
  lemma {:induction false} AddEachIsDedup<K>(items: seq<K>)
    ensures AddEach([], items) == Dedup(items)
    decreases |items|
  {
    if items != [] {
      var front := items[..|items| - 1];
      AddEachIsDedup(front);
      DedupMembers(front);
    }
  }

  lemma {:induction false} WithoutAbsent<K>(s: seq<K>, k: K)
    requires k !in s
    ensures Without(s, k) == s
  {
    if s != [] {
      WithoutAbsent(s[1..], k);
    }
  }

  /** In a sequence without duplicates, discarding `k` removes exactly the
      one position holding it. */
  lemma {:induction false} WithoutAt<K>(s: seq<K>, p: nat)
    requires NoDup(s) && p < |s|
    ensures Without(s, s[p]) == s[..p] + s[p + 1..]
  {
    if p == 0 {
      assert s[0] !in s[1..] by {
        forall j | 0 <= j < |s[1..]| ensures s[1..][j] != s[0] {
          assert s[1..][j] == s[j + 1];
        }
      }
      WithoutAbsent(s[1..], s[0]);
    } else {
      var rest := s[1..];
      assert NoDup(rest) by {
        forall i, j | 0 <= i < j < |rest| ensures rest[i] != rest[j] {
          assert rest[i] == s[i + 1] && rest[j] == s[j + 1];
        }
      }
      assert rest[p - 1] == s[p];
      WithoutAt(rest, p - 1);
      assert s[..p] == [s[0]] + rest[..p - 1];
      assert s[p + 1..] == rest[p..];
    }
  }

  /** Discarding keeps exactly the other elements. */
  lemma {:induction false} WithoutMembers<K>(s: seq<K>, k: K)
    ensures forall x :: x in Without(s, k) <==> x in s && x != k
  {
    if s != [] {
      WithoutMembers(s[1..], k);
      assert s == [s[0]] + s[1..];
    }
  }

  /** Adding twice is adding once. */
  lemma AddIdempotent<K>(s: seq<K>, k: K)
    ensures AddOne(AddOne(s, k), k) == AddOne(s, k)
  {
  }

  /** Discarding a present key and adding it again moves it to the end,
      leaving the order of the others unchanged. */
  lemma DiscardThenAdd<K>(s: seq<K>, p: nat)
    requires NoDup(s) && p < |s|
    ensures AddOne(Without(s, s[p]), s[p]) == s[..p] + s[p + 1..] + [s[p]]
  {
    WithoutAt(s, p);
    WithoutMembers(s, s[p]);
  }

  /** The sentinel slot. */
  const End := 0

  /** The slot at position `i` of the ring whose element slots are `s`:
      the sentinel, the slots in order, then the sentinel again. */
  ghost function RingAt(s: seq<int>, i: int): int
    requires 0 <= i <= |s| + 1
  {
    if 1 <= i <= |s| then s[i - 1] else End
  }

  /** The element slots are distinct slots handed out so far (below `used`),
      none of them the sentinel. */
  ghost predicate InArena(s: seq<int>, used: int) {
    && (forall i :: 0 <= i < |s| ==> End < s[i] < used)
    && (forall i, j :: 0 <= i < j < |s| ==> s[i] != s[j])
  }

  /** Following `nx` from the sentinel visits the slots `s` in order and
      comes back to the sentinel; `pv` undoes every such step. */
  ghost predicate Linked(s: seq<int>, nx: seq<int>, pv: seq<int>) {
    && (forall i :: 0 <= i <= |s| + 1 ==> 0 <= RingAt(s, i) < |nx| && RingAt(s, i) < |pv|)
    && (forall i :: 0 <= i <= |s| ==> nx[RingAt(s, i)] == RingAt(s, i + 1))
    && (forall i :: 1 <= i <= |s| + 1 ==> pv[RingAt(s, i)] == RingAt(s, i - 1))
  }

  /** Two different ring positions hold different slots, except for the two
      ends, which are both the sentinel. */
  lemma RingInjective(s: seq<int>, used: int, i: int, j: int)
    requires InArena(s, used)
    requires 0 <= i < j <= |s| + 1 && !(i == 0 && j == |s| + 1)
    ensures RingAt(s, i) != RingAt(s, j)
  {
  }

  /** Splicing a fresh slot in just before the sentinel appends it to the
      ring. */
  lemma LinkAppend(s: seq<int>, used: int, nx: seq<int>, pv: seq<int>, slot: int)
    requires InArena(s, used) && Linked(s, nx, pv)
    requires End < used <= slot < |nx| == |pv|
    ensures 0 <= RingAt(s, |s|) < slot
    ensures InArena(s + [slot], slot + 1)
    ensures Linked(s + [slot], nx[slot := End][RingAt(s, |s|) := slot],
                   pv[slot := RingAt(s, |s|)][End := slot])
  {
    var s', last := s + [slot], RingAt(s, |s|);
    var nx', pv' := nx[slot := End][last := slot], pv[slot := last][End := slot];
    assert forall i :: 0 <= i <= |s| ==> RingAt(s', i) == RingAt(s, i);
    assert RingAt(s', |s'|) == slot && RingAt(s', |s'| + 1) == End;
    forall i | 0 <= i <= |s'| ensures nx'[RingAt(s', i)] == RingAt(s', i + 1) {
      if i < |s| {
        RingInjective(s, used, i, |s|);
        assert nx'[RingAt(s, i)] == nx[RingAt(s, i)];
      }
    }
    forall i | 1 <= i <= |s'| + 1 ensures pv'[RingAt(s', i)] == RingAt(s', i - 1) {
      if i <= |s| {
        assert pv'[RingAt(s, i)] == pv[RingAt(s, i)];
      }
    }
  }

  /** Unlinking the slot at ring position `p + 1` removes it from the ring. */
  lemma LinkRemove(s: seq<int>, used: int, nx: seq<int>, pv: seq<int>, p: int)
    requires InArena(s, used) && Linked(s, nx, pv)
    requires 0 <= p < |s|
    ensures InArena(s[..p] + s[p + 1..], used)
    ensures Linked(s[..p] + s[p + 1..], nx[RingAt(s, p) := RingAt(s, p + 2)],
                   pv[RingAt(s, p + 2) := RingAt(s, p)])
  {
    var s', a, b := s[..p] + s[p + 1..], RingAt(s, p), RingAt(s, p + 2);
    var nx', pv' := nx[a := b], pv[b := a];
    assert forall i :: 0 <= i <= p ==> RingAt(s', i) == RingAt(s, i);
    assert forall i :: p < i <= |s'| + 1 ==> RingAt(s', i) == RingAt(s, i + 1);
    forall i | 0 <= i <= |s'| ensures nx'[RingAt(s', i)] == RingAt(s', i + 1) {
      if i < p {
        RingInjective(s, used, i, p);
      } else if i > p {
        RingInjective(s, used, p, i + 1);
      }
    }
    forall i | 1 <= i <= |s'| + 1 ensures pv'[RingAt(s', i)] == RingAt(s', i - 1) {
      if i <= p {
        RingInjective(s, used, i, p + 2);
      } else if i > p + 1 {
        RingInjective(s, used, p + 2, i + 1);
      }
    }
  }

  /** The representation invariant, stated on the values of the arena
      arrays: `keys`, `nx`, `pv` are the contents of `key`, `next`, `prev`,
      `index` is the dict, and `slots` and `elems` the ghost view. */
  ghost predicate Inv<K>(keys: seq<Option<K>>, nx: seq<int>, pv: seq<int>, used: int,
                         index: map<K, int>, slots: seq<int>, elems: seq<K>)
  {
    && |keys| == |nx| == |pv|
    && End < used <= |keys|
    && |slots| == |elems|
    && InArena(slots, used)
    && Linked(slots, nx, pv)
    && NoDup(elems)
    && keys[End] == None
    && (forall i :: 0 <= i < |slots| ==> keys[slots[i]] == Some(elems[i]))
    // the index holds exactly the elements, each with its own slot
    && index.Keys == Members(elems)
    && (forall i :: 0 <= i < |elems| ==> index[elems[i]] == slots[i])
  }

  /** What `add` of an absent key does to the arena keeps the invariant. */
  lemma InvAdd<K>(keys: seq<Option<K>>, nx: seq<int>, pv: seq<int>, used: int,
                  index: map<K, int>, slots: seq<int>, elems: seq<K>, k: K)
    requires Inv(keys, nx, pv, used, index, slots, elems)
    requires k !in index && used < |keys|
    ensures 0 <= RingAt(slots, |slots|) < used
    ensures Inv(keys[used := Some(k)],
                nx[used := End][RingAt(slots, |slots|) := used],
                pv[used := RingAt(slots, |slots|)][End := used],
                used + 1, index[k := used], slots + [used], elems + [k])
  {
    LinkAppend(slots, used, nx, pv, used);
    var slots', elems' := slots + [used], elems + [k];
    assert k !in elems;
    assert Members(elems') == Members(elems) + {k};
    assert forall i :: 0 <= i < |slots| ==> slots'[i] == slots[i] && elems'[i] == elems[i];
  }

  /** What `discard` of the element `k` at position `p` does to the arena
      (`before` and `after` are its neighbours) keeps the invariant. */
  lemma InvDiscard<K>(keys: seq<Option<K>>, nx: seq<int>, pv: seq<int>, used: int,
                      index: map<K, int>, slots: seq<int>, elems: seq<K>,
                      p: int, k: K, before: int, after: int)
    requires Inv(keys, nx, pv, used, index, slots, elems)
    requires 0 <= p < |elems| && k == elems[p]
    requires before == RingAt(slots, p) && after == RingAt(slots, p + 2)
    ensures Inv(keys, nx[before := after], pv[after := before],
                used, index - {k}, slots[..p] + slots[p + 1..], elems[..p] + elems[p + 1..])
  {
    LinkRemove(slots, used, nx, pv, p);
    var slots', elems', index' := slots[..p] + slots[p + 1..], elems[..p] + elems[p + 1..], index - {k};
    WithoutAt(elems, p);
    WithoutMembers(elems, k);
    assert Members(elems') == Members(elems) - {k};
    assert NoDup(elems');
    forall i | 0 <= i < |slots'|
      ensures keys[slots'[i]] == Some(elems'[i]) && index'[elems'[i]] == slots'[i]
    {
      if i < p {
        assert slots'[i] == slots[i] && elems'[i] == elems[i];
      } else {
        assert slots'[i] == slots[i + 1] && elems'[i] == elems[i + 1];
      }
    }
  }

  /** Copying the slots handed out so far into larger arrays keeps the
      invariant. */
  lemma InvGrow<K>(keys: seq<Option<K>>, nx: seq<int>, pv: seq<int>, used: int,
                   index: map<K, int>, slots: seq<int>, elems: seq<K>,
                   keys': seq<Option<K>>, nx': seq<int>, pv': seq<int>)
    requires Inv(keys, nx, pv, used, index, slots, elems)
    requires |keys| <= |keys'| == |nx'| == |pv'|
    requires forall m :: 0 <= m < used ==> keys'[m] == keys[m] && nx'[m] == nx[m] && pv'[m] == pv[m]
    ensures Inv(keys', nx', pv', used, index, slots, elems)
  {
    assert forall i :: 0 <= i <= |slots| + 1 ==> RingAt(slots, i) < used;
  }

  /** A fresh array of length `len` holding the first `n` items of `a`,
      the rest filled with `fill`. */
  method Extend<T>(a: array<T>, n: nat, len: nat, fill: T) returns (b: array<T>)
    requires n <= a.Length && n <= len
    ensures fresh(b) && b.Length == len
    ensures forall m :: 0 <= m < n ==> b[m] == a[m]
  {
    b := new T[len](_ => fill);
    var j := 0;
    while j < n
      modifies b
      invariant 0 <= j <= n
      invariant forall m :: 0 <= m < j ==> b[m] == a[m]
    {
      b[j] := a[j];
      j := j + 1;
    }
  }

  class OrderedSet<K(==)> {
    // public (ghost) view
    ghost var elems: seq<K>         // the contents, in iteration order
    ghost var slots: seq<int>       // the slot of each element, same order
    ghost var Repr: set<object>

    // the arena: slot 0 is the sentinel, slots 1 .. used - 1 have been handed out
    var key: array<Option<K>>
    var prev: array<int>
    var next: array<int>
    var used: nat
    var index: map<K, int>          // key --> slot

    ghost predicate Valid()
      reads this, Repr
      ensures Valid() ==> this in Repr
    {
      && Repr == {this, key, prev, next}
      && prev != next
      && Inv(key[..], next[..], prev[..], used, index, slots, elems)
    }

    /** `sset(items)`: start empty, then `self |= items`. */
    constructor (items: seq<K>)
      ensures Valid() && fresh(Repr)
      ensures elems == Dedup(items)
    {
      key := new Option<K>[4](_ => None);
      prev := new int[4](_ => End);
      next := new int[4](_ => End);
      used := 1;
      index := map[];
      elems, slots := [], [];
      Repr := {this, key, prev, next};
      new;
      assert RingAt(slots, 0) == RingAt(slots, 1) == End;
      assert Inv(key[..], next[..], prev[..], used, index, slots, elems);
      AddAll(items);
      AddEachIsDedup(items);
    }

    /** `len(self)`: the size of the index. */
    method Length() returns (n: nat)
      requires Valid()
      ensures n == |elems|
    {
      n := |index|;
      DistinctCount(elems);
    }

    /** `key in self`. */
    method Contains(k: K) returns (b: bool)
      requires Valid()
      ensures b <==> k in elems
    {
      b := k in index;
    }

    /** Doubles the arena, keeping every slot handed out so far. */
    method Grow()
      requires Valid()
      modifies this
      ensures Valid() && fresh(Repr - old(Repr))
      ensures elems == old(elems) && used < key.Length
    {
      ghost var k0, n0, p0 := key[..], next[..], prev[..];
      var n := 2 * key.Length;
      var k' := Extend(key, used, n, None);
      var p' := Extend(prev, used, n, End);
      var n' := Extend(next, used, n, End);
      key, prev, next := k', p', n';
      Repr := {this, key, prev, next};
      InvGrow(k0, n0, p0, used, index, slots, elems, key[..], next[..], prev[..]);
    }

    /** `add`: a new node is spliced in just before the sentinel. */
    method Add(k: K)
      requires Valid()
      modifies Repr
      ensures Valid() && fresh(Repr - old(Repr))
      ensures elems == AddOne(old(elems), k)
    {
      if k !in index {
        if used == key.Length {
          Grow();
        }
        Append(k);
      }
    }

    /** `add` of an absent key, once the arena has a free slot. */
    method Append(k: K)
      requires Valid() && k !in elems && used < key.Length
      modifies Repr
      ensures Valid() && Repr == old(Repr)
      ensures elems == old(elems) + [k]
    {
      var slot, last := used, prev[End];
      assert last == RingAt(slots, |slots|) by {
        assert RingAt(slots, |slots| + 1) == End;
      }
      ghost var keys', nx', pv' := key[..][slot := Some(k)], next[..][slot := End][last := slot],
                                   prev[..][slot := last][End := slot];
      InvAdd(key[..], next[..], prev[..], used, index, slots, elems, k);
      Link(slot, last, k);
      used, index := slot + 1, index[k := slot];
      slots, elems := slots + [slot], elems + [k];
      assert key[..] == keys' && next[..] == nx' && prev[..] == pv';
      assert Inv(keys', nx', pv', used, index, slots, elems);
    }

    /** The array writes of `add`: slot `slot` gets `k` and goes between
        `last` and the sentinel. */
    method Link(slot: int, last: int, k: K)
      requires 0 <= slot < key.Length == next.Length == prev.Length && 0 <= last < key.Length
      requires prev != next
      modifies key, next, prev
      ensures key[..] == old(key[..])[slot := Some(k)]
      ensures next[..] == old(next[..])[slot := End][last := slot]
      ensures prev[..] == old(prev[..])[slot := last][End := slot]
    {
      key[slot] := Some(k);
      next[slot] := End;
      next[last] := slot;
      prev[slot] := last;
      prev[End] := slot;
    }

    /** `s |= items`: adds every item, in order. */
    method AddAll(items: seq<K>)
      requires Valid()
      modifies Repr
      ensures Valid() && fresh(Repr - old(Repr))
      ensures elems == AddEach(old(elems), items)
    {
      var i := 0;
      while i < |items|
        invariant 0 <= i <= |items|
        invariant Valid() && fresh(Repr - old(Repr))
        invariant elems == AddEach(old(elems), items[..i])
      {
        Add(items[i]);
        assert items[..i + 1][..i] == items[..i];
        i := i + 1;
      }
      assert items[..i] == items;
    }

    /** `discard`: the node found through the index is unlinked. */
    method Discard(k: K)
      requires Valid()
      modifies Repr
      ensures Valid() && Repr == old(Repr)
      ensures elems == Without(old(elems), k)
    {
      if k in index {
        assert k in elems;
        ghost var p := FirstIndex(elems, k);
        WithoutAt(elems, p);
        Remove(k, p);
      } else {
        WithoutAbsent(elems, k);
      }
    }

    /** `discard` of the key at position `p`. */
    method Remove(k: K, ghost p: nat)
      requires Valid() && p < |elems| && elems[p] == k
      modifies Repr
      ensures Valid() && Repr == old(Repr)
      ensures elems == old(elems)[..p] + old(elems)[p + 1..]
    {
      var slot := index[k];
      assert slot == RingAt(slots, p + 1);
      var before, after := prev[slot], next[slot];
      assert before == RingAt(slots, p) && after == RingAt(slots, p + 2);
      ghost var keys', nx', pv' := key[..], next[..][before := after], prev[..][after := before];
      InvDiscard(key[..], next[..], prev[..], used, index, slots, elems, p, k, before, after);
      Unlink(before, after);
      index := index - {k};
      slots, elems := slots[..p] + slots[p + 1..], elems[..p] + elems[p + 1..];
      assert key[..] == keys' && next[..] == nx' && prev[..] == pv';
      assert Inv(keys', nx', pv', used, index, slots, elems);
    }

    /** The array writes of `discard`: `before` and `after` become
        neighbours. */
    method Unlink(before: int, after: int)
      requires 0 <= before < next.Length && 0 <= after < prev.Length && prev != next
      modifies next, prev
      ensures key[..] == old(key[..])
      ensures next[..] == old(next[..])[before := after]
      ensures prev[..] == old(prev[..])[after := before]
    {
      next[before] := after;
      prev[after] := before;
    }

    /** `iter(self)`: walks `next` from the sentinel back to it. */
    method Iterate() returns (s: seq<K>)
      requires Valid()
      ensures s == elems
    {
      s := [];
      var curr := next[End];
      ghost var i := 1;
      assert RingAt(slots, 0) == End;
      while curr != End
        invariant 1 <= i <= |slots| + 1
        invariant curr == RingAt(slots, i)
        invariant s == elems[..i - 1]
        decreases |slots| + 1 - i
      {
        assert key[..][curr] == Some(elems[i - 1]);
        s := s + [key[curr].value];
        curr := next[curr];
        i := i + 1;
      }
    }

    /** `reversed(self)`: walks `prev` from the sentinel back to it. */
    method IterateReversed() returns (s: seq<K>)
      requires Valid()
      ensures |s| == |elems|
      ensures forall i :: 0 <= i < |s| ==> s[i] == elems[|elems| - 1 - i]
    {
      s := [];
      var curr := prev[End];
      ghost var i := |slots|;
      assert RingAt(slots, |slots| + 1) == End;
      while curr != End
        invariant 0 <= i <= |slots|
        invariant curr == RingAt(slots, i)
        invariant |s| == |slots| - i
        invariant forall m :: 0 <= m < |s| ==> s[m] == elems[|elems| - 1 - m]
        decreases i
      {
        assert key[..][curr] == Some(elems[i - 1]);
        s := s + [key[curr].value];
        curr := prev[curr];
        i := i - 1;
      }
    }

    /** `pop(last)`: removes and returns the last element (or the first one
        when `last` is false); on an empty set raises KeyError. */
    method Pop(last: bool) returns (r: Result<K>)
      requires Valid()
      modifies Repr
      ensures Valid() && Repr == old(Repr)
      ensures old(elems) == [] ==> r == Err(KeyError) && elems == old(elems)
      ensures old(elems) != [] && last ==>
                r == Ok(old(elems)[|old(elems)| - 1]) && elems == old(elems)[..|old(elems)| - 1]
      ensures old(elems) != [] && !last ==>
                r == Ok(old(elems)[0]) && elems == old(elems)[1..]
    {
      DistinctCount(elems);
      if |index| == 0 {
        return Err(KeyError);
      }
      assert elems != [] by {
        var k :| k in index;
      }
      assert RingAt(slots, 0) == End && RingAt(slots, |slots| + 1) == End;
      ghost var p := if last then |elems| - 1 else 0;
      var at := if last then prev[End] else next[End];
      if last {
        assert at == RingAt(slots, |slots|) == slots[p];
      } else {
        assert at == RingAt(slots, 1) == slots[p];
      }
      assert key[..][slots[p]] == Some(elems[p]);
      var k := key[at].value;
      assert elems[p] == k;
      WithoutAt(elems, p);
      Discard(k);
      r := Ok(k);
    }

    /** `self == other` for another `sset`: same length and same list. */
    method Equals(other: OrderedSet<K>) returns (b: bool)
      requires Valid() && other.Valid()
      ensures b <==> elems == other.elems
    {
      var n := Length();
      var m := other.Length();
      if n != m {
        return false;
      }
      var s := Iterate();
      var t := other.Iterate();
      b := s == t;
    }

    /** `self == other` for any other set: compared as plain sets. */
    method EqualsSet(other: set<K>) returns (b: bool)
      requires Valid()
      ensures b <==> Members(elems) == other
    {
      var s := Iterate();
      b := (set x | x in s) == other;
    }
  }
}
