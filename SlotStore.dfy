/**
 * The slot store of the ring buffer as a value: the slot array, the write
 * index `head` and the read index `tail`.  The capacity is the length of the
 * slot array.  Everything here is pure; the class in RingBuffer.dfy updates
 * the same state in place and is proved against these functions.
 */
module SlotStore {
  import opened Wrappers

  /** Index after `i` on a circle of `capacity` slots. */
  function Next(i: nat, capacity: nat): (j: nat)
    requires i < capacity
    ensures j < capacity
  {
    if i + 1 == capacity then 0 else i + 1
  }

  /** `Next` is the source's `(i + 1) % capacity`. */
  lemma NextIsMod(i: nat, capacity: nat)
    requires i < capacity
    ensures Next(i, capacity) == (i + 1) % capacity
  {
    ModInRange(i + 1, capacity);
  }

  /** Index before `i` on a circle of `capacity` slots. */
  function Prev(i: nat, capacity: nat): (j: nat)
    requires i < capacity
    ensures j < capacity
  {
    if i == 0 then capacity - 1 else i - 1
  }

  /** `Prev` is the source's `(i + capacity - 1) % capacity`. */
  lemma PrevIsMod(i: nat, capacity: nat)
    requires i < capacity
    ensures Prev(i, capacity) == (i + capacity - 1) % capacity
  {
    ModInRange(i + capacity - 1, capacity);
  }

  /** Number of logical elements between `tail` (inclusive) and `head` (exclusive). */
  function Count(head: nat, tail: nat, capacity: nat): (n: nat)
    requires head < capacity && tail < capacity
    ensures n < capacity
    ensures n == 0 <==> head == tail
  {
    if head >= tail then head - tail else capacity - tail + head
  }

  /** The count is the distance from `tail` to `head` modulo the capacity. */
  lemma CountIsMod(head: nat, tail: nat, capacity: nat)
    requires head < capacity && tail < capacity
    ensures Count(head, tail, capacity) == (head - tail) % capacity
  {
    if head >= tail {
      ModInRange(head - tail, capacity);
    } else {
      ModOfNegative(head - tail, capacity);
    }
  }

  /** The index `k` steps after `i` on a circle of `n` slots, `(i + k) mod n`. */
  function Offset(i: nat, k: nat, n: nat): (j: nat)
    requires i < n && k < n
    ensures j < n
  {
    if i + k < n then i + k else i + k - n
  }

  /** The index `k` steps before `i` on a circle of `n` slots, `(i - k) mod n`. */
  function Back(i: nat, k: nat, n: nat): (j: nat)
    requires i < n && k < n
    ensures j < n
  {
    if k <= i then i - k else n + i - k
  }

  /** The last `n` elements of `s` (all of `s` when it is no longer than `n`). */
  function Newest<A>(s: seq<A>, n: nat): (r: seq<A>)
  {
    if |s| <= n then s else s[|s| - n..]
  }

  /** The elements of `s` at the positions listed in `idx`, in that order. */
  function Gather<A>(s: seq<A>, idx: seq<nat>): (r: seq<A>)
    requires forall k :: 0 <= k < |idx| ==> idx[k] < |s|
  {
    seq(|idx|, k requires 0 <= k < |idx| => s[idx[k]])
  }

  function Reversed<A>(s: seq<A>): (r: seq<A>)
    ensures |r| == |s|
    ensures forall k :: 0 <= k < |s| ==> r[k] == s[|s| - 1 - k]
  {
    if s == [] then [] else Reversed(s[1..]) + [s[0]]
  }

  /**
   * The indices visited by the forward walk `for i := tail; i != head; i = (i + 1) % capacity`,
   * started at `i`.
   */
  function ForwardIndices(i: nat, head: nat, capacity: nat): (r: seq<nat>)
    requires i < capacity && head < capacity
    ensures |r| == Count(head, i, capacity)
    ensures forall k :: 0 <= k < |r| ==> r[k] < capacity
    decreases Count(head, i, capacity)
  {
    if i == head then [] else [i] + ForwardIndices(Next(i, capacity), head, capacity)
  }

  /**
   * The indices visited by the backward walk
   * `for i := head; i != tail; i = (i + capacity - 1) % capacity`, started at `i`.
   */
  function ReverseIndices(i: nat, tail: nat, capacity: nat): (r: seq<nat>)
    requires i < capacity && tail < capacity
    ensures |r| == Count(i, tail, capacity)
    ensures forall k :: 0 <= k < |r| ==> r[k] < capacity
    decreases Count(i, tail, capacity)
  {
    if i == tail then [] else [i] + ReverseIndices(Prev(i, capacity), tail, capacity)
  }

  /** The `k`-th index of the forward walk from `i` is `k` steps after `i`. */
  lemma {:induction false} ForwardIndicesAt(i: nat, head: nat, capacity: nat, k: nat)
    requires i < capacity && head < capacity
    requires k < Count(head, i, capacity)
    ensures ForwardIndices(i, head, capacity)[k] == Offset(i, k, capacity)
    decreases k
  {
    if k > 0 {
      ForwardIndicesAt(Next(i, capacity), head, capacity, k - 1);
    }
  }

  /** The `k`-th index of the backward walk from `i` is `k` steps before `i`. */
  lemma {:induction false} ReverseIndicesAt(i: nat, tail: nat, capacity: nat, k: nat)
    requires i < capacity && tail < capacity
    requires k < Count(i, tail, capacity)
    ensures ReverseIndices(i, tail, capacity)[k] == Back(i, k, capacity)
    decreases k
  {
    if k > 0 {
      ReverseIndicesAt(Prev(i, capacity), tail, capacity, k - 1);
    }
  }

  /** The slot array with its two indices. */
  datatype Slots<T> = Slots(data: seq<Option<T>>, head: nat, tail: nat) {

    /** A positive capacity, and both indices inside the array. */
    predicate Valid() {
      |data| > 0 && head < |data| && tail < |data|
    }

    function Capacity(): nat {
      |data|
    }

    /** The number of logical elements: below the capacity, and zero exactly when the indices meet. */
    function Len(): (n: nat)
      requires Valid()
      ensures n < |data|
      ensures n == 0 <==> head == tail
    {
      Count(head, tail, |data|)
    }

    /** The logical contents, oldest first: `Len()` slots starting at `tail`. */
    function Contents(): (c: seq<Option<T>>)
      requires Valid()
    {
      seq(Len(), k requires 0 <= k < Len() => data[Offset(tail, k, |data|)])
    }

    /**
     * Write `v` at `head` and advance `head`; when `head` catches up with
     * `tail`, advance `tail` as well (the oldest element is lost).
     */
    function Insert(v: Option<T>): (s: Slots<T>)
      requires Valid()
      ensures s.Valid() && |s.data| == |data|
    {
      var h := Next(head, |data|);
      Slots(data[head := v], h, if h == tail then Next(tail, |data|) else tail)
    }

    /** Insert every value of `vs`, in order. */
    function InsertAll(vs: seq<Option<T>>): (s: Slots<T>)
      requires Valid()
      ensures s.Valid() && |s.data| == |data|
      decreases |vs|
    {
      if vs == [] then this
      else
        Insert(vs[0]).InsertAll(vs[1..])
    }

    /**
     * The slot at `tail` and the store with `tail` advanced, or `(None, false)`
     * and no change when `head == tail`.
     */
    function Pop(): (r: (Option<T>, bool, Slots<T>))
      requires Valid()
      ensures r.2.Valid() && r.2.data == data && r.2.head == head
      ensures r.1 <==> Len() > 0
      ensures !r.1 ==> r.0 == None && r.2 == this
      ensures r.1 ==> r.2.Len() == Len() - 1
    {
      if head == tail then (None, false, this)
      else (data[tail], true, this.(tail := Next(tail, |data|)))
    }

    /** Both indices back to zero; the slots are left as they are. */
    function Reset(): (s: Slots<T>)
      requires Valid()
      ensures s.Valid() && s.data == data && s.Len() == 0 && s.Contents() == []
    {
      this.(head := 0, tail := 0)
    }

    /**
     * Inserting appends `v` to the logical contents and keeps only the newest
     * `capacity - 1` of them: once the store is full, the oldest is dropped.
     */
    lemma InsertContents(v: Option<T>)
      requires Valid()
      ensures Insert(v).Contents() == Newest(Contents() + [v], |data| - 1)
    {
      var n := |data|;
      var s := Insert(v);
      var c := Contents();
      var want := Newest(c + [v], n - 1);
      if Next(head, n) != tail {
        assert s.Len() == Len() + 1;
        forall k | 0 <= k < s.Len() ensures s.Contents()[k] == want[k] {
          if k < Len() {
            assert Offset(tail, k, n) != head;
          } else {
            assert Offset(tail, k, n) == head;
          }
        }
      } else {
        assert Len() == n - 1;
        assert s.Len() == Len();
        forall k | 0 <= k < s.Len() ensures s.Contents()[k] == want[k] {
          assert Offset(s.tail, k, n) == Offset(tail, k + 1, n);
          if k + 1 < Len() {
            assert Offset(tail, k + 1, n) != head;
          } else {
            assert Offset(tail, k + 1, n) == head;
          }
        }
      }
    }

    /**
     * Inserting grows the count by one until it reaches `capacity - 1`, and
     * then keeps it there.
     */
    lemma InsertLen(v: Option<T>)
      requires Valid()
      ensures Len() < |data| - 1 ==> Insert(v).Len() == Len() + 1
      ensures Len() == |data| - 1 ==> Insert(v).Len() == Len()
    {
      if Next(head, |data|) == tail {
        assert Len() == |data| - 1;
      }
    }

    /** Inserting a sequence of values appends them and keeps the newest `capacity - 1`. */
    lemma {:induction false} InsertAllContents(vs: seq<Option<T>>)
      requires Valid()
      ensures InsertAll(vs).Contents() == Newest(Contents() + vs, |data| - 1)
      decreases |vs|
    {
      var n := |data|;
      if vs == [] {
        assert Contents() + vs == Contents();
      } else {
        var s := Insert(vs[0]);
        InsertContents(vs[0]);
        s.InsertAllContents(vs[1..]);
        NewestChain(s.InsertAll(vs[1..]).Contents(), s.Contents(), Contents(), vs, n - 1);
      }
    }

    /** Inserting `vs + [v]` is inserting `vs` and then `v`. */
    lemma {:induction false} InsertAllSnoc(vs: seq<Option<T>>, v: Option<T>)
      requires Valid()
      ensures InsertAll(vs + [v]) == InsertAll(vs).Insert(v)
      decreases |vs|
    {
      if vs == [] {
        assert [v][1..] == [];
      } else {
        assert (vs + [v])[1..] == vs[1..] + [v];
        Insert(vs[0]).InsertAllSnoc(vs[1..], v);
      }
    }

    /**
     * Popping a non-empty store yields the oldest logical element and removes
     * it; popping an empty one yields `(None, false)` and changes nothing.
     */
    lemma PopContents()
      requires Valid()
      ensures Pop().2.Valid() && Pop().2.data == data && Pop().2.head == head
      ensures Pop().1 <==> Len() > 0
      ensures Len() == 0 ==> Pop() == (None, false, this)
      ensures Len() > 0 ==> Pop().0 == Contents()[0] && Pop().2.Contents() == Contents()[1..]
      ensures Len() > 0 ==> Pop().2.Len() == Len() - 1
    {
      if head != tail {
        var s := Pop().2;
        assert s.Len() == Len() - 1;
        forall k | 0 <= k < s.Len() ensures s.Contents()[k] == Contents()[k + 1] {
          assert Offset(s.tail, k, |data|) == Offset(tail, k + 1, |data|);
        }
      }
    }

    /** The forward walk from `tail` visits exactly the logical contents, oldest first. */
    lemma ForwardIsContents()
      requires Valid()
      ensures Gather(data, ForwardIndices(tail, head, |data|)) == Contents()
    {
      var g := Gather(data, ForwardIndices(tail, head, |data|));
      forall k | 0 <= k < Len() ensures g[k] == Contents()[k] {
        ForwardIndicesAt(tail, head, |data|, k);
      }
    }

    /**
     * The backward walk from `head` visits the slot at `head` itself (which is
     * not a logical element) and then the logical contents newest first,
     * leaving out the oldest one, at `tail`.
     */
    lemma ReverseWalkShape()
      requires Valid()
      ensures Len() == 0 ==> Gather(data, ReverseIndices(head, tail, |data|)) == []
      ensures Len() > 0 ==>
        Gather(data, ReverseIndices(head, tail, |data|)) == [data[head]] + Reversed(Contents()[1..])
    {
      var g := Gather(data, ReverseIndices(head, tail, |data|));
      if Len() > 0 {
        var c := Contents();
        forall k | 0 < k < |g| ensures g[k] == c[|c| - k] {
          ReverseWalkAt(k);
        }
        ReverseWalkAt(0);
        HeadThenReversed(g, c, data[head]);
      }
    }

    /** The k-th slot of the backward walk: `head` first, then the contents from the newest down. */
    lemma ReverseWalkAt(k: nat)
      requires Valid() && k < Len()
      ensures Gather(data, ReverseIndices(head, tail, |data|))[k]
           == if k == 0 then data[head] else Contents()[Len() - k]
    {
      ReverseIndicesAt(head, tail, |data|, k);
      if k > 0 {
        assert Offset(tail, Len() - k, |data|) == Back(head, k, |data|);
      }
    }
  }

  /**
   * A sequence that starts with `x` and then lists `c` from its last element
   * down to its second is `x` followed by the reverse of `c[1..]`.
   */
  lemma HeadThenReversed<A>(g: seq<A>, c: seq<A>, x: A)
    requires |g| == |c| > 0 && g[0] == x
    requires forall k :: 0 < k < |g| ==> g[k] == c[|c| - k]
    ensures g == [x] + Reversed(c[1..])
  {
    var want := [x] + Reversed(c[1..]);
    forall k | 0 < k < |g| ensures g[k] == want[k] {
      assert want[k] == Reversed(c[1..])[k - 1];
    }
  }

  /** Dropping old elements twice is dropping them once. */
  lemma NewestAppend<A>(a: seq<A>, b: seq<A>, n: nat)
    ensures Newest(Newest(a, n) + b, n) == Newest(a + b, n)
  {
    if |a| > n {
      var a' := a[|a| - n..];
      if |a' + b| > n {
        assert (a' + b)[|a' + b| - n..] == (a + b)[|a + b| - n..];
      } else {
        assert b == [];
        assert a + b == a;
      }
    }
  }

  /**
   * If `y` keeps the newest `n` of `c` plus the first value of `vs`, and `x`
   * keeps the newest `n` of `y` plus the rest, then `x` keeps the newest `n`
   * of `c + vs`.
   */
  lemma NewestChain<A>(x: seq<A>, y: seq<A>, c: seq<A>, vs: seq<A>, n: nat)
    requires vs != []
    requires y == Newest(c + [vs[0]], n)
    requires x == Newest(y + vs[1..], n)
    ensures x == Newest(c + vs, n)
  {
    NewestAppend(c + [vs[0]], vs[1..], n);
    assert c + [vs[0]] + vs[1..] == c + vs;
  }

  /** `x % m` for `-m <= x < 0`: Dafny's `%` never yields a negative remainder. */
  lemma ModOfNegative(x: int, m: int)
    requires -m <= x < 0
    ensures x % m == x + m
  {
    assert x == m * -1 + (x + m);
  }

  /** `x % m` for `0 <= x < 2 * m`. */
  lemma ModInRange(x: int, m: int)
    requires 0 <= x < 2 * m
    ensures x % m == if x < m then x else x - m
  {
    if x < m {
      assert x == m * 0 + x;
    } else {
      assert x == m * 1 + (x - m);
    }
  }

  /** A store of `capacity` empty slots with both indices at zero. */
  function Empty<T>(capacity: nat): (s: Slots<T>)
    requires capacity > 0
    ensures s.Valid() && s.Capacity() == capacity && s.Contents() == []
  {
    Slots(seq(capacity, _ => None), 0, 0)
  }

  /**
   * Pushing values into an empty store leaves the last `capacity - 1` of
   * them as its contents, in push order.
   */
  lemma InsertAllFromEmpty<T>(s: Slots<T>, vs: seq<Option<T>>)
    requires s.Valid() && s.Len() == 0
    ensures s.InsertAll(vs).Contents() == Newest(vs, s.Capacity() - 1)
  {
    s.InsertAllContents(vs);
    assert s.Contents() + vs == vs by {
      assert |s.Contents()| == 0;
    }
  }

  /** Fewer than `capacity` values pushed into an empty store are all kept, in push order. */
  lemma InsertFewFromEmpty<T>(s: Slots<T>, vs: seq<Option<T>>)
    requires s.Valid() && s.Len() == 0 && |vs| < s.Capacity()
    ensures s.InsertAll(vs).Contents() == vs
    ensures s.InsertAll(vs).Len() == |vs|
  {
    InsertAllFromEmpty(s, vs);
  }
}
