/**
 * Concrete runs: the two cases of the push test (a ring of capacity 3 with a
 * push queue, fed through `PushAndWait`), the pop scenario, the lifecycle
 * after `Close`, and an input on which the backward walk is not the reverse
 * of the forward walk.
 */
module Scenarios {
  import opened Wrappers
  import opened SlotStore
  import opened RingBuffer

  /** The characters of `s`, each as a non-nil slot value. */
  function Letters(s: string): seq<Option<char>>
  {
    seq(|s|, k requires 0 <= k < |s| => Some(s[k]))
  }

  /** One push into an empty ring of capacity 3 fills slot 0 only. */
  lemma PushOneIntoThree()
    ensures Empty<char>(3).InsertAll(Letters("a")) == Slots([Some('a'), None, None], 1, 0)
    ensures Empty<char>(3).InsertAll(Letters("a")).Contents() == Letters("a")
  {
    var s := Empty<char>(3);
    assert Letters("a") == [Some('a')];
    assert s.InsertAll([Some('a')]) == s.Insert(Some('a')).InsertAll([]);
    InsertFewFromEmpty(s, Letters("a"));
  }

  /**
   * Four pushes into an empty ring of capacity 3: the fourth overwrites slot 0,
   * `head` catches up with `tail` twice, and only the last two values remain.
   */
  lemma PushFourIntoThree()
    ensures Empty<char>(3).InsertAll(Letters("abcd")) == Slots([Some('d'), Some('b'), Some('c')], 1, 2)
    ensures Empty<char>(3).InsertAll(Letters("abcd")).Contents() == Letters("cd")
  {
    var s0 := Empty<char>(3);
    var vs := Letters("abcd");
    assert vs == [Some('a'), Some('b'), Some('c'), Some('d')];
    var s1 := s0.Insert(Some('a'));
    var s2 := s1.Insert(Some('b'));
    var s3 := s2.Insert(Some('c'));
    var s4 := s3.Insert(Some('d'));
    assert s1 == Slots([Some('a'), None, None], 1, 0);
    assert s2 == Slots([Some('a'), Some('b'), None], 2, 0);
    assert s3 == Slots([Some('a'), Some('b'), Some('c')], 0, 1);
    assert s4 == Slots([Some('d'), Some('b'), Some('c')], 1, 2);
    assert vs[1..][1..][1..][1..] == [];
    assert s0.InsertAll(vs) == s4;
    InsertAllFromEmpty(s0, vs);
    assert Newest(vs, 2) == Letters("cd");
  }

  /** The push test run through the object: `PushAndWait` of a, b, c, d into a new ring of capacity 3. */
  method PushAndWaitFourIntoThree() returns (slots: seq<Option<char>>, contents: seq<Option<char>>)
    ensures slots == [Some('d'), Some('b'), Some('c')]
    ensures contents == Letters("cd")
  {
    var ring := new RingBuffer<char>(3);
    var status, fired := ring.PushAndWait(Letters("abcd"), 0);
    PushFourIntoThree();
    assert [] + Letters("abcd") == Letters("abcd");
    slots := ring.data[..];
    contents := ring.Iterate();
  }

  /** Four pushes into a ring of capacity 10, then one pop: the oldest comes out and three remain. */
  method PopOldest() returns (v: Option<char>, ok: bool, len: nat)
    ensures v == Some('a') && ok && len == 3
  {
    var ring := new RingBuffer<char>(10);
    var status, fired := ring.PushAndWait(Letters("abcd"), 0);
    InsertFewFromEmpty(Empty<char>(10), Letters("abcd"));
    assert [] + Letters("abcd") == Letters("abcd");
    v, ok := ring.Pop();
    len := ring.Len();
  }

  /**
   * Two waits, then a push-and-wait, on a new buffer: each call fires exactly
   * its own hook, since no close is pending between them.
   */
  method WaitThenWait() returns (first: seq<HookId>, second: seq<HookId>, third: seq<HookId>)
    ensures first == [1] && second == [2] && third == [3]
  {
    var ring := new RingBuffer<char>(3);
    var status;
    status, first := ring.Wait(1);
    status, second := ring.Wait(2);
    status, third := ring.PushAndWait(Letters("a"), 3);
  }

  /**
   * After `Close` a push, a hook registration, a wait and a second close all
   * panic, while reading and flushing still work.
   */
  method UseAfterClose() returns (push: Status, hook: Status, wait: Status, close: Status, flushed: seq<Option<char>>)
    ensures push == Panicked(PushClosedMessage)
    ensures hook == Panicked(ExecuteClosedMessage)
    ensures wait == Panicked(WaitClosedMessage)
    ensures close == Panicked(CloseClosedMessage)
    ensures flushed == Letters("xy")
  {
    var ring := new RingBuffer<char>(4);
    push := ring.Push(Letters("xy"));
    close := ring.Close();
    assert ring.closed;
    InsertFewFromEmpty(Empty<char>(4), Letters("xy"));
    assert [] + Letters("xy") == Letters("xy");
    push := ring.Push(Letters("z"));
    hook := ring.AddQueueIdleHook(1);
    var fired;
    wait, fired := ring.Wait(2);
    close := ring.Close();
    flushed := ring.Flush();
  }

  /**
   * Slots [a, b, nil] with `head == 2` and `tail == 0` hold a, b.  The forward
   * walk yields a, b; the backward walk yields nil, b, which is not b, a.
   */
  lemma ReverseWalkIsNotReversed()
    ensures Slots([Some('a'), Some('b'), None], 2, 0).Contents() == [Some('a'), Some('b')]
    ensures Gather([Some('a'), Some('b'), None], ReverseIndices(2, 0, 3)) == [None, Some('b')]
    ensures Gather([Some('a'), Some('b'), None], ReverseIndices(2, 0, 3))
         != Reversed(Slots([Some('a'), Some('b'), None], 2, 0).Contents())
  {
    var s := Slots([Some('a'), Some('b'), None], 2, 0);
    s.ReverseWalkShape();
    assert s.Contents()[1..] == [Some('b')];
    assert Reversed([Some('b')]) == [Some('b')];
    assert Reversed(s.Contents())[0] == Some('b');
  }
}
