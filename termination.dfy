/**
 * What `Scheduler::terminate` does to the ready queue. It runs a counted
 * rotation: while i < size it dequeues the head and drops it when its id
 * is the terminated one (decrementing size), or re-enqueues it. Because
 * the bound shrinks on every drop, the loop stops before it has looked at
 * every thread, so the result is an unlooked-at tail followed by the
 * looked-at prefix with the matches removed.
 */
module Termination {
  import opened ThreadQueues

  /** The threads of s whose id is not id, in order. */
  function Without(s: seq<Thread>, id: int): (r: seq<Thread>)
    ensures |r| <= |s|
  {
    if s == [] then []
    else
      var init, last := s[..|s| - 1], s[|s| - 1];
      assert s == init + [last];
      Without(init, id) + (if last.id == id then [] else [last])
  }

  /** How many threads of s carry the id id. */
  function Count(s: seq<Thread>, id: int): (n: nat)
    ensures n <= |s|
  {
    |s| - |Without(s, id)|
  }

  /** Without looks at the threads one at a time: extending s by t extends the result by t unless t matches. */
  lemma WithoutSnoc(s: seq<Thread>, t: Thread, id: int)
    ensures Without(s + [t], id) == Without(s, id) + (if t.id == id then [] else [t])
    ensures Count(s + [t], id) == Count(s, id) + (if t.id == id then 1 else 0)
  {
    assert (s + [t])[..|s|] == s;
  }

  /** Without distributes over concatenation. */
  lemma {:induction false} WithoutAppend(s: seq<Thread>, u: seq<Thread>, id: int)
    ensures Without(s + u, id) == Without(s, id) + Without(u, id)
    decreases |u|
  {
    if u == [] {
      assert s + u == s;
    } else {
      var init := u[..|u| - 1];
      var last := u[|u| - 1];
      assert u == init + [last];
      assert s + u == (s + init) + [last];
      WithoutAppend(s, init, id);
      WithoutSnoc(s + init, last, id);
      WithoutSnoc(init, last, id);
    }
  }

  /** No thread of s matches id exactly when Without keeps s whole. */
  lemma {:induction false} WithoutAbsent(s: seq<Thread>, id: int)
    ensures Count(s, id) == 0 <==> Without(s, id) == s
    ensures Count(s, id) == 0 <==> forall k :: 0 <= k < |s| ==> s[k].id != id
  {
    if s != [] {
      var init := s[..|s| - 1];
      WithoutAbsent(init, id);
      assert s == init + [s[|s| - 1]];
      if Count(s, id) == 0 {
        forall k | 0 <= k < |s| ensures s[k].id != id {
          if k < |s| - 1 {
            assert s[k] == init[k];
          }
        }
      }
    }
  }

  /**
   * The ready queue once the rotation has looked at i threads of q: the
   * threads not yet looked at, then the looked-at ones that were kept.
   */
  function Rotation(q: seq<Thread>, id: int, i: nat): (r: seq<Thread>)
    requires i <= |q|
    ensures |r| == |q| - Count(q[..i], id)
  {
    q[i..] + Without(q[..i], id)
  }

  /** One turn of the rotation: the head is q[i]; it is dropped if it matches, else moved to the tail. */
  lemma RotationStep(q: seq<Thread>, id: int, i: nat)
    requires i < |q|
    ensures Rotation(q, id, i) != [] && Rotation(q, id, i)[0] == q[i]
    ensures Rotation(q, id, i + 1) == Rotation(q, id, i)[1..] + (if q[i].id == id then [] else [q[i]])
    ensures Count(q[..i + 1], id) == Count(q[..i], id) + (if q[i].id == id then 1 else 0)
  {
    assert q[..i + 1] == q[..i] + [q[i]];
    WithoutSnoc(q[..i], q[i], id);
    assert Rotation(q, id, i)[1..] == q[i + 1..] + Without(q[..i], id);
  }

  /**
   * Where the rotation started at i stops: the loop bound |q| - Count(q[..i])
   * shrinks with every drop, so it stops at the first i that reaches it.
   */
  function Sweep(q: seq<Thread>, id: int, i: nat): (r: seq<Thread>)
    requires i <= |q|
    ensures |r| <= |q|
    decreases |q| - i
  {
    if i >= |q| - Count(q[..i], id) then Rotation(q, id, i)
    else Sweep(q, id, i + 1)
  }

  /** The ready queue after `terminate` of a thread with id id, starting from q. */
  function Terminated(q: seq<Thread>, id: int): (r: seq<Thread>)
    ensures |r| <= |q|
  {
    Sweep(q, id, 0)
  }

  /** The rotation started at i stops at some k at or after i. */
  lemma {:induction false} SweepStops(q: seq<Thread>, id: int, i: nat) returns (k: nat)
    requires i <= |q|
    ensures i <= k <= |q| && Sweep(q, id, i) == Rotation(q, id, k)
    decreases |q| - i
  {
    if i >= |q| - Count(q[..i], id) {
      k := i;
    } else {
      k := SweepStops(q, id, i + 1);
    }
  }

  /** Removing the matches twice removes nothing more. */
  lemma {:induction false} WithoutTwice(s: seq<Thread>, id: int)
    ensures Without(Without(s, id), id) == Without(s, id)
  {
    if s != [] {
      var init, last := s[..|s| - 1], s[|s| - 1];
      WithoutTwice(init, id);
      assert s == init + [last];
      WithoutSnoc(init, last, id);
      if last.id != id {
        WithoutSnoc(Without(init, id), last, id);
        assert Without(s, id) == Without(init, id) + [last];
      } else {
        assert Without(s, id) == Without(init, id);
      }
    }
  }

  /**
   * `terminate` keeps every thread with another id and adds nothing: apart
   * from matches, the result is the old queue reordered, and it is never
   * longer than the old queue.
   */
  lemma TerminatedKeepsOthers(q: seq<Thread>, id: int)
    ensures multiset(Without(Terminated(q, id), id)) == multiset(Without(q, id))
    ensures |Terminated(q, id)| <= |q|
  {
    var k := SweepStops(q, id, 0);
    var head, tail := q[..k], q[k..];
    assert q == head + tail;
    WithoutAppend(tail, Without(head, id), id);
    WithoutAppend(head, tail, id);
    WithoutTwice(head, id);
  }

  /** Terminating a thread that is not queued leaves the queue and its order unchanged. */
  lemma TerminatedAbsent(q: seq<Thread>, id: int)
    requires forall k :: 0 <= k < |q| ==> q[k].id != id
    ensures Terminated(q, id) == q
  {
    SweepAbsent(q, id, 0);
  }

  lemma {:induction false} SweepAbsent(q: seq<Thread>, id: int, i: nat)
    requires forall k :: 0 <= k < |q| ==> q[k].id != id
    requires i <= |q|
    ensures Sweep(q, id, i) == q
    decreases |q| - i
  {
    WithoutAbsent(q[..i], id);
    if i < |q| {
      SweepAbsent(q, id, i + 1);
    } else {
      assert q[..i] == q;
    }
  }

  /** The single match of q sits at p. */
  ghost predicate OnlyAt(q: seq<Thread>, id: int, p: nat)
  {
    p < |q| && q[p].id == id && forall k :: 0 <= k < |q| && k != p ==> q[k].id != id
  }

  /** Count and Without on a prefix of q around its single match at p. */
  lemma PrefixAroundMatch(q: seq<Thread>, id: int, p: nat, i: nat)
    requires OnlyAt(q, id, p)
    requires i <= |q|
    ensures i <= p ==> Count(q[..i], id) == 0 && Without(q[..i], id) == q[..i]
    ensures p < i ==> Count(q[..i], id) == 1 && Without(q[..i], id) == q[..p] + q[p + 1..i]
  {
    if i <= p {
      forall k | 0 <= k < i ensures q[..i][k].id != id {
        assert q[..i][k] == q[k];
      }
      WithoutAbsent(q[..i], id);
    } else {
      var before, after := q[..p], q[p + 1..i];
      forall k | 0 <= k < |before| ensures before[k].id != id {
        assert before[k] == q[k];
      }
      forall k | 0 <= k < |after| ensures after[k].id != id {
        assert after[k] == q[p + 1 + k];
      }
      WithoutAbsent(before, id);
      WithoutAbsent(after, id);
      WithoutSnoc(before, q[p], id);
      WithoutAppend(before + [q[p]], after, id);
      assert q[..i] == before + [q[p]] + after;
    }
  }

  /**
   * Terminating a thread queued once removes it. When it is not last, the
   * rotation stops one thread early, so the old last thread comes first
   * and the rest keep their order.
   */
  lemma TerminatedOnce(q: seq<Thread>, id: int, p: nat)
    requires OnlyAt(q, id, p)
    ensures p + 1 < |q| ==> Terminated(q, id) == [q[|q| - 1]] + q[..p] + q[p + 1..|q| - 1]
    ensures p + 1 == |q| ==> Terminated(q, id) == q[..p]
    ensures forall k :: 0 <= k < |Terminated(q, id)| ==> Terminated(q, id)[k].id != id
    ensures |Terminated(q, id)| == |q| - 1
  {
    SweepOnce(q, id, p, 0);
  }

  lemma {:induction false} SweepOnce(q: seq<Thread>, id: int, p: nat, i: nat)
    requires OnlyAt(q, id, p)
    requires i <= |q| - 1
    ensures p + 1 < |q| ==> Sweep(q, id, i) == [q[|q| - 1]] + q[..p] + q[p + 1..|q| - 1]
    ensures p + 1 == |q| ==> Sweep(q, id, i) == q[..p]
    decreases |q| - i
  {
    var n := |q|;
    PrefixAroundMatch(q, id, p, i);
    if i < n - 1 || (i == n - 1 && p == n - 1) {
      if i == n - 1 {
        PrefixAroundMatch(q, id, p, n);
        assert q[..n] == q;
        assert Sweep(q, id, i) == Sweep(q, id, n);
        assert q[n..] == [] && q[p + 1..n] == [];
        assert Sweep(q, id, n) == q[..p];
      } else {
        SweepOnce(q, id, p, i + 1);
      }
    } else {
      assert q[i..] == [q[n - 1]];
    }
  }

  /**
   * The rotation loop itself, shared by both schedulers: with the counter
   * in step with the queue, it turns the queue into Terminated of it and
   * returns the counter the loop leaves behind.
   */
  method TerminateIn(ready: Queue, size: int, id: int) returns (newSize: int)
    requires ready.Valid() && size == |ready.contents|
    modifies ready.repr
    ensures ready.Valid() && fresh(ready.repr - old(ready.repr))
    ensures ready.contents == Terminated(old(ready.contents), id)
    ensures newSize == |ready.contents|
  {
    ghost var q := ready.contents;
    newSize := size;
    var i := 0;
    while i < newSize
      invariant ready.Valid() && fresh(ready.repr - old(ready.repr))
      invariant 0 <= i <= |q|
      invariant ready.contents == Rotation(q, id, i)
      invariant newSize == |ready.contents|
      invariant Sweep(q, id, i) == Sweep(q, id, 0)
    {
      RotationStep(q, id, i);
      assert Sweep(q, id, i + 1) == Sweep(q, id, i);
      var top := ready.Dequeue();
      if id == top.id {
        newSize := newSize - 1;
      } else {
        ready.Enqueue(top);
      }
      i := i + 1;
    }
    assert Sweep(q, id, i) == Rotation(q, id, i);
  }
}
