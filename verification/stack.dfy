/** Stack capture and the frame iterator (stack.go).

    A captured stack is a fixed array of program counters and a count. Its iterator
    expands one pointer at a time through the frame cache, since one pointer can
    stand for several logical calls when the compiler inlined them. */
module Stacks {
  import opened FrameNames
  import opened FrameCache

  /** The number of program counters a Stack can hold. */
  const Depth := 32

  /** A captured stack: the `Depth`-slot pointer array and how many slots are used. */
  datatype Stack = Stack(ptrs: seq<Ptr>, n: int)
  {
    /** Stack.Frames: an iterator over the used slots, with nothing expanded yet. */
    function Frames(): (it: FrameIter)
      requires 0 <= n <= |ptrs|
      ensures |it.ptrs| == n
      ensures forall k :: 0 <= k < n ==> it.ptrs[k] == ptrs[k]
      ensures it.current == []
    {
      FrameIter(ptrs[..n], [])
    }
  }

  /** A stack as Capture leaves it: a full array and a count within it. */
  predicate Valid(s: Stack) {
    |s.ptrs| == Depth && 0 <= s.n <= Depth
  }

  /** Capture, with the pointers the runtime's stack walk produced (after the skipped
      callers) as a parameter: runtime.Callers copies as many as fit into the array
      and returns how many it copied; the other slots keep their zero value. */
  function Capture(walked: seq<Ptr>): (s: Stack)
    ensures Valid(s)
    ensures s.n == if |walked| < Depth then |walked| else Depth
    ensures forall k :: 0 <= k < s.n ==> s.ptrs[k] == walked[k]
    ensures forall k :: s.n <= k < Depth ==> s.ptrs[k] == 0
  {
    var n := if |walked| < Depth then |walked| else Depth;
    Stack(walked[..n] + seq(Depth - n, _ => 0 as Ptr), n)
  }

  /** The Frames iterator: the pointers not yet expanded and the frames of the last
      expanded pointer not yet returned. */
  datatype FrameIter = FrameIter(ptrs: seq<Ptr>, current: seq<Frame>)

  predicate AllResolvable(oracle: Oracle, ptrs: seq<Ptr>) {
    forall k :: 0 <= k < |ptrs| ==> Resolvable(oracle(ptrs[k]))
  }

  /** What Next needs so that getFrameForPtr does not panic: every pointer still to
      be expanded is either cached or resolvable. */
  predicate Ready(cache: Cache, oracle: Oracle, ptrs: seq<Ptr>) {
    forall k :: 0 <= k < |ptrs| ==> ptrs[k] in cache || Resolvable(oracle(ptrs[k]))
  }

  /** The frames a sequence of pointers stands for: each pointer's resolution, in
      stack order (innermost call first). */
  function Flatten(oracle: Oracle, ptrs: seq<Ptr>): seq<Frame>
    requires AllResolvable(oracle, ptrs)
  {
    if |ptrs| == 0 then [] else Resolve(oracle(ptrs[0])) + Flatten(oracle, ptrs[1..])
  }

  /** Everything the iterator still has to return, in order. */
  function Remaining(it: FrameIter, oracle: Oracle): seq<Frame>
    requires AllResolvable(oracle, it.ptrs)
  {
    it.current + Flatten(oracle, it.ptrs)
  }

  /** With a coherent cache, a ready pointer list resolves everywhere. */
  lemma ReadyResolvable(cache: Cache, oracle: Oracle, ptrs: seq<Ptr>)
    requires Coherent(cache, oracle) && Ready(cache, oracle, ptrs)
    ensures AllResolvable(oracle, ptrs)
  {
  }

  /** Every pointer stands for at least one frame, so the expansion is at least as
      long as the pointer list, and empty exactly when the list is. */
  lemma {:induction false} FlattenLength(oracle: Oracle, ptrs: seq<Ptr>)
    requires AllResolvable(oracle, ptrs)
    ensures |Flatten(oracle, ptrs)| >= |ptrs|
    ensures Flatten(oracle, ptrs) == [] <==> ptrs == []
  {
    if |ptrs| > 0 {
      FlattenLength(oracle, ptrs[1..]);
    }
  }

  /** Expanding a concatenation of pointer lists expands each part in turn. */
  lemma {:induction false} FlattenAppend(oracle: Oracle, a: seq<Ptr>, b: seq<Ptr>)
    requires AllResolvable(oracle, a) && AllResolvable(oracle, b)
    ensures AllResolvable(oracle, a + b)
    ensures Flatten(oracle, a + b) == Flatten(oracle, a) + Flatten(oracle, b)
  {
    if |a| == 0 {
      assert a + b == b;
    } else {
      assert (a + b)[0] == a[0];
      assert (a + b)[1..] == a[1..] + b;
      FlattenAppend(oracle, a[1..], b);
    }
  }

  /** A single pointer expands to exactly the frames the symbolizer reports for it,
      inlined calls first, so an inlined call is returned before its caller. */
  lemma FlattenSingle(oracle: Oracle, ptr: Ptr)
    requires Resolvable(oracle(ptr))
    ensures AllResolvable(oracle, [ptr])
    ensures Flatten(oracle, [ptr]) == Resolve(oracle(ptr))
  {
  }

  /** Frames.Next. The loop fetches the next pointer's frames while nothing is left
      of the current pointer; once they run out it returns the zero Frame and false,
      otherwise the first pending frame and true. */
  method Next(it: FrameIter, cache: Cache, oracle: Oracle)
    returns (frame: Frame, ok: bool, it': FrameIter, cache': Cache)
    requires Coherent(cache, oracle) && Ready(cache, oracle, it.ptrs)
    ensures Coherent(cache', oracle) && Extends(cache, cache')
    ensures AllResolvable(oracle, it.ptrs) && AllResolvable(oracle, it'.ptrs)
    ensures ok <==> Remaining(it, oracle) != []
    ensures ok ==> Remaining(it, oracle) == [frame] + Remaining(it', oracle)
    ensures !ok ==> frame == ZeroFrame && it' == it && it.ptrs == [] && it.current == [] && cache' == cache
    ensures it.current != [] ==> it'.ptrs == it.ptrs && cache' == cache
    ensures it.current == [] && it.ptrs != [] ==>
      it'.ptrs == it.ptrs[1..] && cache'.Keys <= cache.Keys + {it.ptrs[0]} && it.ptrs[0] in cache'
    ensures it.current == [] && it.ptrs != [] && it.ptrs[0] in cache ==> cache' == cache
  {
    ReadyResolvable(cache, oracle, it.ptrs);
    var ptrs, current := it.ptrs, it.current;
    cache' := cache;
    while |current| == 0
      invariant Coherent(cache', oracle) && Extends(cache, cache')
      invariant AllResolvable(oracle, ptrs)
      invariant current + Flatten(oracle, ptrs) == Remaining(it, oracle)
      invariant |current| == 0 ==> ptrs == it.ptrs && current == it.current && cache' == cache
      invariant it.current != [] ==> ptrs == it.ptrs && cache' == cache
      invariant it.current == [] && it.ptrs != [] && |current| > 0 ==>
        ptrs == it.ptrs[1..] && cache'.Keys <= cache.Keys + {it.ptrs[0]} && it.ptrs[0] in cache'
      invariant it.current == [] && it.ptrs != [] && it.ptrs[0] in cache ==> cache' == cache
      decreases |ptrs|
    {
      if |ptrs| == 0 {
        return ZeroFrame, false, it, cache';
      }
      var expanded, grown := GetFrameForPtr(cache', oracle, ptrs[0]);
      ExpandFirst(oracle, ptrs);
      ExtendsTransitive(cache, cache', grown);
      cache' := grown;
      current, ptrs := expanded, ptrs[1..];
    }
    PopFirst(current, Flatten(oracle, ptrs));
    frame, current := current[0], current[1..];
    it' := FrameIter(ptrs, current);
    ok := true;
  }

  /** Expanding the first pointer moves its frames out of the pointer list. */
  lemma ExpandFirst(oracle: Oracle, ptrs: seq<Ptr>)
    requires |ptrs| > 0 && AllResolvable(oracle, ptrs)
    ensures AllResolvable(oracle, ptrs[1..])
    ensures |Resolve(oracle(ptrs[0]))| > 0
    ensures Flatten(oracle, ptrs) == Resolve(oracle(ptrs[0])) + Flatten(oracle, ptrs[1..])
  {
  }

  lemma PopFirst(current: seq<Frame>, rest: seq<Frame>)
    requires |current| > 0
    ensures current + rest == [current[0]] + (current[1..] + rest)
  {
  }

  lemma ExtendsTransitive(a: Cache, b: Cache, c: Cache)
    requires Extends(a, b) && Extends(b, c)
    ensures Extends(a, c)
  {
  }

  /** The caller's loop `for frame, ok := frames.Next(); ok; frame, ok = frames.Next()`:
      it returns every remaining frame once, in order, and then stops. */
  method Drain(it: FrameIter, cache: Cache, oracle: Oracle) returns (out: seq<Frame>, cache': Cache)
    requires Coherent(cache, oracle) && Ready(cache, oracle, it.ptrs)
    ensures AllResolvable(oracle, it.ptrs)
    ensures out == Remaining(it, oracle)
    ensures Coherent(cache', oracle) && Extends(cache, cache')
  {
    ReadyResolvable(cache, oracle, it.ptrs);
    out := [];
    cache' := cache;
    var cur := it;
    var more := true;
    while more
      invariant Coherent(cache', oracle) && Extends(cache, cache')
      invariant AllResolvable(oracle, cur.ptrs)
      invariant out + Remaining(cur, oracle) == Remaining(it, oracle)
      invariant !more ==> Remaining(cur, oracle) == []
      decreases |Remaining(cur, oracle)|, more
    {
      var frame, ok, next, grown := Next(cur, cache', oracle);
      if ok {
        out := out + [frame];
        assert out + Remaining(next, oracle) == Remaining(it, oracle);
      }
      ReadyFromResolvable(grown, oracle, next.ptrs);
      cur, cache', more := next, grown, ok;
    }
  }

  /** A list that resolves everywhere is ready whatever the cache holds. */
  lemma ReadyFromResolvable(cache: Cache, oracle: Oracle, ptrs: seq<Ptr>)
    requires AllResolvable(oracle, ptrs)
    ensures Ready(cache, oracle, ptrs)
  {
  }

  /** Iterating a captured stack returns, in stack order, the frames of each of its
      first `n` pointers; the frame cache never changes what is returned. */
  method StackFrames(stack: Stack, cache: Cache, oracle: Oracle) returns (out: seq<Frame>, cache': Cache)
    requires 0 <= stack.n <= |stack.ptrs|
    requires Coherent(cache, oracle) && AllResolvable(oracle, stack.ptrs[..stack.n])
    ensures out == Flatten(oracle, stack.ptrs[..stack.n])
    ensures |out| >= stack.n
    ensures Coherent(cache', oracle) && Extends(cache, cache')
  {
    var it := stack.Frames();
    assert it.ptrs == stack.ptrs[..stack.n];
    out, cache' := Drain(it, cache, oracle);
    FlattenLength(oracle, it.ptrs);
  }

  /** A freshly captured stack iterates over exactly the walked pointers that fit. */
  lemma CaptureThenFrames(walked: seq<Ptr>)
    ensures var it := Capture(walked).Frames();
      && it.ptrs == walked[..if |walked| < Depth then |walked| else Depth]
      && it.current == []
  {
  }

  /** Asking a fresh iterator for its first frame twice, the second time with the
      cache the first call filled, gives the same frame: the cache only saves work.
      When the first call had to expand a pointer, it stored it, so the second call
      is answered from the cache and leaves it as it was. */
  method FirstFrameTwice(it: FrameIter, cache: Cache, oracle: Oracle)
    returns (first: Frame, second: Frame, ok: bool, warm: Cache, warmer: Cache)
    requires Coherent(cache, oracle) && Ready(cache, oracle, it.ptrs)
    ensures first == second
    ensures it.current == [] && it.ptrs != [] ==> it.ptrs[0] in warm && warmer == warm
    ensures AllResolvable(oracle, it.ptrs)
    ensures ok <==> Remaining(it, oracle) != []
    ensures ok ==> first == Remaining(it, oracle)[0]
  {
    var ok1, ok2, rest1, rest2;
    first, ok1, rest1, warm := Next(it, cache, oracle);
    ReadyFromResolvable(warm, oracle, it.ptrs);
    second, ok2, rest2, warmer := Next(it, warm, oracle);
    ok := ok1;
    if ok {
      assert first == ([first] + Remaining(rest1, oracle))[0];
      assert second == ([second] + Remaining(rest2, oracle))[0];
    }
  }
}
