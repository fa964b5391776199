/** The process-wide frame cache (cache.go), threaded through calls as a value.

    The symbolizer `runtime.CallersFrames` is a parameter: a total function from a
    pointer to the raw frames it reports, so resolving the same pointer twice gives
    the same answer. */
module FrameCache {
  import opened FrameNames

  /** A program counter (Go's uintptr on a 64-bit platform). */
  newtype Ptr = x: int | 0 <= x < 0x1_0000_0000_0000_0000

  /** The platform symbolizer: the logical calls one program counter stands for,
      innermost (inlined) first. */
  type Oracle = Ptr -> seq<RawFrame>

  /** The contents of `frameCache`. */
  type Cache = map<Ptr, seq<Frame>>

  predicate AllSplittable(raws: seq<RawFrame>) {
    forall k :: 0 <= k < |raws| ==> Splittable(raws[k].functionName)
  }

  /** What getFrameForPtr needs of the symbolizer on a miss: at least one frame
      (on none, the loop would convert the zero runtime.Frame, whose empty name makes
      splitFunction panic) and only names splitFunction accepts. */
  predicate Resolvable(raws: seq<RawFrame>) {
    |raws| > 0 && AllSplittable(raws)
  }

  /** The reference resolution of one pointer: fromRuntimeFrame on every raw frame,
      in the symbolizer's order. */
  function Resolve(raws: seq<RawFrame>): (frames: seq<Frame>)
    requires AllSplittable(raws)
    ensures |frames| == |raws|
  {
    if |raws| == 0 then [] else [FromRuntimeFrame(raws[0])] + Resolve(raws[1..])
  }

  /** Resolution is fromRuntimeFrame applied position by position, so it keeps the
      symbolizer's order. */
  lemma {:induction false} ResolveElements(raws: seq<RawFrame>)
    requires AllSplittable(raws)
    ensures forall k :: 0 <= k < |raws| ==> Resolve(raws)[k] == FromRuntimeFrame(raws[k])
  {
    if |raws| > 0 {
      ResolveElements(raws[1..]);
    }
  }

  /** Every stored entry is the resolution of its key. */
  predicate Coherent(cache: Cache, oracle: Oracle) {
    forall p :: p in cache ==> Resolvable(oracle(p)) && cache[p] == Resolve(oracle(p))
  }

  /** `after` keeps every entry of `before` unchanged. */
  predicate Extends(before: Cache, after: Cache) {
    forall p :: p in before ==> p in after && after[p] == before[p]
  }

  lemma AllSplittableAppend(a: seq<RawFrame>, b: seq<RawFrame>)
    requires AllSplittable(a) && AllSplittable(b)
    ensures AllSplittable(a + b)
  {
  }

  /** Resolution distributes over concatenation: each raw frame converts on its own. */
  lemma {:induction false} ResolveAppend(a: seq<RawFrame>, b: seq<RawFrame>)
    requires AllSplittable(a) && AllSplittable(b)
    ensures AllSplittable(a + b)
    ensures Resolve(a + b) == Resolve(a) + Resolve(b)
  {
    AllSplittableAppend(a, b);
    if |a| == 0 {
      assert a + b == b;
    } else {
      var rest := a[1..];
      assert (a + b)[1..] == rest + b;
      assert (a + b)[0] == a[0];
      ResolveAppend(rest, b);
    }
  }

  /** The loop of getFrameForPtr over `runtime.CallersFrames`: take the next raw frame
      (the cursor is the index `next`), append its conversion, and stop after the
      frame reported with `more == false`. */
  method ConvertCallers(raws: seq<RawFrame>) returns (frames: seq<Frame>)
    requires Resolvable(raws)
    ensures frames == Resolve(raws) && |frames| > 0
  {
    var next := 0;
    frames := [];
    while true
      invariant 0 <= next < |raws|
      invariant frames == Resolve(raws[..next])
      decreases |raws| - next
    {
      var frame := raws[next];
      next := next + 1;
      var more := next < |raws|;
      assert raws[..next] == raws[..next - 1] + [frame];
      ResolveAppend(raws[..next - 1], [frame]);
      frames := frames + [FromRuntimeFrame(frame)];
      if !more {
        break;
      }
    }
    assert raws[..next] == raws;
  }

  /** getFrameForPtr: answer from the cache on a hit; on a miss convert the
      symbolizer's frames, store the result under `ptr` and return it. */
  method GetFrameForPtr(cache: Cache, oracle: Oracle, ptr: Ptr) returns (frames: seq<Frame>, cache': Cache)
    requires ptr !in cache ==> Resolvable(oracle(ptr))
    ensures ptr in cache ==> frames == cache[ptr] && cache' == cache
    ensures ptr !in cache ==> frames == Resolve(oracle(ptr)) && |frames| > 0
    ensures ptr in cache' && cache'[ptr] == frames
    ensures Extends(cache, cache') && cache'.Keys <= cache.Keys + {ptr}
    ensures Coherent(cache, oracle) ==> Coherent(cache', oracle) && frames == Resolve(oracle(ptr))
  {
    if ptr in cache {
      return cache[ptr], cache;
    }
    frames := ConvertCallers(oracle(ptr));
    cache' := cache[ptr := frames];
  }

  /** Looking the same pointer up twice in a row: the second call is a hit on the
      entry the first one stored, so both return the same frames. */
  method LookupTwice(cache: Cache, oracle: Oracle, ptr: Ptr) returns (first: seq<Frame>, second: seq<Frame>, cache': Cache)
    requires ptr !in cache ==> Resolvable(oracle(ptr))
    ensures first == second
    ensures ptr in cache' && cache'[ptr] == first
    ensures Extends(cache, cache') && cache'.Keys <= cache.Keys + {ptr}
  {
    var stored;
    first, stored := GetFrameForPtr(cache, oracle, ptr);
    second, cache' := GetFrameForPtr(stored, oracle, ptr);
  }
}
