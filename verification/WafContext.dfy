/** `WafContext.run` and `close`: what native code finds behind the buffers it is given, and which leases come back. */
module WafContext {
  import opened Common
  import opened WafObjects
  import opened Records
  import opened Truncation
  import opened Budget
  import opened OffHeap
  import opened Serializer
  import opened Leases

  /** A tree that native code reads from a buffer; there is none for a null buffer. */
  type Seen = Option<Option<WafObject>>

  /** What native code has found behind the two buffers. */
  datatype Reads = Reads(persistent: Seen, ephemeral: Seen)

  /**
    How the native call ends, which is a parameter of the model: with a result, with a `RuntimeException`, or with
    another exception, such as an `AbstractWafException`.
    */
  datatype NativeEnd<R, E> = Returns(result: R) | ThrowsRuntime(error: E) | ThrowsOther(error: E)

  /** How a call of `run` ends; Unclassified and Timeout are exceptions of its own. */
  datatype RunResult<R, E> =
    | IllegalArgument
    | Unclassified
    | Timeout
    | Returned(result: R)
    | Rethrown(error: E)

  /** How a call of `close` ends. */
  datatype CloseResult<E> = Offline | Closed | ClosedThrowing(error: E)

  /** Every root of an open lease decodes to its tree. */
  lemma RootDecodes(l: ArenaLease, mem: seq<byte>, owner: seq<Tag>, i: nat, levels: nat)
    requires LeaseOk(l, mem, owner) && i < |l.roots| && Height(l.roots[i].tree) <= levels
    requires |mem| <= 0x1_0000_0000_0000_0000
    ensures Decode(mem, l.roots[i].addr, levels) == Some(l.roots[i].tree)
  {
    hide Listed, ObjectAt, Decode, Height;
    assert RootOk(l.roots[i], WorldIn(l.arena, mem, owner));
    DecodeObject(mem, l.roots[i].area, l.roots[i].addr, l.roots[i].tree, levels);
  }

  /** All that native code can read of a buffer, down to the depth limit. */
  function Reached(mem: seq<byte>, buffer: Option<nat>, levels: nat): Seen {
    match buffer case None => None case Some(a) => Some(Decode(mem, a, levels))
  }

  /** What the truncated input would give. */
  function Expected(g: Graph, lim: Limits, root: Option<Ref>): Seen {
    match root
    case None => None
    case Some(v) => var o := Truncate(g, lim, v); Some(if o.Done? then Some(o.tree) else None)
  }

  /** What serializing an optional map counts. */
  function CountsOf(g: Graph, lim: Limits, root: Option<Ref>): Counts {
    if root.Some? && Truncate(g, lim, root.value).Done? then Truncate(g, lim, root.value).counts else ZERO
  }

  lemma NothingCounted(g: Graph, lim: Limits, c: Counts)
    ensures c.Plus(CountsOf(g, lim, None)) == c
  {
  }

  /** The serialization of an optional map throws nothing. */
  predicate Encodes(g: Graph, lim: Limits, root: Option<Ref>) {
    root.Some? ==> Truncate(g, lim, root.value).Done?
  }

  /** What becomes of the end of the native call: only a `RuntimeException` is caught, and wrapped. */
  function Ended<R, E>(native: NativeEnd<R, E>): RunResult<R, E> {
    match native
    case Returns(result) => Returned(result)
    case ThrowsRuntime(_) => Unclassified
    case ThrowsOther(error) => Rethrown(error)
  }

  lemma EndedIs<R, E>(native: NativeEnd<R, E>)
    ensures native.Returns? ==> Ended(native) == Returned(native.result)
    ensures native.ThrowsRuntime? ==> Ended(native) == Unclassified
    ensures native.ThrowsOther? ==> Ended(native) == Rethrown(native.error)
  {
  }

  class WafContext {
    const lease: ArenaLease
    var online: bool

    ghost predicate Valid(pool: ArenaPool)
      reads this, pool, lease
    {
      online ==> lease in pool.open
    }

    constructor (heap: Heap, pool: ArenaPool)
      requires pool.Valid(heap)
      modifies heap, pool
      ensures pool.Valid(heap) && Valid(pool) && online && fresh(lease) && pool.open == old(pool.open) + {lease}
    {
      hide ArenaPool.Valid, Clear, ListsOf, LeaseOk;
      var l := pool.GetLease(heap);
      lease, online := l, true;
    }

    /** `serializeMore` on a lease, for a map or for null. */
    method SerializeTo(heap: Heap, pool: ArenaPool, l: ArenaLease, lim: Limits, root: Option<Ref>, g: Graph,
                       metrics: WafMetrics?)
      returns (ok: bool, buffer: Option<nat>)
      requires pool.Valid(heap) && l in pool.open
      modifies heap, l.arena, l.arena.recs, l.arena.strs, l`roots, l`first, if metrics == null then {} else {metrics}
      ensures pool.Valid(heap) && old(l.roots) <= l.roots && (ok <==> Encodes(g, lim, root))
      ensures |l.roots| == |old(l.roots)| + if ok && root.Some? then 1 else 0
      ensures ok ==> Holds(l, buffer, g, lim, root)
      ensures ok && metrics != null ==> metrics.Counted() == old(metrics.Counted()).Plus(CountsOf(g, lim, root))
    {
      hide ArenaPool.Valid, Truncate;
      buffer := None;
      if root.None? {
        return true, None;
      }
      buffer := pool.SerializeMore(heap, l, lim, root.value, g, metrics);
      ok := buffer.Some?;
    }

    /** The buffer is that of a root of the lease, for the truncation of the map. */
    static ghost predicate Holds(l: ArenaLease, buffer: Option<nat>, g: Graph, lim: Limits, root: Option<Ref>)
      reads l
    {
      match root
      case None => buffer == None
      case Some(v) =>
        exists i :: 0 <= i < |l.roots| && buffer == Some(l.roots[i].addr) && Truncate(g, lim, v).Done?
                    && l.roots[i].tree == Truncate(g, lim, v).tree
    }

    /** The inner `try` of `run`: both serializations, the second on a lease of its own. */
    method Encode(heap: Heap, pool: ArenaPool, lim: Limits, persistent: Option<Ref>, ephemeral: Option<Ref>, g: Graph,
                  metrics: WafMetrics?)
      returns (ok: bool, pb: Option<nat>, eb: Option<nat>, el: ArenaLease?)
      requires pool.Valid(heap) && lease in pool.open
      modifies heap, pool, lease, lease.arena, lease.arena.recs, lease.arena.strs, FirstOf(pool.arenas)
      modifies if metrics == null then {} else {metrics}
      ensures pool.Valid(heap) && old(lease.roots) <= lease.roots
      ensures |lease.roots| == |old(lease.roots)| + if Encodes(g, lim, persistent) && persistent.Some? then 1 else 0
      ensures ok <==> Encodes(g, lim, persistent) && Encodes(g, lim, ephemeral)
      ensures ok && metrics != null ==>
        metrics.Counted() == old(metrics.Counted()).Plus(CountsOf(g, lim, persistent)).Plus(CountsOf(g, lim, ephemeral))
      ensures ok ==> Holds(lease, pb, g, lim, persistent)
      ensures ok ==> if ephemeral.None? then eb == None else el != null && Holds(el, eb, g, lim, ephemeral)
      ensures el == null ==> pool.open == old(pool.open) && pool.arenas == old(pool.arenas)
      ensures el != null ==> ephemeral.Some? && fresh(el) && pool.open == old(pool.open) + {el}
      ensures el != null ==> if old(pool.arenas) == [] then pool.arenas == [] && fresh(el.arena) && fresh(ListsOf(el.arena))
                             else el.arena == old(pool.arenas)[0] && pool.arenas == old(pool.arenas)[1..]
    {
      hide *;
      NothingEncodes(g, lim);
      FirstWas(pool.arenas);
      eb, el := None, null;
      ok, pb := SerializeTo(heap, pool, lease, lim, persistent, g, metrics);
      if metrics != null {
        NothingCounted(g, lim, metrics.Counted());
      }
      if ok && ephemeral.Some? {
        ok, eb, el := EncodeEphemeral(heap, pool, lim, ephemeral, g, metrics);
      }
    }

    method EncodeEphemeral(heap: Heap, pool: ArenaPool, lim: Limits, ephemeral: Option<Ref>, g: Graph, metrics: WafMetrics?)
      returns (ok: bool, eb: Option<nat>, el: ArenaLease)
      requires pool.Valid(heap)
      modifies heap, pool, FirstOf(pool.arenas), if metrics == null then {} else {metrics}
      ensures pool.Valid(heap) && fresh(el) && pool.open == old(pool.open) + {el}
      ensures (ok <==> Encodes(g, lim, ephemeral)) && (ok ==> Holds(el, eb, g, lim, ephemeral))
      ensures ok && metrics != null ==> metrics.Counted() == old(metrics.Counted()).Plus(CountsOf(g, lim, ephemeral))
      ensures if old(pool.arenas) == [] then pool.arenas == [] && fresh(el.arena) && fresh(ListsOf(el.arena))
              else el.arena == old(pool.arenas)[0] && pool.arenas == old(pool.arenas)[1..]
    {
      hide ArenaPool.Valid, Holds, Encodes, Clear, CountsOf;
      el := pool.GetLease(heap);
      ok, eb := SerializeTo(heap, pool, el, lim, ephemeral, g, metrics);
    }

    /**
      `run`. When the native library is called it finds behind each buffer exactly the truncated map. The ephemeral
      lease has come back to the pool however the call ends, and no other lease has.
      */
    method Run<R, E>(heap: Heap, pool: ArenaPool, persistent: Option<Ref>, ephemeral: Option<Ref>, g: Graph,
                     lim: Option<Limits>, budgetLeft: nat, metrics: WafMetrics?, native: NativeEnd<R, E>)
      returns (r: RunResult<R, E>, seen: Option<Reads>)
      requires pool.Valid(heap) && Valid(pool)
      modifies heap, pool, lease, lease.arena, lease.arena.recs, lease.arena.strs, FirstOf(pool.arenas)
      modifies if metrics == null then {} else {metrics}
      ensures pool.Valid(heap) && Valid(pool) && old(lease.roots) <= lease.roots
      ensures pool.open == old(pool.open)
      ensures pool.arenas == old(pool.arenas) || (old(pool.arenas) == [] && |pool.arenas| == 1)
      ensures |lease.roots| == |old(lease.roots)|
                + if online && lim.Some? && persistent.Some? && Encodes(g, lim.value, persistent) then 1 else 0
      ensures online && lim.Some? && Encodes(g, lim.value, persistent) && Encodes(g, lim.value, ephemeral) && metrics != null ==>
        metrics.Counted() == old(metrics.Counted()).Plus(CountsOf(g, lim.value, persistent)).Plus(CountsOf(g, lim.value, ephemeral))
      ensures var encoded := lim.Some? && Encodes(g, lim.value, persistent) && Encodes(g, lim.value, ephemeral);
        var called := online && encoded && budgetLeft > 0;
        && (seen.Some? <==> called)
        && (called && heap.Addressable() ==>
              seen == Some(Reads(Expected(g, lim.value, persistent), Expected(g, lim.value, ephemeral))))
        && (r.IllegalArgument? <==> lim.None?)
        && (r.Unclassified? <==> lim.Some? && (!online || !encoded || (called && native.ThrowsRuntime?)))
        && (r.Timeout? <==> online && encoded && budgetLeft == 0)
        && (r.Returned? <==> called && native.Returns?) && (r.Returned? ==> r.result == native.result)
        && (r.Rethrown? <==> called && native.ThrowsOther?) && (r.Rethrown? ==> r.error == native.error)
    {
      hide *;
      ContextLease(pool);
      FirstWas(pool.arenas);
      if lim.None? {
        return IllegalArgument, None;
      }
      if !online {
        return Unclassified, None;
      }
      EndedIs(native);
      r, seen := RunLocked(heap, pool, persistent, ephemeral, g, lim.value, budgetLeft, metrics, native);
      ContextLease(pool);
    }

    lemma ContextLease(pool: ArenaPool)
      ensures Valid(pool) <==> (online ==> lease in pool.open)
    {
    }

    /** The rest of `run`, in a context that is online. */
    method RunLocked<R, E>(heap: Heap, pool: ArenaPool, persistent: Option<Ref>, ephemeral: Option<Ref>, g: Graph,
                           lim: Limits, budgetLeft: nat, metrics: WafMetrics?, native: NativeEnd<R, E>)
      returns (r: RunResult<R, E>, seen: Option<Reads>)
      requires pool.Valid(heap) && lease in pool.open
      modifies heap, pool, lease, lease.arena, lease.arena.recs, lease.arena.strs, FirstOf(pool.arenas)
      modifies if metrics == null then {} else {metrics}
      ensures pool.Valid(heap) && old(lease.roots) <= lease.roots
      ensures pool.open == old(pool.open)
      ensures pool.arenas == old(pool.arenas) || (old(pool.arenas) == [] && |pool.arenas| == 1)
      ensures |lease.roots| == |old(lease.roots)| + if persistent.Some? && Encodes(g, lim, persistent) then 1 else 0
      ensures Encodes(g, lim, persistent) && Encodes(g, lim, ephemeral) && metrics != null ==>
        metrics.Counted() == old(metrics.Counted()).Plus(CountsOf(g, lim, persistent)).Plus(CountsOf(g, lim, ephemeral))
      ensures if !(Encodes(g, lim, persistent) && Encodes(g, lim, ephemeral)) then r == Unclassified && seen == None
              else if budgetLeft == 0 then r == Timeout && seen == None
              else r == Ended(native) && seen.Some?
                   && (heap.Addressable() ==> seen == Some(Reads(Expected(g, lim, persistent), Expected(g, lim, ephemeral))))
    {
      hide *;
      var ok, pb, eb, el := Encode(heap, pool, lim, persistent, ephemeral, g, metrics);
      seen := None;
      if !ok {
        r := Unclassified;
      } else if budgetLeft == 0 {
        r := Timeout;
      } else {
        var levels := Levels(lim.maxDepth);
        r, seen := Ended(native), Some(Reads(Reached(heap.mem, pb, levels), Reached(heap.mem, eb, levels)));
        NativeSees(heap, pool, lease, pb, g, lim, persistent);
        if el == null {
          NothingSeen(heap.mem, g, lim, levels);
        } else {
          NativeSees(heap, pool, el, eb, g, lim, ephemeral);
        }
      }
      if el != null {
        ListsAre(el.arena);
        FirstWas(old(pool.arenas));
        pool.Close(heap, el);
      }
    }

    /**
      `close`: the context's lease comes back, once, whether or not clearing the native context throws, which is a
      parameter of the model; the exception is thrown on after that. A second call throws and changes nothing.
      */
    method Close<E>(heap: Heap, pool: ArenaPool, clear: Option<E>) returns (r: CloseResult<E>)
      requires pool.Valid(heap) && Valid(pool)
      modifies this, pool, lease`closeCalled, lease.arena, lease.arena.recs, lease.arena.strs
      ensures pool.Valid(heap) && Valid(pool) && !online
      ensures r == if !old(online) then Offline else if clear.Some? then ClosedThrowing(clear.value) else Closed
      ensures if old(online) then pool.open == old(pool.open) - {lease} && pool.arenas == [lease.arena] + old(pool.arenas)
              else pool.open == old(pool.open) && pool.arenas == old(pool.arenas)
    {
      hide LeaseOk, Listed, Clear, AllApart;
      if !online {
        return Offline;
      }
      online := false;
      var exc := clear;
      assert pool.Valid(heap);
      pool.Close(heap, lease);
      r := if exc.Some? then ClosedThrowing(exc.value) else Closed;
    }
  }

  lemma LeaseIsOpen(heap: Heap, pool: ArenaPool, l: ArenaLease)
    requires pool.Valid(heap) && l in pool.open
    ensures LeaseOk(l, heap.mem, heap.owner) && !l.closeCalled
  {
  }

  /** Behind a buffer that holds a root, native code reads the truncated map. */
  lemma NativeSees(heap: Heap, pool: ArenaPool, l: ArenaLease, buffer: Option<nat>, g: Graph, lim: Limits, root: Option<Ref>)
    requires pool.Valid(heap) && l in pool.open && WafContext.Holds(l, buffer, g, lim, root)
    ensures heap.Addressable() ==> Reached(heap.mem, buffer, Levels(lim.maxDepth)) == Expected(g, lim, root)
  {
    LeaseIsOpen(heap, pool, l);
    hide ArenaPool.Valid, LeaseOk, Decode, Ser, Levels;
    if heap.Addressable() && root.Some? {
      var i :| 0 <= i < |l.roots| && buffer == Some(l.roots[i].addr) && Truncate(g, lim, root.value).Done?
               && l.roots[i].tree == Truncate(g, lim, root.value).tree;
      SerHeight(g, lim, Child(None, root.value), lim.maxElements, lim.maxDepth);
      RootDecodes(l, heap.mem, heap.owner, i, Levels(lim.maxDepth));
    }
  }

  lemma NothingEncodes(g: Graph, lim: Limits)
    ensures Encodes(g, lim, None)
  {
  }

  lemma NothingSeen(mem: seq<byte>, g: Graph, lim: Limits, levels: nat)
    ensures Reached(mem, None, levels) == Expected(g, lim, None)
  {
  }
}
