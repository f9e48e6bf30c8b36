/**
 Results as mutable objects.  The exit rules update a LINEAR/GENERAL
 operand in place (its multiplier, and in `finalizeResult` its linear map
 and residual), so a result that is also held by the subexpression cache
 must be handed out as a copy (`LinearRepn.duplicate`).  Here results live
 in a heap of references, and the cache holds references.
 */
module SharedResults {
  import opened Wrappers
  import opened Numbers
  import opened LinearMaps
  import opened LinearRepn
  import opened ExitRules

  type Ref = nat

  /** A tagged result whose LINEAR/GENERAL payload is an object reference. */
  datatype Slot = ConstSlot(value: Num) | LinearSlot(ref: Ref) | GeneralSlot(ref: Ref)

  datatype Heap = Heap(objs: map<Ref, Repn>, next: Ref) {
    ghost predicate Valid() {
      forall r :: r in objs ==> r < next
    }

    predicate Holds(s: Slot) {
      s.ConstSlot? || s.ref in objs
    }

    /** The tagged value a slot currently stands for. */
    function Deref(s: Slot): Tagged
      requires Holds(s)
    {
      match s
      case ConstSlot(v) => Constant(v)
      case LinearSlot(r) => Linear(objs[r])
      case GeneralSlot(r) => General(objs[r])
    }

    /** An in-place update of one object. */
    function Store(r: Ref, repn: Repn): (h: Heap)
      requires r in objs
      ensures h.objs == objs[r := repn] && h.next == next
      ensures Valid() ==> h.Valid()
    {
      this.(objs := objs[r := repn])
    }
  }

  datatype Handed = Handed(heap: Heap, slot: Slot)

  /** `duplicate`: a fresh object with the same multiplier, constant, a copy of the map, and the same residual. */
  function Duplicate(h: Heap, r: Ref): (d: Handed)
    requires h.Valid() && r in h.objs
    ensures d.heap.Valid() && d.slot.LinearSlot?
    ensures d.slot.ref !in h.objs
    ensures d.heap.objs == h.objs[d.slot.ref := h.objs[r]]
  {
    Handed(Heap(h.objs[h.next := h.objs[r]], h.next + 1), LinearSlot(h.next))
  }

  /** A CONSTANT is a plain number and is handed out as is; anything else is duplicated, keeping its tag. */
  function HandOut(h: Heap, s: Slot): (d: Handed)
    requires h.Valid() && h.Holds(s)
    ensures d.heap.Valid() && d.heap.Holds(s) && d.heap.Holds(d.slot)
    ensures d.heap.Deref(d.slot) == h.Deref(s)
    ensures forall r :: r in h.objs ==> r in d.heap.objs && d.heap.objs[r] == h.objs[r]
    ensures s.ConstSlot? ==> d == Handed(h, s)
    ensures !s.ConstSlot? ==> d.slot.ref !in h.objs && (d.slot.LinearSlot? <==> s.LinearSlot?)
  {
    if s.ConstSlot? then Handed(h, s)
    else
      var d := Duplicate(h, s.ref);
      if s.LinearSlot? then d else Handed(d.heap, GeneralSlot(d.slot.ref))
  }

  type SlotCache = map<NodeId, Slot>

  ghost predicate CacheHeld(h: Heap, cache: SlotCache) {
    forall n :: n in cache ==> h.Holds(cache[n])
  }

  datatype Named = Named(heap: Heap, cache: SlotCache, slot: Slot)

  /** Exit of a named node: record the operand's slot, hand the parent a copy. */
  function NamedExitShared(h: Heap, cache: SlotCache, node: NodeId, s: Slot): (r: Named)
    requires h.Valid() && CacheHeld(h, cache) && h.Holds(s)
    ensures r.heap.Valid() && CacheHeld(r.heap, r.cache) && r.heap.Holds(r.slot)
    ensures r.cache == cache[node := s]
    ensures r.heap.Deref(r.slot) == h.Deref(s)
    ensures !s.ConstSlot? ==> r.slot.ref !in h.objs
  {
    var d := HandOut(h, s);
    Named(d.heap, cache[node := s], d.slot)
  }

  /** A cache hit hands out a copy of the cached result; a miss is `None` (the walker descends). */
  function BeforeNamedShared(h: Heap, cache: SlotCache, node: NodeId): (r: Option<Handed>)
    requires h.Valid() && CacheHeld(h, cache)
    ensures r.Some? <==> node in cache
    ensures r.Some? ==> r.value.heap.Valid() && CacheHeld(r.value.heap, cache) && r.value.heap.Holds(r.value.slot)
    ensures r.Some? ==> r.value.heap.Deref(r.value.slot) == h.Deref(cache[node])
    ensures r.Some? && !cache[node].ConstSlot? ==> r.value.slot.ref !in h.objs
  {
    if node in cache then Some(HandOut(h, cache[node])) else None
  }

  /**
   Whatever the parent then does to the object it was handed (negation's or
   a product's multiplier update, finalizeResult's pruning), every cached
   entry keeps its value.
   */
  lemma HandedCopyIsolated(h: Heap, cache: SlotCache, node: NodeId, repn: Repn)
    requires h.Valid() && CacheHeld(h, cache) && node in cache && !cache[node].ConstSlot?
    ensures var d := BeforeNamedShared(h, cache, node).value;
      var h' := d.heap.Store(d.slot.ref, repn);
      forall n :: n in cache ==> h'.Holds(cache[n]) && h'.Deref(cache[n]) == h.Deref(cache[n])
  {}

  /** Negation applied in place to a LINEAR/GENERAL slot. */
  function NegateInPlace(h: Heap, s: Slot): (h': Heap)
    requires h.Valid() && !s.ConstSlot? && s.ref in h.objs
    ensures h'.Valid() && h'.Holds(s)
  {
    var o := h.objs[s.ref];
    h.Store(s.ref, o.(multiplier := o.multiplier.Times(MinusOne)))
  }

  /**
   Handing out the cached object itself instead of a copy: negating the
   result of `-e` where `e` is a cached LINEAR result also flips the cached
   entry, so the next use of `e` would see `-e`.
   */
  lemma SharingWouldCorrupt()
    ensures var o := NewRepn().(linear := EmptyMap().Put(0, One));
      var h := Heap(map[0 := o], 1);
      var cache: SlotCache := map[7 := LinearSlot(0)];
      var h' := NegateInPlace(h, cache[7]);
      h'.Deref(cache[7]) != h.Deref(cache[7])
  {
    var o := NewRepn().(linear := EmptyMap().Put(0, One));
    assert o.multiplier.Times(MinusOne) == R(-1.0);
  }
}
