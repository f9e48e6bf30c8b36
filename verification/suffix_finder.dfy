/**
 `ScaleModel._suffix_finder` and `_get_float_scaling_factor`: locate the
 scaling factor of a component data object among the `scaling_factor`
 suffixes of the blocks above it.  The block hierarchy is given as the chain
 of blocks from the object's parent block up to the top model, each with the
 suffix it declares under the searched name (if any).
 */
module SuffixFinder {
  import opened Wrappers

  type ComponentId = nat
  type BlockId = nat

  /** A suffix key: a component (data object or container) or `None`. */
  datatype SuffixKey = Key(id: ComponentId) | NoneKey

  type SuffixMap<V> = map<SuffixKey, V>

  /** A block on the chain, with its suffix of the searched name when it has one of ctype Suffix. */
  datatype Block<V> = Block(id: BlockId, suffix: Option<SuffixMap<V>>)

  /** What the finder needs of `root`: its identity, whether it is a block, whether it is indexed, and its parent block. */
  datatype Root = Root(id: BlockId, isBlock: bool, indexed: bool, parent: Option<BlockId>)

  /** `ValueError` on a bad root; `AttributeError` when the upward walk passes the top block. */
  datatype FinderError = RootNotBlock | RootIndexed | WalkedOffTop

  /** The suffixes of the chain, leaf to root. */
  function SuffixesOf<V>(chain: seq<Block<V>>): (ss: seq<SuffixMap<V>>)
    ensures |ss| <= |chain|
  {
    if |chain| == 0 then []
    else (if chain[0].suffix.Some? then [chain[0].suffix.value] else []) + SuffixesOf(chain[1..])
  }

  predicate OnChain<V>(chain: seq<Block<V>>, b: BlockId) {
    exists i :: 0 <= i < |chain| && chain[i].id == b
  }

  /** The position of the first block with identity `b`. */
  function FirstIndex<V>(chain: seq<Block<V>>, b: BlockId): (i: nat)
    requires OnChain(chain, b)
    ensures i < |chain| && chain[i].id == b
    ensures forall j :: 0 <= j < i ==> chain[j].id != b
  {
    if chain[0].id == b then 0
    else
      assert OnChain(chain[1..], b) by {
        var i :| 0 <= i < |chain| && chain[i].id == b;
        assert chain[1..][i - 1].id == b;
      }
      1 + FirstIndex(chain[1..], b)
  }

  /**
   The upward walk: collect suffixes until the block `stop` is reached, or
   until the top when `stop` is `None`.  With a `stop` that is not on the
   chain the walk passes the top block and fails.
   */
  function CollectUpTo<V>(chain: seq<Block<V>>, stop: Option<BlockId>): (r: Result<seq<SuffixMap<V>>, FinderError>)
    ensures stop.None? ==> r == Success(SuffixesOf(chain))
    ensures r.Failure? <==> stop.Some? && !OnChain(chain, stop.value)
    ensures r.Failure? ==> r.error == WalkedOffTop
    ensures stop.Some? && OnChain(chain, stop.value) ==> r == Success(SuffixesOf(chain[..FirstIndex(chain, stop.value)]))
    decreases |chain|
  {
    if |chain| == 0 then
      if stop.None? then Success([]) else Failure(WalkedOffTop)
    else if stop == Some(chain[0].id) then
      assert chain[..0] == [];
      Success([])
    else
      var here := if chain[0].suffix.Some? then [chain[0].suffix.value] else [];
      var rest := CollectUpTo(chain[1..], stop);
      assert stop.Some? ==> (OnChain(chain, stop.value) <==> OnChain(chain[1..], stop.value)) by {
        if stop.Some? && OnChain(chain, stop.value) {
          var i :| 0 <= i < |chain| && chain[i].id == stop.value;
          assert chain[1..][i - 1].id == stop.value;
        }
      }
      assert stop.Some? && OnChain(chain, stop.value) ==>
        SuffixesOf(chain[..FirstIndex(chain, stop.value)]) == here + SuffixesOf(chain[1..][..FirstIndex(chain[1..], stop.value)]) by {
        if stop.Some? && OnChain(chain, stop.value) {
          var i := FirstIndex(chain, stop.value);
          assert i == 1 + FirstIndex(chain[1..], stop.value);
          assert chain[..i][1..] == chain[1..][..i - 1];
        }
      }
      match rest
      case Failure(e) => Failure(e)
      case Success(ss) => Success(here + ss)
  }

  /** `reversed(suffixes)` */
  function Reversed<V>(ss: seq<SuffixMap<V>>): (r: seq<SuffixMap<V>>)
    ensures |r| == |ss|
    ensures forall i :: 0 <= i < |ss| ==> r[i] == ss[|ss| - 1 - i]
  {
    if |ss| == 0 then [] else Reversed(ss[1..]) + [ss[0]]
  }

  /** The value under `k` in the first suffix, in the given order, that holds `k`. */
  function FirstWith<V>(ss: seq<SuffixMap<V>>, k: SuffixKey): (r: Option<V>)
    ensures r.Some? <==> exists i :: 0 <= i < |ss| && k in ss[i]
    ensures r.Some? ==> exists i :: 0 <= i < |ss| && k in ss[i] && ss[i][k] == r.value && forall j :: 0 <= j < i ==> k !in ss[j]
  {
    if |ss| == 0 then None
    else if k in ss[0] then Some(ss[0][k])
    else
      var r := FirstWith(ss[1..], k);
      assert forall i :: 0 < i < |ss| ==> ss[1..][i - 1] == ss[i];
      r
  }

  ghost predicate Mentions<V>(ss: seq<SuffixMap<V>>, k: SuffixKey) {
    exists i :: 0 <= i < |ss| && k in ss[i]
  }

  /** `v` is what the suffix nearest the root holding `k` says. */
  ghost predicate NearestRoot<V>(ss: seq<SuffixMap<V>>, k: SuffixKey, v: V) {
    exists i :: 0 <= i < |ss| && k in ss[i] && ss[i][k] == v && forall j :: i < j < |ss| ==> k !in ss[j]
  }

  /** `v` is what the suffix nearest the leaf holding `k` says. */
  ghost predicate NearestLeaf<V>(ss: seq<SuffixMap<V>>, k: SuffixKey, v: V) {
    exists i :: 0 <= i < |ss| && k in ss[i] && ss[i][k] == v && forall j :: 0 <= j < i ==> k !in ss[j]
  }

  /** Searching root to leaf finds the suffix nearest the root. */
  lemma FirstWithReversed<V>(ss: seq<SuffixMap<V>>, k: SuffixKey)
    ensures FirstWith(Reversed(ss), k).Some? <==> Mentions(ss, k)
    ensures FirstWith(Reversed(ss), k).Some? ==> NearestRoot(ss, k, FirstWith(Reversed(ss), k).value)
  {
    var rs := Reversed(ss);
    if Mentions(ss, k) {
      var i :| 0 <= i < |ss| && k in ss[i];
      assert rs[|ss| - 1 - i] == ss[i];
    }
    var r := FirstWith(rs, k);
    if r.Some? {
      var i :| 0 <= i < |rs| && k in rs[i] && rs[i][k] == r.value && forall j :: 0 <= j < i ==> k !in rs[j];
      var n := |ss| - 1 - i;
      assert ss[n] == rs[i];
      forall j | n < j < |ss| ensures k !in ss[j] {
        assert ss[j] == rs[|ss| - 1 - j];
      }
    }
  }

  /**
   The three passes: the data object itself (nearest the root first), then
   its container when that is a different component (nearest the root
   first), then the `None` default (nearest the leaf first).
   */
  function Lookup<V>(data: ComponentId, container: ComponentId, ss: seq<SuffixMap<V>>): (r: Option<V>)
    ensures Mentions(ss, Key(data)) ==> r.Some? && NearestRoot(ss, Key(data), r.value)
    ensures !Mentions(ss, Key(data)) && container != data && Mentions(ss, Key(container)) ==>
      r.Some? && NearestRoot(ss, Key(container), r.value)
    ensures !Mentions(ss, Key(data)) && (container == data || !Mentions(ss, Key(container))) && Mentions(ss, NoneKey) ==>
      r.Some? && NearestLeaf(ss, NoneKey, r.value)
    ensures r.None? <==> !Mentions(ss, Key(data)) && (container == data || !Mentions(ss, Key(container))) && !Mentions(ss, NoneKey)
  {
    FirstWithReversed(ss, Key(data));
    FirstWithReversed(ss, Key(container));
    var pass1 := FirstWith(Reversed(ss), Key(data));
    if pass1.Some? then pass1
    else
      var pass2 := if container != data then FirstWith(Reversed(ss), Key(container)) else None;
      if pass2.Some? then pass2
      else FirstWith(ss, NoneKey)
  }

  /**
   `_suffix_finder(component_data, name, root)`.  A root must be a single
   block; the walk then stops at the root's parent, so the root itself is
   searched.
   */
  function FindSuffix<V>(data: ComponentId, container: ComponentId, chain: seq<Block<V>>, root: Option<Root>): (r: Result<Option<V>, FinderError>)
    ensures root.Some? && !root.value.isBlock ==> r == Failure(RootNotBlock)
    ensures root.Some? && root.value.isBlock && root.value.indexed ==> r == Failure(RootIndexed)
    ensures root.None? ==> r == Success(Lookup(data, container, SuffixesOf(chain)))
    ensures root.Some? && root.value.isBlock && !root.value.indexed ==>
      var stop := root.value.parent;
      && (r.Failure? <==> stop.Some? && !OnChain(chain, stop.value))
      && (stop.None? ==> r == Success(Lookup(data, container, SuffixesOf(chain))))
      && (stop.Some? && OnChain(chain, stop.value) ==>
            r == Success(Lookup(data, container, SuffixesOf(chain[..FirstIndex(chain, stop.value)]))))
  {
    if root.Some? && !root.value.isBlock then Failure(RootNotBlock)
    else if root.Some? && root.value.indexed then Failure(RootIndexed)
    else
      var stop := if root.Some? then root.value.parent else None;
      match CollectUpTo(chain, stop)
      case Failure(e) => Failure(e)
      case Success(ss) => Success(Lookup(data, container, ss))
  }

  /** A root whose parent is not above the data object makes the upward walk pass the top block. */
  lemma FindSuffixOffTop()
    ensures var chain := [Block(1, Some(map[NoneKey := 2.0]))];
      FindSuffix(10, 10, chain, Some(Root(4, true, false, Some(5)))) == Failure(WalkedOffTop)
  {
    var chain := [Block(1, Some(map[NoneKey := 2.0]))];
    assert !OnChain(chain, 5);
  }

  /**
   A sibling root (block 4, whose parent 2 is above the data object but which
   is not itself above it) silently cuts the search short below block 2, so
   the suffix on block 2 is never seen; searching up to the top finds it.
   */
  lemma FindSuffixSiblingTruncates()
    ensures var chain := [Block(1, None), Block(2, Some(map[Key(10) := 3.0])), Block(3, None)];
      var root := Some(Root(4, true, false, Some(2)));
      && FindSuffix(10, 10, chain, root) == Success(None)
      && FindSuffixCorrected(10, 10, chain, root) == Success(Some(3.0))
  {
    var chain := [Block(1, None), Block(2, Some(map[Key(10) := 3.0])), Block(3, None)];
    assert chain[1].id == 2 && chain[0].id != 2;
    assert FirstIndex(chain, 2) == 1;
    assert chain[..1] == [Block(1, None)];
    assert SuffixesOf(chain[..1]) == [];
    assert !OnChain(chain, 4);
    assert SuffixesOf(chain) == [map[Key(10) := 3.0]];
    assert Mentions(SuffixesOf(chain), Key(10)) by {
      assert Key(10) in SuffixesOf(chain)[0];
    }
  }

  /** The blocks of the chain are distinct, as the blocks on one path up a tree are. */
  ghost predicate Path<V>(chain: seq<Block<V>>) {
    forall i, j :: 0 <= i < j < |chain| ==> chain[i].id != chain[j].id
  }

  /** A root on the chain has the next block up as its parent, or none at the top. */
  ghost predicate ParentAgrees<V>(chain: seq<Block<V>>, root: Root) {
    OnChain(chain, root.id) ==>
      var i := FirstIndex(chain, root.id);
      root.parent == if i + 1 < |chain| then Some(chain[i + 1].id) else None
  }

  /**
   The finder with the documented fallback: when the data object is not in
   the subtree of `root` (the root is not on its chain of enclosing blocks)
   the search proceeds up to the top model; otherwise it includes the root
   and stops above it.
   */
  function FindSuffixCorrected<V>(data: ComponentId, container: ComponentId, chain: seq<Block<V>>, root: Option<Root>): (r: Result<Option<V>, FinderError>)
    ensures r.Failure? <==> root.Some? && (!root.value.isBlock || root.value.indexed)
    ensures r.Failure? ==> r == FindSuffix(data, container, chain, root)
    ensures root.None? ==> r == FindSuffix(data, container, chain, None)
    ensures root.Some? && r.Success? && !OnChain(chain, root.value.id) ==>
      r == Success(Lookup(data, container, SuffixesOf(chain)))
    ensures root.Some? && r.Success? && OnChain(chain, root.value.id) ==>
      r == Success(Lookup(data, container, SuffixesOf(chain[..FirstIndex(chain, root.value.id) + 1])))
  {
    if root.None? || !root.value.isBlock || root.value.indexed then FindSuffix(data, container, chain, root)
    else if !OnChain(chain, root.value.id) then FindSuffix(data, container, chain, None)
    else Success(Lookup(data, container, SuffixesOf(chain[..FirstIndex(chain, root.value.id) + 1])))
  }

  /** On a root the data object does sit under, the finder as written already does what is documented. */
  lemma FindSuffixCorrectedAgrees<V>(data: ComponentId, container: ComponentId, chain: seq<Block<V>>, root: Root)
    requires Path(chain) && ParentAgrees(chain, root) && OnChain(chain, root.id)
    ensures FindSuffixCorrected(data, container, chain, Some(root)) == FindSuffix(data, container, chain, Some(root))
  {
    var i := FirstIndex(chain, root.id);
    if root.isBlock && !root.indexed {
      if i + 1 < |chain| {
        assert OnChain(chain, chain[i + 1].id);
        assert FirstIndex(chain, chain[i + 1].id) == i + 1;
      } else {
        assert chain[..i + 1] == chain;
      }
    }
  }

  //
  // _get_float_scaling_factor
  //

  /** A suffix value: `None`, something `float()` accepts, a string it rejects, or an object of another type. */
  datatype SuffixValue = NoneValue | Convertible(r: real) | Unconvertible | NotNumeric

  /** `ValueError` re-raised with the component named; a `TypeError` from `float()` is not caught. */
  datatype FactorError = NotFloat | WrongType

  /** No suffix value, or a `None` one, means 1.0; otherwise the value must convert to float. */
  function FloatFactor(found: Option<SuffixValue>): (r: Result<real, FactorError>)
    ensures found.None? || found.value.NoneValue? ==> r == Success(1.0)
    ensures found.Some? && found.value.Convertible? ==> r == Success(found.value.r)
    ensures r == Failure(NotFloat) <==> found == Some(Unconvertible)
    ensures r == Failure(WrongType) <==> found == Some(NotNumeric)
  {
    match found
    case None => Success(1.0)
    case Some(NoneValue) => Success(1.0)
    case Some(Convertible(x)) => Success(x)
    case Some(Unconvertible) => Failure(NotFloat)
    case Some(NotNumeric) => Failure(WrongType)
  }

  /**
   `_get_float_scaling_factor(instance, component_data)`: the finder with no
   root (which cannot fail), followed by the float conversion.
   */
  function ScalingFactor(data: ComponentId, container: ComponentId, chain: seq<Block<SuffixValue>>): (r: Result<real, FactorError>)
    ensures r == FloatFactor(Lookup(data, container, SuffixesOf(chain)))
    ensures (forall i :: 0 <= i < |chain| ==> chain[i].suffix.None?) ==> r == Success(1.0)
  {
    var found := FindSuffix(data, container, chain, None);
    assert (forall i :: 0 <= i < |chain| ==> chain[i].suffix.None?) ==> SuffixesOf(chain) == [] by {
      NoSuffixes(chain);
    }
    FloatFactor(found.value)
  }

  lemma {:induction false} NoSuffixes<V>(chain: seq<Block<V>>)
    ensures (forall i :: 0 <= i < |chain| ==> chain[i].suffix.None?) ==> SuffixesOf(chain) == []
    decreases |chain|
  {
    if |chain| > 0 && forall i :: 0 <= i < |chain| ==> chain[i].suffix.None? {
      assert forall i :: 0 <= i < |chain[1..]| ==> chain[1..][i] == chain[i + 1];
      NoSuffixes(chain[1..]);
    }
  }
}
