/**
 The `linear` part of a canonical result: a dictionary from variable identity
 to coefficient that remembers insertion order, as a Python dict does.
 `keys` is the iteration order and `coef` the lookup table.
 */
module LinearMaps {
  import opened Numbers

  /** A variable's identity (Python's `id(var)`). */
  type VarId = nat

  datatype LinMap = LinMap(keys: seq<VarId>, coef: map<VarId, Num>) {

    /** Keys are unique and the order lists exactly the stored keys. */
    ghost predicate Valid() {
      && (forall i, j :: 0 <= i < j < |keys| ==> keys[i] != keys[j])
      && (forall k :: k in coef <==> k in keys)
    }

    /** Python's `not d`. */
    predicate IsEmpty() { |keys| == 0 }

    /** The coefficient of `k`, zero when absent. */
    function Get(k: VarId): Num {
      if k in coef then coef[k] else Zero
    }

    /** `d[k] = c`: overwrites in place, or appends a new key at the end. */
    function Put(k: VarId, c: Num): (m: LinMap)
      requires Valid()
      ensures m.Valid()
      ensures m.coef == coef[k := c]
      ensures k in coef ==> m.keys == keys
      ensures k !in coef ==> m.keys == keys + [k]
    {
      if k in coef then LinMap(keys, coef[k := c]) else LinMap(keys + [k], coef[k := c])
    }

    /** Deletes every entry whose coefficient is falsy (an exact zero); NaN stays. */
    function RemoveZeros(): (m: LinMap)
      requires Valid()
      ensures m.Valid()
      ensures forall k :: k in m.coef <==> k in coef && !coef[k].IsZero()
      ensures forall k :: k in m.coef ==> m.coef[k] == coef[k]
      ensures m.keys == NonZeroKeys(keys, coef)
    {
      NonZeroKeysDistinct(keys, coef);
      LinMap(NonZeroKeys(keys, coef), map k | k in coef && !coef[k].IsZero() :: coef[k])
    }

    /** Every coefficient multiplied by `mult`, order unchanged. */
    function Scaled(mult: Num): (m: LinMap)
      requires Valid()
      ensures m.Valid()
      ensures m.keys == keys && m.coef.Keys == coef.Keys
      ensures forall k :: k in coef ==> m.coef[k] == coef[k].Times(mult)
    {
      LinMap(keys, map k | k in coef :: coef[k].Times(mult))
    }
  }

  function EmptyMap(): (m: LinMap)
    ensures m.Valid() && m.IsEmpty()
  {
    LinMap([], map[])
  }

  /** A well-formed map is empty exactly when it stores no coefficient. */
  lemma EmptyIffNoCoef(m: LinMap)
    requires m.Valid()
    ensures m.IsEmpty() <==> m.coef.Keys == {}
  {
    if !m.IsEmpty() { assert m.keys[0] in m.coef.Keys; }
  }

  /** The keys of `keys` whose coefficient is not an exact zero, in order. */
  function NonZeroKeys(keys: seq<VarId>, coef: map<VarId, Num>): (r: seq<VarId>)
    ensures forall k :: k in r <==> k in keys && !(k in coef && coef[k].IsZero())
  {
    if |keys| == 0 then []
    else if keys[0] in coef && coef[keys[0]].IsZero() then NonZeroKeys(keys[1..], coef)
    else [keys[0]] + NonZeroKeys(keys[1..], coef)
  }

  ghost predicate Distinct(s: seq<VarId>) {
    forall i, j :: 0 <= i < j < |s| ==> s[i] != s[j]
  }

  lemma NonZeroKeysDistinct(keys: seq<VarId>, coef: map<VarId, Num>)
    requires Distinct(keys)
    ensures Distinct(NonZeroKeys(keys, coef))
  {
    if |keys| > 0 {
      NonZeroKeysDistinct(keys[1..], coef);
      assert keys[0] !in keys[1..];
    }
  }

  //
  // _merge_dict
  //

  /** `d[k] += c` when `k` is present, else `d[k] = c`. */
  function AddTerm(acc: LinMap, k: VarId, c: Num): (r: LinMap)
    requires acc.Valid()
    ensures r.Valid() && acc.keys <= r.keys
    ensures r.coef == acc.coef[k := if k in acc.coef then acc.coef[k].Plus(c) else c]
    ensures k in acc.coef ==> r.keys == acc.keys
    ensures k !in acc.coef ==> r.keys == acc.keys + [k]
  {
    if k in acc.coef then acc.Put(k, acc.coef[k].Plus(c)) else acc.Put(k, c)
  }

  /**
   Folds the keys `ks` of `src`, in order, into `acc`: a key already present
   gets `mult * src[k]` added, a new key is appended with `mult * src[k]`.
   A multiplier of exactly 1 adds `src[k]` itself.
   */
  function MergeKeys(mult: Num, acc: LinMap, ks: seq<VarId>, src: map<VarId, Num>): (r: LinMap)
    requires acc.Valid() && Distinct(ks)
    requires forall k :: k in ks ==> k in src
    ensures r.Valid() && acc.keys <= r.keys
    ensures forall k :: k in r.coef <==> k in acc.coef || k in ks
    decreases |ks|
  {
    if |ks| == 0 then acc
    else
      var k := ks[0];
      assert k !in ks[1..];
      var c := if mult.IsOne() then src[k] else mult.Times(src[k]);
      assert c == mult.Times(src[k]) by { TimesOne(src[k]); }
      MergeKeys(mult, AddTerm(acc, k, c), ks[1..], src)
  }

  /** The keys of `ks` that `present` lacks, in their order in `ks`: the keys a merge appends. */
  function NewKeys(ks: seq<VarId>, present: map<VarId, Num>): seq<VarId>
    decreases |ks|
  {
    if |ks| == 0 then []
    else if ks[0] in present then NewKeys(ks[1..], present)
    else [ks[0]] + NewKeys(ks[1..], present)
  }

  /** The new keys are exactly the keys of `ks` that `present` lacks. */
  lemma {:induction false} NewKeysMembers(ks: seq<VarId>, present: map<VarId, Num>)
    ensures forall k :: k in NewKeys(ks, present) <==> k in ks && k !in present
    decreases |ks|
  {
    if |ks| > 0 {
      NewKeysMembers(ks[1..], present);
      assert ks == [ks[0]] + ks[1..];
    }
  }

  lemma NewKeysCons(ks: seq<VarId>, p: map<VarId, Num>)
    requires |ks| > 0
    ensures NewKeys(ks, p) == if ks[0] in p then NewKeys(ks[1..], p) else [ks[0]] + NewKeys(ks[1..], p)
  {
  }

  /** Which keys are new depends only on which of `ks` are present. */
  lemma {:induction false} NewKeysFrame(ks: seq<VarId>, p: map<VarId, Num>, p': map<VarId, Num>)
    requires forall k :: k in ks ==> (k in p <==> k in p')
    ensures NewKeys(ks, p) == NewKeys(ks, p')
    decreases |ks|
  {
    if |ks| > 0 {
      assert forall k :: k in ks[1..] ==> k in ks;
      NewKeysFrame(ks[1..], p, p');
    }
  }

  /** One merge step on key sequences: a present key leaves the order as it is, a new one is appended. */
  lemma AppendOrder(keys: seq<VarId>, keys': seq<VarId>, k: VarId, rest: seq<VarId>, present: bool, added: seq<VarId>)
    requires present ==> keys' == keys && added == rest
    requires !present ==> keys' == keys + [k] && added == [k] + rest
    ensures keys' + rest == keys + added
  {
    if !present {
      assert (keys + [k]) + rest == keys + ([k] + rest);
    }
  }

  /** The merge keeps the accumulator's keys in place and appends the new keys of `ks` in order. */
  lemma {:induction false} MergeKeysOrder(mult: Num, acc: LinMap, ks: seq<VarId>, src: map<VarId, Num>)
    requires acc.Valid() && Distinct(ks)
    requires forall k :: k in ks ==> k in src
    ensures MergeKeys(mult, acc, ks, src).keys == acc.keys + NewKeys(ks, acc.coef)
    decreases |ks|
  {
    if |ks| > 0 {
      var k := ks[0];
      assert k !in ks[1..];
      var c := if mult.IsOne() then src[k] else mult.Times(src[k]);
      var acc' := AddTerm(acc, k, c);
      var rest := NewKeys(ks[1..], acc.coef);
      assert NewKeys(ks[1..], acc'.coef) == rest by {
        NewKeysFrame(ks[1..], acc.coef, acc'.coef);
      }
      assert MergeKeys(mult, acc, ks, src).keys == acc'.keys + rest by {
        assert MergeKeys(mult, acc, ks, src) == MergeKeys(mult, acc', ks[1..], src);
        MergeKeysOrder(mult, acc', ks[1..], src);
      }
      var present := k in acc.coef;
      assert present ==> acc'.keys == acc.keys;
      assert !present ==> acc'.keys == acc.keys + [k];
      assert present ==> NewKeys(ks, acc.coef) == rest by { NewKeysCons(ks, acc.coef); }
      assert !present ==> NewKeys(ks, acc.coef) == [k] + rest by { NewKeysCons(ks, acc.coef); }
      AppendOrder(acc.keys, acc'.keys, k, rest, present, NewKeys(ks, acc.coef));
    }
  }

  lemma {:induction false} MergeKeysCoef(mult: Num, acc: LinMap, ks: seq<VarId>, src: map<VarId, Num>, k: VarId)
    requires acc.Valid() && Distinct(ks)
    requires forall k :: k in ks ==> k in src
    ensures var r := MergeKeys(mult, acc, ks, src);
      && (k in acc.coef && k !in ks ==> r.coef[k] == acc.coef[k])
      && (k in acc.coef && k in ks ==> r.coef[k] == acc.coef[k].Plus(mult.Times(src[k])))
      && (k !in acc.coef && k in ks ==> r.coef[k] == mult.Times(src[k]))
    decreases |ks|
  {
    if |ks| > 0 {
      var h := ks[0];
      assert h !in ks[1..];
      var c := if mult.IsOne() then src[h] else mult.Times(src[h]);
      assert c == mult.Times(src[h]) by { TimesOne(src[h]); }
      MergeKeysCoef(mult, AddTerm(acc, h, c), ks[1..], src, k);
    }
  }

  /**
   `_merge_dict(mult, self_dict, other_dict)`: the keys of the result are the
   union of both; a shared key gets `self + mult*other`, a key only in `self`
   is unchanged, a key only in `other` gets `mult*other`; keys of `self` keep
   their positions and new keys follow in `other`'s order.
   */
  function MergeDict(mult: Num, self: LinMap, other: LinMap): (r: LinMap)
    requires self.Valid() && other.Valid()
    ensures r.Valid()
    ensures forall k :: k in r.coef <==> k in self.coef || k in other.coef
    ensures self.keys <= r.keys
    ensures r.keys == self.keys + NewKeys(other.keys, self.coef)
    ensures forall k :: k in self.coef && k !in other.coef ==> r.coef[k] == self.coef[k]
    ensures forall k :: k in self.coef && k in other.coef ==> r.coef[k] == self.coef[k].Plus(mult.Times(other.coef[k]))
    ensures forall k :: k !in self.coef && k in other.coef ==> r.coef[k] == mult.Times(other.coef[k])
  {
    var r := MergeKeys(mult, self, other.keys, other.coef);
    MergeKeysOrder(mult, self, other.keys, other.coef);
    assert forall k :: k in self.coef || k in other.coef ==>
        && (k in self.coef && k !in other.coef ==> r.coef[k] == self.coef[k])
        && (k in self.coef && k in other.coef ==> r.coef[k] == self.coef[k].Plus(mult.Times(other.coef[k])))
        && (k !in self.coef && k in other.coef ==> r.coef[k] == mult.Times(other.coef[k])) by {
      forall k | k in self.coef || k in other.coef {
        MergeKeysCoef(mult, self, other.keys, other.coef, k);
      }
    }
    r
  }

  //
  // The value of the affine part under an assignment of reals to variables.
  //

  function TermValue(coef: map<VarId, Num>, k: VarId, env: VarId -> real): Num {
    (if k in coef then coef[k] else Zero).Times(R(env(k)))
  }

  /** Sum of coef[k]*env(k) over `keys`, front to back. */
  function SumOver(keys: seq<VarId>, coef: map<VarId, Num>, env: VarId -> real): Num {
    if |keys| == 0 then Zero
    else TermValue(coef, keys[0], env).Plus(SumOver(keys[1..], coef, env))
  }

  function LinSum(m: LinMap, env: VarId -> real): Num {
    SumOver(m.keys, m.coef, env)
  }

  lemma {:induction false} SumOverFrame(keys: seq<VarId>, coef: map<VarId, Num>, k: VarId, c: Num, env: VarId -> real)
    requires k !in keys
    ensures SumOver(keys, coef[k := c], env) == SumOver(keys, coef, env)
  {
    if |keys| > 0 {
      SumOverFrame(keys[1..], coef, k, c, env);
    }
  }

  lemma {:induction false} SumOverAppend(keys: seq<VarId>, coef: map<VarId, Num>, k: VarId, env: VarId -> real)
    ensures SumOver(keys + [k], coef, env) == SumOver(keys, coef, env).Plus(TermValue(coef, k, env))
  {
    var t := TermValue(coef, k, env);
    if |keys| == 0 {
      assert keys + [k] == [k];
      assert SumOver([k], coef, env) == t.Plus(SumOver([], coef, env));
      PlusZero(t);
    } else {
      var h := TermValue(coef, keys[0], env);
      assert (keys + [k])[0] == keys[0];
      assert (keys + [k])[1..] == keys[1..] + [k];
      calc {
        SumOver(keys + [k], coef, env);
        h.Plus(SumOver(keys[1..] + [k], coef, env));
        { SumOverAppend(keys[1..], coef, k, env); }
        h.Plus(SumOver(keys[1..], coef, env).Plus(t));
        { PlusAssoc(h, SumOver(keys[1..], coef, env), t); }
        h.Plus(SumOver(keys[1..], coef, env)).Plus(t);
      }
    }
  }

  lemma {:induction false} SumOverUpdate(keys: seq<VarId>, coef: map<VarId, Num>, k: VarId, d: Num, env: VarId -> real)
    requires Distinct(keys) && k in keys && k in coef
    ensures SumOver(keys, coef[k := coef[k].Plus(d)], env) == SumOver(keys, coef, env).Plus(d.Times(R(env(k))))
  {
    var coef' := coef[k := coef[k].Plus(d)];
    var x := R(env(k));
    var dx := d.Times(x);
    var rest := SumOver(keys[1..], coef, env);
    if keys[0] == k {
      assert k !in keys[1..];
      calc {
        SumOver(keys, coef', env);
        coef[k].Plus(d).Times(x).Plus(SumOver(keys[1..], coef', env));
        { SumOverFrame(keys[1..], coef, k, coef[k].Plus(d), env); }
        coef[k].Plus(d).Times(x).Plus(rest);
        { DistribRight(coef[k], d, x); }
        coef[k].Times(x).Plus(dx).Plus(rest);
        { PlusAssoc(coef[k].Times(x), dx, rest); PlusComm(dx, rest); PlusAssoc(coef[k].Times(x), rest, dx); }
        coef[k].Times(x).Plus(rest).Plus(dx);
      }
    } else {
      var h := TermValue(coef, keys[0], env);
      calc {
        SumOver(keys, coef', env);
        { assert TermValue(coef', keys[0], env) == h; }
        h.Plus(SumOver(keys[1..], coef', env));
        { SumOverUpdate(keys[1..], coef, k, d, env); }
        h.Plus(rest.Plus(dx));
        { PlusAssoc(h, rest, dx); }
        h.Plus(rest).Plus(dx);
      }
    }
  }

  /** Putting a new key adds its term to the sum. */
  lemma PutNewSum(m: LinMap, k: VarId, c: Num, env: VarId -> real)
    requires m.Valid() && k !in m.coef
    ensures LinSum(m.Put(k, c), env) == LinSum(m, env).Plus(c.Times(R(env(k))))
  {
    SumOverAppend(m.keys, m.coef[k := c], k, env);
    SumOverFrame(m.keys, m.coef, k, c, env);
  }

  /** Adding `d` to an existing coefficient adds `d*x` to the sum. */
  lemma PutAddSum(m: LinMap, k: VarId, d: Num, env: VarId -> real)
    requires m.Valid() && k in m.coef
    ensures LinSum(m.Put(k, m.coef[k].Plus(d)), env) == LinSum(m, env).Plus(d.Times(R(env(k))))
  {
    SumOverUpdate(m.keys, m.coef, k, d, env);
  }

  lemma {:induction false} MergeKeysSum(mult: Num, acc: LinMap, ks: seq<VarId>, src: map<VarId, Num>, env: VarId -> real)
    requires acc.Valid() && Distinct(ks) && mult.R?
    requires forall k :: k in ks ==> k in src
    ensures LinSum(MergeKeys(mult, acc, ks, src), env) == LinSum(acc, env).Plus(mult.Times(SumOver(ks, src, env)))
    decreases |ks|
  {
    if |ks| == 0 {
      PlusZero(LinSum(acc, env));
    } else {
      var k := ks[0];
      assert k !in ks[1..];
      var x := R(env(k));
      var c := if mult.IsOne() then src[k] else mult.Times(src[k]);
      assert c == mult.Times(src[k]) by { TimesOne(src[k]); }
      var acc' := AddTerm(acc, k, c);
      if k in acc.coef { PutAddSum(acc, k, c, env); } else { PutNewSum(acc, k, c, env); }
      MergeKeysSum(mult, acc', ks[1..], src, env);
      var rest := SumOver(ks[1..], src, env);
      TimesAssoc(mult, src[k], x);
      PlusAssoc(LinSum(acc, env), c.Times(x), mult.Times(rest));
      Distrib(mult, src[k].Times(x), rest);
    }
  }

  /** The affine value of a merge: `self + mult*other`. */
  lemma MergeDictSum(mult: Num, self: LinMap, other: LinMap, env: VarId -> real)
    requires self.Valid() && other.Valid() && mult.R?
    ensures LinSum(MergeDict(mult, self, other), env) == LinSum(self, env).Plus(mult.Times(LinSum(other, env)))
  {
    MergeKeysSum(mult, self, other.keys, other.coef, env);
  }

  lemma {:induction false} SumOverNonZero(keys: seq<VarId>, coef: map<VarId, Num>, coef': map<VarId, Num>, env: VarId -> real)
    requires forall k :: k in coef' <==> k in coef && !coef[k].IsZero()
    requires forall k :: k in coef' ==> coef'[k] == coef[k]
    ensures SumOver(NonZeroKeys(keys, coef), coef', env) == SumOver(keys, coef, env)
  {
    if |keys| > 0 {
      var k := keys[0];
      SumOverNonZero(keys[1..], coef, coef', env);
      if k in coef && coef[k].IsZero() {
        ZeroTimesReal(env(k));
        PlusZero(SumOver(keys[1..], coef, env));
      } else {
        assert ([k] + NonZeroKeys(keys[1..], coef))[1..] == NonZeroKeys(keys[1..], coef);
      }
    }
  }

  /** Dropping exact zeros does not change the affine value of real-valued variables. */
  lemma RemoveZerosSum(m: LinMap, env: VarId -> real)
    requires m.Valid()
    ensures LinSum(m.RemoveZeros(), env) == LinSum(m, env)
  {
    SumOverNonZero(m.keys, m.coef, m.RemoveZeros().coef, env);
  }

  lemma {:induction false} SumOverScaled(keys: seq<VarId>, coef: map<VarId, Num>, mult: Num, env: VarId -> real)
    requires mult.R?
    requires forall k :: k in keys ==> k in coef
    ensures SumOver(keys, map k | k in coef :: coef[k].Times(mult), env) == mult.Times(SumOver(keys, coef, env))
  {
    if |keys| == 0 {
    } else {
      var k := keys[0];
      var scaled := map k | k in coef :: coef[k].Times(mult);
      SumOverScaled(keys[1..], coef, mult, env);
      TimesComm(coef[k], mult);
      TimesAssoc(mult, coef[k], R(env(k)));
      Distrib(mult, coef[k].Times(R(env(k))), SumOver(keys[1..], coef, env));
    }
  }

  /** Scaling every coefficient scales the affine value. */
  lemma ScaledSum(m: LinMap, mult: Num, env: VarId -> real)
    requires m.Valid() && mult.R?
    ensures LinSum(m.Scaled(mult), env) == mult.Times(LinSum(m, env))
  {
    SumOverScaled(m.keys, m.coef, mult, env);
  }
}
