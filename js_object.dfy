/** A plain JavaScript object with string keys, as an ordered sequence of
    properties. The order is the object's iteration order (`for...in`,
    `Object.keys`, `Object.entries`): a property keeps its place when it is
    reassigned, and a new property goes last. */
module JsObject {
  import opened Sequences

  datatype Option<T> = None | Some(value: T)

  /** One own property of an object. */
  datatype Prop<V> = Prop(key: string, value: V)

  type Obj<V> = seq<Prop<V>>

  /** Property names are unique in an object. */
  predicate DistinctKeys<V>(o: Obj<V>)
  {
    forall i, j :: 0 <= i < j < |o| ==> o[i].key != o[j].key
  }

  /** `Object.keys(o)`. */
  function KeysOf<V>(o: Obj<V>): (r: seq<string>)
    ensures |r| == |o| && forall i :: 0 <= i < |o| ==> r[i] == o[i].key
  {
    seq(|o|, i requires 0 <= i < |o| => o[i].key)
  }

  /** `Object.values(o)`. */
  function ValuesOf<V>(o: Obj<V>): (r: seq<V>)
    ensures |r| == |o| && forall i :: 0 <= i < |o| ==> r[i] == o[i].value
  {
    seq(|o|, i requires 0 <= i < |o| => o[i].value)
  }

  /** `k in o`, for an own property. */
  predicate HasKey<V>(o: Obj<V>, k: string)
  {
    k in KeysOf(o)
  }

  /** The first position of `k` in `ks`. */
  function FirstIndex(ks: seq<string>, k: string): (i: nat)
    requires k in ks
    ensures i < |ks| && ks[i] == k
    ensures forall j :: 0 <= j < i ==> ks[j] != k
  {
    if ks[0] == k then 0 else 1 + FirstIndex(ks[1..], k)
  }

  /** `o[k]`: the value of the property named `k`, or `undefined`. */
  function Get<V>(o: Obj<V>, k: string): (r: Option<V>)
    ensures r.None? <==> !HasKey(o, k)
    ensures r.Some? ==> exists i :: 0 <= i < |o| && o[i] == Prop(k, r.value)
  {
    if HasKey(o, k) then Some(o[FirstIndex(KeysOf(o), k)].value) else None
  }

  lemma FirstIndexAppend(ks: seq<string>, k: string, n: string)
    requires n in ks
    ensures FirstIndex(ks + [k], n) == FirstIndex(ks, n)
  {
    if ks[0] != n {
      assert (ks + [k])[1..] == ks[1..] + [k];
      FirstIndexAppend(ks[1..], k, n);
    }
  }

  /** In an object with unique names, each property is what its name reads. */
  lemma GetAt<V>(o: Obj<V>, i: int)
    requires DistinctKeys(o) && 0 <= i < |o|
    ensures Get(o, o[i].key) == Some(o[i].value)
  {
    assert KeysOf(o)[i] == o[i].key;
  }

  /** Reading a property looks at the first property, then at the rest. */
  lemma GetCons<V>(o: Obj<V>)
    requires o != []
    ensures forall n :: Get(o, n) == if n == o[0].key then Some(o[0].value) else Get(o[1..], n)
  {
    assert KeysOf(o)[1..] == KeysOf(o[1..]);
    assert KeysOf(o) == [o[0].key] + KeysOf(o[1..]);
  }

  lemma DistinctTail<V>(o: Obj<V>)
    requires o != []
    ensures DistinctKeys(o) ==> DistinctKeys(o[1..]) && !HasKey(o[1..], o[0].key)
  {
    if DistinctKeys(o) {
      forall a, b | 0 <= a < b < |o[1..]| ensures o[1..][a].key != o[1..][b].key {
        assert o[1..][a] == o[a + 1] && o[1..][b] == o[b + 1];
      }
    }
  }

  lemma DistinctCons<V>(p: Prop<V>, o: Obj<V>)
    ensures DistinctKeys(o) && !HasKey(o, p.key) ==> DistinctKeys([p] + o)
  {
    if DistinctKeys(o) && !HasKey(o, p.key) {
      var r := [p] + o;
      forall a, b | 0 <= a < b < |r| ensures r[a].key != r[b].key {
        assert r[b] == o[b - 1];
        if a == 0 {
          assert KeysOf(o)[b - 1] == o[b - 1].key;
        } else {
          assert r[a] == o[a - 1];
        }
      }
    }
  }

  /** The place of the property named `k` in the iteration order of `o`. */
  function Position<V>(o: Obj<V>, k: string): nat
    requires HasKey(o, k)
  {
    FirstIndex(KeysOf(o), k)
  }

  /** The names `ks` are names of `o`, listed in `o`'s iteration order and
      each at most once. */
  predicate InOrder<V>(o: Obj<V>, ks: seq<string>)
  {
    && (forall i :: 0 <= i < |ks| ==> HasKey(o, ks[i]))
    && (forall i, j :: 0 <= i < j < |ks| ==> Position(o, ks[i]) < Position(o, ks[j]))
  }

  /** Names listed in order stay in order when a property is appended, and
      the new property's name may follow them. */
  lemma InOrderSnoc<V>(init: Obj<V>, p: Prop<V>, ks: seq<string>)
    ensures DistinctKeys(init + [p]) && InOrder(init, ks) ==>
              InOrder(init + [p], ks) && InOrder(init + [p], ks + [p.key])
  {
    var o := init + [p];
    if DistinctKeys(o) && InOrder(init, ks) {
      assert o[..|o| - 1] == init;
      DistinctInit(o);
      assert KeysOf(o) == KeysOf(init) + [p.key];
      forall k | HasKey(init, k) ensures HasKey(o, k) && Position(o, k) == Position(init, k) {
        FirstIndexAppend(KeysOf(init), p.key, k);
      }
      assert Position(o, p.key) == |init|;
      var ks' := ks + [p.key];
      forall i, j | 0 <= i < j < |ks'| ensures Position(o, ks'[i]) < Position(o, ks'[j]) {
        assert ks'[i] == ks[i];
        if j == |ks| {
          assert ks'[j] == p.key;
        } else {
          assert ks'[j] == ks[j];
        }
      }
    }
  }

  /** `o[k] = v`: an existing property is overwritten where it stands, a new
      one is appended; no other property changes. */
  function Set<V>(o: Obj<V>, k: string, v: V): (r: Obj<V>)
    ensures Get(r, k) == Some(v)
    ensures forall n :: n != k ==> Get(r, n) == Get(o, n)
    ensures KeysOf(r) == if HasKey(o, k) then KeysOf(o) else KeysOf(o) + [k]
    ensures DistinctKeys(o) ==> DistinctKeys(r)
  {
    if HasKey(o, k) then
      var i := FirstIndex(KeysOf(o), k);
      var r := o[i := Prop(k, v)];
      assert KeysOf(r) == KeysOf(o);
      r
    else
      var r := o + [Prop(k, v)];
      assert KeysOf(r) == KeysOf(o) + [k];
      forall n | n != k && HasKey(o, n) ensures Get(r, n) == Get(o, n) {
        FirstIndexAppend(KeysOf(o), k, n);
      }
      r
  }

  /** `delete o[k]`: the property named `k` is gone; every other property,
      and the order of what remains, is unchanged. */
  function Delete<V>(o: Obj<V>, k: string): (r: Obj<V>)
    ensures Get(r, k) == None
    ensures forall n :: n != k ==> Get(r, n) == Get(o, n)
    ensures DistinctKeys(o) ==> DistinctKeys(r)
    ensures !HasKey(o, k) ==> r == o
    ensures DistinctKeys(o) && HasKey(o, k) ==> r == o[..Position(o, k)] + o[Position(o, k) + 1..]
  {
    if o == [] then []
    else
      var rest := Delete(o[1..], k);
      var r := if o[0].key == k then rest else [o[0]] + rest;
      DeleteStep(o, k, rest, r);
      DeleteStepMissing(o, k, rest, r);
      DeleteStepOrder(o, k, rest, r);
      r
  }

  /** Where the name sits: first, or one further than in the rest. */
  lemma PositionCons<V>(o: Obj<V>, k: string)
    requires o != [] && HasKey(o, k)
    ensures o[0].key != k ==> HasKey(o[1..], k) && Position(o, k) == 1 + Position(o[1..], k)
    ensures o[0].key == k ==> Position(o, k) == 0
  {
    assert KeysOf(o)[1..] == KeysOf(o[1..]);
  }

  /** The step of `Delete` for a name the object does not have. */
  lemma DeleteStepMissing<V>(o: Obj<V>, k: string, rest: Obj<V>, r: Obj<V>)
    requires o != []
    requires !HasKey(o[1..], k) ==> rest == o[1..]
    requires r == if o[0].key == k then rest else [o[0]] + rest
    ensures !HasKey(o, k) ==> r == o
  {
    if !HasKey(o, k) {
      assert KeysOf(o)[0] == o[0].key;
      assert KeysOf(o)[1..] == KeysOf(o[1..]);
      assert o[0].key != k && !HasKey(o[1..], k);
      assert o == [o[0]] + o[1..];
    }
  }

  /** The step of `Delete` for the order of what remains: with unique names
      exactly the one property of that name is cut out. */
  lemma DeleteStepOrder<V>(o: Obj<V>, k: string, rest: Obj<V>, r: Obj<V>)
    requires o != []
    requires !HasKey(o[1..], k) ==> rest == o[1..]
    requires DistinctKeys(o[1..]) && HasKey(o[1..], k) ==> rest == o[1..][..Position(o[1..], k)] + o[1..][Position(o[1..], k) + 1..]
    requires r == if o[0].key == k then rest else [o[0]] + rest
    ensures DistinctKeys(o) && HasKey(o, k) ==> r == o[..Position(o, k)] + o[Position(o, k) + 1..]
  {
    if DistinctKeys(o) && HasKey(o, k) {
      DistinctTail(o);
      PositionCons(o, k);
      if o[0].key == k {
        assert !HasKey(o[1..], k) && rest == o[1..];
        assert o[..0] + o[1..] == o[1..];
      } else {
        var j := Position(o[1..], k);
        assert Position(o, k) == j + 1;
        assert rest == o[1..][..j] + o[1..][j + 1..];
        assert o[1..][..j] == o[1..j + 1] && o[1..][j + 1..] == o[j + 2..];
        assert o[..j + 1] == [o[0]] + o[1..j + 1];
        ConcatAssoc([o[0]], o[1..j + 1], o[j + 2..]);
      }
    }
  }

  /** The step of `Delete` from the rest of the object to the whole. */
  lemma DeleteStep<V>(o: Obj<V>, k: string, rest: Obj<V>, r: Obj<V>)
    requires o != []
    requires Get(rest, k) == None
    requires forall n :: n != k ==> Get(rest, n) == Get(o[1..], n)
    requires DistinctKeys(o[1..]) ==> DistinctKeys(rest)
    requires r == if o[0].key == k then rest else [o[0]] + rest
    ensures Get(r, k) == None
    ensures forall n :: n != k ==> Get(r, n) == Get(o, n)
    ensures DistinctKeys(o) ==> DistinctKeys(r)
  {
    GetCons(o);
    DistinctTail(o);
    if o[0].key != k {
      assert r[1..] == rest;
      GetCons(r);
      assert Get(rest, o[0].key) == Get(o[1..], o[0].key);
      DistinctCons(o[0], rest);
    }
  }

  /** Reading a property of an object with one more property at its end. */
  lemma GetSnoc<V>(o: Obj<V>, p: Prop<V>)
    ensures forall n :: HasKey(o + [p], n) <==> HasKey(o, n) || n == p.key
    ensures forall n :: Get(o + [p], n)
                        == if HasKey(o, n) then Get(o, n) else if n == p.key then Some(p.value) else None
  {
    assert KeysOf(o + [p]) == KeysOf(o) + [p.key];
    forall n | HasKey(o, n) ensures Get(o + [p], n) == Get(o, n) {
      FirstIndexAppend(KeysOf(o), p.key, n);
      assert (o + [p])[FirstIndex(KeysOf(o), n)] == o[FirstIndex(KeysOf(o), n)];
    }
  }

  /** The last property of an object with unique names is the only one of
      its name, and the others still have unique names. */
  lemma DistinctInit<V>(o: Obj<V>)
    requires o != []
    ensures DistinctKeys(o) ==> DistinctKeys(o[..|o| - 1]) && !HasKey(o[..|o| - 1], o[|o| - 1].key)
  {
    var init := o[..|o| - 1];
    assert forall i :: 0 <= i < |init| ==> init[i] == o[i];
  }

  /** `Object.assign(target, source)`: each property of `source`, in order,
      is assigned to `target`. The merged object has the names of both; a
      name of `source` reads its value there, any other name reads what it
      read in `target`. */
  function Assign<V>(target: Obj<V>, source: Obj<V>): (r: Obj<V>)
    ensures DistinctKeys(target) ==> DistinctKeys(r)
    ensures forall n :: HasKey(r, n) <==> HasKey(target, n) || HasKey(source, n)
    ensures forall n :: !HasKey(source, n) ==> Get(r, n) == Get(target, n)
    ensures DistinctKeys(source) ==>
              forall n :: Get(r, n) == if HasKey(source, n) then Get(source, n) else Get(target, n)
    decreases |source|
  {
    if source == [] then target
    else
      var last := source[|source| - 1];
      var a := Assign(target, source[..|source| - 1]);
      AssignStep(target, source, a);
      Set(a, last.key, last.value)
  }

  /** The step of `Assign` for its last source property. */
  lemma AssignStep<V>(target: Obj<V>, source: Obj<V>, a: Obj<V>)
    requires source != []
    requires forall n :: HasKey(a, n) <==> HasKey(target, n) || HasKey(source[..|source| - 1], n)
    requires forall n :: !HasKey(source[..|source| - 1], n) ==> Get(a, n) == Get(target, n)
    requires DistinctKeys(source[..|source| - 1]) ==>
               forall n :: Get(a, n) == if HasKey(source[..|source| - 1], n) then Get(source[..|source| - 1], n) else Get(target, n)
    ensures forall n :: HasKey(Set(a, source[|source| - 1].key, source[|source| - 1].value), n)
                        <==> HasKey(target, n) || HasKey(source, n)
    ensures forall n :: !HasKey(source, n) ==>
              Get(Set(a, source[|source| - 1].key, source[|source| - 1].value), n) == Get(target, n)
    ensures DistinctKeys(source) ==>
              forall n :: Get(Set(a, source[|source| - 1].key, source[|source| - 1].value), n)
                          == if HasKey(source, n) then Get(source, n) else Get(target, n)
  {
    var init, last := source[..|source| - 1], source[|source| - 1];
    assert source == init + [last];
    GetSnoc(init, last);
    DistinctInit(source);
    var r := Set(a, last.key, last.value);
    forall n ensures HasKey(r, n) <==> HasKey(a, n) || n == last.key {
      assert Get(r, n).Some? <==> Get(a, n).Some? || n == last.key;
    }
  }

  /** Whether `sources[i]` is the last of `sources` to have the name `n`. */
  predicate LastToHave<V>(sources: seq<Obj<V>>, i: int, n: string)
  {
    0 <= i < |sources| && HasKey(sources[i], n)
    && forall j :: i < j < |sources| ==> !HasKey(sources[j], n)
  }

  /** Every object of `sources` has unique names. */
  predicate AllDistinctKeys<V>(sources: seq<Obj<V>>)
  {
    forall i :: 0 <= i < |sources| ==> DistinctKeys(sources[i])
  }

  /** `Object.assign(target, ...sources)`: the sources are merged from left
      to right, so a later source overrides an earlier one. The merged object
      has the names of the target and of every source; a name reads its
      value in the last source that has it, or in `target` when no source
      has it. */
  function AssignAll<V>(target: Obj<V>, sources: seq<Obj<V>>): (r: Obj<V>)
    ensures DistinctKeys(target) ==> DistinctKeys(r)
    ensures forall n :: HasKey(r, n) <==>
              HasKey(target, n) || exists i :: 0 <= i < |sources| && HasKey(sources[i], n)
    ensures forall n :: (forall i :: 0 <= i < |sources| ==> !HasKey(sources[i], n)) ==> Get(r, n) == Get(target, n)
    ensures AllDistinctKeys(sources) ==>
              forall n, i :: LastToHave(sources, i, n) ==> Get(r, n) == Get(sources[i], n)
    decreases |sources|
  {
    if sources == [] then target
    else
      var init, last := sources[..|sources| - 1], sources[|sources| - 1];
      var a := AssignAll(target, init);
      AssignAllStep(target, init, last, a);
      assert init + [last] == sources;
      Assign(a, last)
  }

  /** Merging one more source is assigning it onto the merge of the
      others. */
  lemma AssignAllSnoc<V>(target: Obj<V>, init: seq<Obj<V>>, last: Obj<V>)
    ensures AssignAll(target, init + [last]) == Assign(AssignAll(target, init), last)
  {
    assert (init + [last])[..|init|] == init;
  }

  /** Assigning a single property with a name the target lacks appends it. */
  lemma AssignSingle<V>(target: Obj<V>, p: Prop<V>)
    requires !HasKey(target, p.key)
    ensures Assign(target, [p]) == target + [p]
  {
    assert [p][..0] == [];
  }

  /** The step of `AssignAll` for its last source. */
  lemma AssignAllStep<V>(target: Obj<V>, init: seq<Obj<V>>, last: Obj<V>, a: Obj<V>)
    requires forall n :: HasKey(a, n) <==> HasKey(target, n) || exists i :: 0 <= i < |init| && HasKey(init[i], n)
    requires forall n :: (forall i :: 0 <= i < |init| ==> !HasKey(init[i], n)) ==> Get(a, n) == Get(target, n)
    requires AllDistinctKeys(init) ==> forall n, i :: LastToHave(init, i, n) ==> Get(a, n) == Get(init[i], n)
    ensures forall n :: HasKey(Assign(a, last), n) <==>
              HasKey(target, n) || exists i :: 0 <= i < |init + [last]| && HasKey((init + [last])[i], n)
    ensures forall n :: (forall i :: 0 <= i < |init + [last]| ==> !HasKey((init + [last])[i], n)) ==>
              Get(Assign(a, last), n) == Get(target, n)
    ensures AllDistinctKeys(init + [last]) ==>
              forall n, i :: LastToHave(init + [last], i, n) ==> Get(Assign(a, last), n) == Get((init + [last])[i], n)
  {
    var sources := init + [last];
    var r := Assign(a, last);
    assert forall i :: 0 <= i < |init| ==> sources[i] == init[i];
    assert sources[|init|] == last;
    forall n ensures HasKey(r, n) <==> HasKey(target, n) || exists i :: 0 <= i < |sources| && HasKey(sources[i], n) {
      if exists i :: 0 <= i < |sources| && HasKey(sources[i], n) {
        var i :| 0 <= i < |sources| && HasKey(sources[i], n);
        if i < |init| {
          assert HasKey(init[i], n);
        }
      }
    }
    forall n | forall i :: 0 <= i < |sources| ==> !HasKey(sources[i], n)
      ensures Get(r, n) == Get(target, n)
    {
      assert !HasKey(sources[|init|], n);
      assert forall i :: 0 <= i < |init| ==> !HasKey(sources[i], n);
    }
    if AllDistinctKeys(sources) {
      assert DistinctKeys(sources[|init|]);
      assert AllDistinctKeys(init) by {
        forall i | 0 <= i < |init| ensures DistinctKeys(init[i]) { assert DistinctKeys(sources[i]); }
      }
      forall n, i | LastToHave(sources, i, n) ensures Get(r, n) == Get(sources[i], n) {
        if i < |init| {
          assert !HasKey(sources[|init|], n);
          assert LastToHave(init, i, n) by {
            forall j | i < j < |init| ensures !HasKey(init[j], n) { assert !HasKey(sources[j], n); }
          }
        }
      }
    }
  }
}
