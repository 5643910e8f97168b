/** Python's insertion-ordered `dict`, as the sequence of its entries.

    Assigning `d[k] = v` to a key already present keeps the key where it is
    and replaces its value; a new key goes to the end.  `{**a, **b}` and
    `dict(pairs)` are folds of that assignment.  The order matters to the
    callers: the front matter the tools write lists metadata in dict order. */
module Dicts {
  import opened Wrappers
  import Strings

  type Dict<V> = seq<(string, V)>

  /** The keys, in dict order. */
  function Keys<V>(d: Dict<V>): (ks: seq<string>)
    ensures |ks| == |d|
    ensures forall i :: 0 <= i < |d| ==> ks[i] == d[i].0
  {
    if d == [] then [] else [d[0].0] + Keys(d[1..])
  }

  /** No key occurs twice: what every Python dict satisfies. */
  predicate DistinctKeys<V>(d: Dict<V>) {
    forall i, j :: 0 <= i < j < |d| ==> d[i].0 != d[j].0
  }

  /** `d.get(k)`: the value stored under `k`, if any. */
  function Get<V>(d: Dict<V>, k: string): (r: Option<V>)
    ensures r.Some? <==> k in Keys(d)
  {
    if d == [] then None
    else if d[0].0 == k then Some(d[0].1)
    else
      assert Keys(d) == [d[0].0] + Keys(d[1..]);
      Get(d[1..], k)
  }

  /** A value `d.get(k)` finds is stored under `k` in `d`. */
  lemma {:induction false} GetIn<V>(d: Dict<V>, k: string)
    ensures Get(d, k).Some? ==> (k, Get(d, k).value) in d
  {
    if d != [] && d[0].0 != k {
      GetIn(d[1..], k);
    }
  }

  /** `d[k] = v`. */
  function Set<V>(d: Dict<V>, k: string, v: V): Dict<V>
  {
    if d == [] then [(k, v)]
    else if d[0].0 == k then [(k, v)] + d[1..]
    else [d[0]] + Set(d[1..], k, v)
  }

  /** After `d[k] = v`, `k` holds `v` and every other key holds what it held. */
  lemma {:induction false} SetGet<V>(d: Dict<V>, k: string, v: V, k': string)
    ensures Get(Set(d, k, v), k') == if k' == k then Some(v) else Get(d, k')
  {
    if d != [] && d[0].0 != k {
      SetGet(d[1..], k, v, k');
    }
  }

  /** The keys of an entry followed by a dict. */
  lemma KeysCons<V>(e: (string, V), d: Dict<V>)
    ensures Keys([e] + d) == [e.0] + Keys(d)
  {
  }

  /** The keys of a dict followed by an entry. */
  lemma KeysSnoc<V>(d: Dict<V>, e: (string, V))
    ensures Keys(d + [e]) == Keys(d) + [e.0]
  {
  }

  /** `d[k] = v` keeps a present key in place and appends a new one. */
  lemma {:induction false} SetKeys<V>(d: Dict<V>, k: string, v: V)
    ensures Keys(Set(d, k, v)) == if k in Keys(d) then Keys(d) else Keys(d) + [k]
  {
    if d != [] {
      var e, rest := d[0], d[1..];
      assert [e] + rest == d;
      KeysCons(e, rest);
      var kr := Keys(rest);
      assert Keys(d) == [e.0] + kr;
      if e.0 != k {
        SetKeys(rest, k, v);
        KeysCons(e, Set(rest, k, v));
        assert k in Keys(d) <==> k in kr;
        if k !in kr {
          Strings.AppendAssoc([e.0], kr, [k]);
        }
      } else {
        KeysCons((k, v), rest);
        assert k in Keys(d);
      }
    }
  }

  lemma SetDistinct<V>(d: Dict<V>, k: string, v: V)
    requires DistinctKeys(d)
    ensures DistinctKeys(Set(d, k, v))
  {
    SetKeys(d, k, v);
    var d' := Set(d, k, v);
    assert forall i :: 0 <= i < |d'| ==> d'[i].0 == Keys(d')[i];
  }

  /** `d[k] = d.get(k, 0) + 1`: count one more `k`. */
  function Increment(d: Dict<nat>, k: string): Dict<nat> {
    if d == [] then [(k, 1)]
    else if d[0].0 == k then [(k, d[0].1 + 1)] + d[1..]
    else [d[0]] + Increment(d[1..], k)
  }

  /** Counting one more `k` is the assignment it is written as. */
  lemma {:induction false} IncrementIsSet(d: Dict<nat>, k: string)
    ensures Increment(d, k) == Set(d, k, Get(d, k).GetOr(0) + 1)
  {
    if d != [] && d[0].0 != k {
      IncrementIsSet(d[1..], k);
    }
  }

  /** Counting one more `k` raises `k`'s count by one and leaves the others. */
  lemma {:induction false} IncrementGet(d: Dict<nat>, k: string, k': string)
    ensures k' != k ==> Get(Increment(d, k), k') == Get(d, k')
    ensures Get(Increment(d, k), k).Some? && Get(Increment(d, k), k).GetOr(0) == Get(d, k).GetOr(0) + 1
  {
    if d != [] && d[0].0 != k {
      IncrementGet(d[1..], k, k');
    }
  }

  /** Counting one more `k` adds no key but `k`. */
  lemma IncrementKeys(d: Dict<nat>, k: string)
    ensures forall x :: x in Keys(Increment(d, k)) ==> x in Keys(d) || x == k
  {
    IncrementIsSet(d, k);
    SetKeysWithin(d, k, Get(d, k).GetOr(0) + 1);
  }

  lemma SetKeysWithin<V>(d: Dict<V>, k: string, v: V)
    ensures forall x :: x in Keys(Set(d, k, v)) ==> x in Keys(d) || x == k
  {
    SetKeys(d, k, v);
  }

  /** Counting one more `k` never repeats a key. */
  lemma IncrementDistinct(d: Dict<nat>, k: string)
    requires DistinctKeys(d)
    ensures DistinctKeys(Increment(d, k))
  {
    IncrementIsSet(d, k);
    SetDistinct(d, k, Get(d, k).GetOr(0) + 1);
  }

  /** `{**d, **ps}` (and `dict(ps)` when `d` is empty): `ps` assigned entry by entry. */
  function Update<V>(d: Dict<V>, ps: Dict<V>): Dict<V>
    decreases |ps|
  {
    if ps == [] then d else Update(Set(d, ps[0].0, ps[0].1), ps[1..])
  }

  /** The keys of `ks` that are not in `seen`, in order. */
  function NewKeys(ks: seq<string>, seen: seq<string>): (r: seq<string>)
    ensures forall k :: k in r <==> k in ks && k !in seen
  {
    if ks == [] then []
    else if ks[0] in seen then NewKeys(ks[1..], seen)
    else [ks[0]] + NewKeys(ks[1..], seen)
  }

  lemma {:induction false} NewKeysSkip(ks: seq<string>, seen: seq<string>, k: string)
    requires k !in ks
    ensures NewKeys(ks, seen + [k]) == NewKeys(ks, seen)
  {
    if ks != [] {
      NewKeysSkip(ks[1..], seen, k);
    }
  }

  /** The entries after the first of a dict without repeated keys have none
      either, and do not hold the first key. */
  lemma DistinctTail<V>(ps: Dict<V>)
    requires ps != [] && DistinctKeys(ps)
    ensures DistinctKeys(ps[1..]) && ps[0].0 !in Keys(ps[1..])
  {
    var rest := ps[1..];
    forall i, j | 0 <= i < j < |rest| ensures rest[i].0 != rest[j].0 {
      assert rest[i] == ps[i + 1] && rest[j] == ps[j + 1];
    }
    forall i | 0 <= i < |rest| ensures Keys(rest)[i] != ps[0].0 {
      assert rest[i] == ps[i + 1];
    }
  }

  lemma NewKeysCons(k: string, ks: seq<string>, seen: seq<string>)
    ensures NewKeys([k] + ks, seen) == if k in seen then NewKeys(ks, seen) else [k] + NewKeys(ks, seen)
  {
    assert ([k] + ks)[1..] == ks;
  }

  /** Merging a dict into `d`: `d`'s keys stay first and in place, and the
      other dict's new keys follow in its order. */
  lemma {:induction false} UpdateKeys<V>(d: Dict<V>, ps: Dict<V>)
    requires DistinctKeys(ps)
    ensures Keys(Update(d, ps)) == Keys(d) + NewKeys(Keys(ps), Keys(d))
    decreases |ps|
  {
    if ps != [] {
      var k0, v0, rest := ps[0].0, ps[0].1, ps[1..];
      var d1 := Set(d, k0, v0);
      DistinctTail(ps);
      UpdateKeys(d1, rest);
      SetKeys(d, k0, v0);
      var kd, kr := Keys(d), Keys(rest);
      assert [ps[0]] + rest == ps;
      KeysCons(ps[0], rest);
      NewKeysCons(k0, kr, kd);
      assert Update(d, ps) == Update(d1, rest);
      if k0 in kd {
        assert Keys(d1) == kd;
      } else {
        assert Keys(d1) == kd + [k0];
        NewKeysSkip(kr, kd, k0);
        Strings.AppendAssoc(kd, [k0], NewKeys(kr, kd));
      }
    }
  }

  /** Merging a dict into `d`: on a shared key the merged-in value wins, and
      the other keys keep the value `d` gives them. */
  lemma {:induction false} UpdateGet<V>(d: Dict<V>, ps: Dict<V>, k: string)
    requires DistinctKeys(ps)
    ensures Get(Update(d, ps), k) == if k in Keys(ps) then Get(ps, k) else Get(d, k)
    decreases |ps|
  {
    if ps != [] {
      var k0, rest := ps[0].0, ps[1..];
      DistinctTail(ps);
      UpdateGet(Set(d, k0, ps[0].1), rest, k);
      SetGet(d, k0, ps[0].1, k);
      assert [ps[0]] + rest == ps;
      KeysCons(ps[0], rest);
    }
  }

  /** Assigning the entries of a list one by one never leaves a key twice. */
  lemma {:induction false} UpdateDistinct<V>(d: Dict<V>, ps: Dict<V>)
    requires DistinctKeys(d)
    ensures DistinctKeys(Update(d, ps))
    decreases |ps|
  {
    if ps != [] {
      SetDistinct(d, ps[0].0, ps[0].1);
      UpdateDistinct(Set(d, ps[0].0, ps[0].1), ps[1..]);
    }
  }
}
