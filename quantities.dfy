/**
 * The component -> quantity dict of a well content. Python dicts remember the
 * order in which keys were first inserted, and the model keeps that order:
 * `concentration()` without a component reads the first key, and a key that is
 * popped and added again moves to the end.
 */
module Quantities {
  import opened Seqs

  datatype RawDict = RawDict(keys: seq<string>, amounts: map<string, real>)

  ghost predicate WellFormed(d: RawDict) {
    Distinct(d.keys) && forall k :: k in d.amounts <==> k in d.keys
  }

  /** A dict: its keys in insertion order, each once, and the amount stored under each. */
  type Dict = d: RawDict | WellFormed(d) witness RawDict([], map[])

  function Empty(): (d: Dict)
    ensures d.keys == [] && d.amounts == map[]
  {
    RawDict([], map[])
  }

  /** The amount of `k`, reading a missing component as 0. */
  function Get(d: Dict, k: string): real {
    if k in d.amounts then d.amounts[k] else 0.0
  }

  /** `d[k] = v`: an existing key keeps its place, a new key goes last. */
  function Set(d: Dict, k: string, v: real): (r: Dict)
    ensures r.amounts == d.amounts[k := v]
    ensures r.keys == if k in d.amounts then d.keys else d.keys + [k]
  {
    if k in d.amounts then RawDict(d.keys, d.amounts[k := v])
    else
      DistinctAppend(d.keys, k);
      RawDict(d.keys + [k], d.amounts[k := v])
  }

  /** `d.pop(k)`: the key leaves the dict and the others keep their order. */
  function Pop(d: Dict, k: string): (r: Dict)
    requires k in d.amounts
    ensures r.amounts == d.amounts - {k}
    ensures r.keys == Filter(d.keys, x => x != k)
  {
    var keys := Filter(d.keys, x => x != k);
    FilterDistinct(d.keys, x => x != k);
    FilterMembers(d.keys, x => x != k);
    RawDict(keys, d.amounts - {k})
  }

  /** `{c: q * factor for c, q in d.items()}`: same keys in the same order, every amount scaled. */
  function Scale(d: Dict, factor: real): (r: Dict)
    ensures r.keys == d.keys && r.amounts.Keys == d.amounts.Keys
    ensures forall k | k in d.amounts :: r.amounts[k] == d.amounts[k] * factor
  {
    RawDict(d.keys, map k | k in d.amounts :: d.amounts[k] * factor)
  }

  // ---------------------------------------------------------------------------
  // Adding the items of one dict to another (the loop of Well.add_content)
  // ---------------------------------------------------------------------------

  /**
   * The first `n` items of `c` added to `d` one at a time: a missing component
   * is first inserted with 0, then increased.
   */
  function AddItems(d: Dict, c: Dict, n: nat): Dict
    requires n <= |c.keys|
  {
    if n == 0 then d
    else
      var k := c.keys[n - 1];
      AddOne(AddItems(d, c, n - 1), k, c.amounts[k])
  }

  /** One step of the loop: `d[k] = d.get(k, 0) + amount`. */
  function AddOne(d: Dict, k: string, amount: real): Dict {
    Set(d, k, Get(d, k) + amount)
  }

  /** One step adds to its component only, and keeps the keys already present first. */
  lemma AddOneAt(d: Dict, key: string, amount: real, k: string)
    ensures k in AddOne(d, key, amount).amounts <==> k in d.amounts || k == key
    ensures Get(AddOne(d, key, amount), k) == Get(d, k) + (if k == key then amount else 0.0)
  {
  }

  /** All the items of `c` added to `d`. */
  function AddAll(d: Dict, c: Dict): Dict {
    AddItems(d, c, |c.keys|)
  }

  lemma LastNotInPrefix(s: seq<string>, n: nat)
    requires Distinct(s) && 0 < n <= |s|
    ensures s[n - 1] !in s[..n - 1]
  {
    DistinctNotBefore(s, n - 1);
  }

  lemma DistinctPrefix(s: seq<string>, n: nat, k: string)
    requires 0 < n <= |s|
    ensures k in s[..n] <==> k in s[..n - 1] || k == s[n - 1]
  {
    assert s[..n] == s[..n - 1] + [s[n - 1]];
  }

  /**
   * After adding the first `n` items, a component is present when it was in `d`
   * or among those items, and holds its old amount plus what the items give it.
   */
  lemma {:induction false} AddItemsAt(d: Dict, c: Dict, n: nat, k: string)
    requires n <= |c.keys|
    ensures k in AddItems(d, c, n).amounts <==> k in d.amounts || k in c.keys[..n]
    ensures Get(AddItems(d, c, n), k) == Get(d, k) + (if k in c.keys[..n] then c.amounts[k] else 0.0)
  {
    if n > 0 {
      var key := c.keys[n - 1];
      var r := AddItems(d, c, n - 1);
      assert AddItems(d, c, n) == AddOne(r, key, c.amounts[key]);
      AddItemsAt(d, c, n - 1, k);
      AddOneAt(r, key, c.amounts[key], k);
      DistinctPrefix(c.keys, n, k);
      if k == key {
        LastNotInPrefix(c.keys, n);
        assert Get(r, k) == Get(d, k);
      } else {
        assert (k in c.keys[..n]) == (k in c.keys[..n - 1]);
      }
    }
  }

  /** Adding never reorders the keys already present: they stay first. */
  lemma {:induction false} AddItemsKeepsOrder(d: Dict, c: Dict, n: nat)
    requires n <= |c.keys|
    ensures d.keys <= AddItems(d, c, n).keys
  {
    if n > 0 {
      AddItemsKeepsOrder(d, c, n - 1);
      AddItemsStepKeepsOrder(d, c, n);
      PrefixTransitive(d.keys, AddItems(d, c, n - 1).keys, AddItems(d, c, n).keys);
    }
  }

  lemma AddItemsStepKeepsOrder(d: Dict, c: Dict, n: nat)
    requires 0 < n <= |c.keys|
    ensures AddItems(d, c, n - 1).keys <= AddItems(d, c, n).keys
  {
    var key := c.keys[n - 1];
    var r := AddItems(d, c, n - 1);
    assert AddItems(d, c, n).keys == AddOne(r, key, c.amounts[key]).keys;
  }

  lemma PrefixTransitive(a: seq<string>, b: seq<string>, c: seq<string>)
    requires a <= b && b <= c
    ensures a <= c
  {
    assert c[..|a|] == b[..|a|];
  }

  lemma AddItemsEffect(d: Dict, c: Dict, n: nat)
    requires n <= |c.keys|
    ensures forall k :: k in AddItems(d, c, n).amounts <==> k in d.amounts || k in c.keys[..n]
    ensures forall k :: Get(AddItems(d, c, n), k) == Get(d, k) + (if k in c.keys[..n] then c.amounts[k] else 0.0)
    ensures d.keys <= AddItems(d, c, n).keys
  {
    forall k {
      AddItemsAt(d, c, n, k);
    }
    AddItemsKeepsOrder(d, c, n);
  }

  /** Adding a dict adds its amounts componentwise, and keeps the old keys first. */
  lemma AddAllEffect(d: Dict, c: Dict)
    ensures forall k :: k in AddAll(d, c).amounts <==> k in d.amounts || k in c.amounts
    ensures forall k :: Get(AddAll(d, c), k) == Get(d, k) + Get(c, k)
    ensures d.keys <= AddAll(d, c).keys
  {
    AddItemsEffect(d, c, |c.keys|);
    assert c.keys[..|c.keys|] == c.keys;
  }

  // ---------------------------------------------------------------------------
  // Subtracting the items of one dict from another (the loop of Well.subtract_content)
  // ---------------------------------------------------------------------------

  /**
   * Where the subtraction loop stops: `complete` is false when it met a
   * component the dict does not hold (Python raises KeyError there, leaving the
   * items already processed subtracted).
   */
  datatype Subtraction = Subtraction(dict: Dict, complete: bool)

  /**
   * The first `n` items of `c` subtracted from `d`: a component whose stored
   * amount equals the amount subtracted is popped, any other is decreased.
   */
  function SubtractItems(d: Dict, c: Dict, n: nat): Subtraction
    requires n <= |c.keys|
  {
    if n == 0 then Subtraction(d, true)
    else
      var r := SubtractItems(d, c, n - 1);
      var k := c.keys[n - 1];
      if !r.complete then r
      else if k !in r.dict.amounts then Subtraction(r.dict, false)
      else Subtraction(SubtractOne(r.dict, k, c.amounts[k]), true)
  }

  /** Once the subtraction has met a missing component it stops: later items change nothing. */
  lemma {:induction false} SubtractItemsStop(d: Dict, c: Dict, n: nat, m: nat)
    requires n <= m <= |c.keys|
    requires !SubtractItems(d, c, n).complete
    ensures SubtractItems(d, c, m) == SubtractItems(d, c, n)
    decreases m
  {
    if m > n {
      SubtractItemsStop(d, c, n, m - 1);
    }
  }

  /** One step of the loop: the component is popped when the amount is all it holds, and decreased otherwise. */
  function SubtractOne(d: Dict, k: string, amount: real): Dict
    requires k in d.amounts
  {
    if d.amounts[k] == amount then Pop(d, k) else Set(d, k, d.amounts[k] - amount)
  }

  /** One step changes only the component it subtracts from. */
  lemma SubtractOneAt(d: Dict, key: string, amount: real, k: string)
    requires key in d.amounts
    ensures k in SubtractOne(d, key, amount).amounts <==> k in d.amounts && !(k == key && d.amounts[key] == amount)
    ensures k in SubtractOne(d, key, amount).amounts ==>
      SubtractOne(d, key, amount).amounts[k] == d.amounts[k] - (if k == key then amount else 0.0)
  {
  }

  /** All the items of `c` subtracted from `d`. */
  function SubtractAll(d: Dict, c: Dict): Subtraction {
    SubtractItems(d, c, |c.keys|)
  }

  /**
   * When the subtraction of the first `n` items completes, a component of `d`
   * is gone exactly when the amount subtracted from it was all it held, and
   * otherwise holds the difference.
   */
  lemma {:induction false} SubtractItemsAt(d: Dict, c: Dict, n: nat, k: string)
    requires n <= |c.keys|
    ensures SubtractItems(d, c, n).complete ==>
      (k in SubtractItems(d, c, n).dict.amounts <==> k in d.amounts && !(k in c.keys[..n] && d.amounts[k] == c.amounts[k]))
    ensures SubtractItems(d, c, n).complete && k in SubtractItems(d, c, n).dict.amounts ==>
      SubtractItems(d, c, n).dict.amounts[k] == d.amounts[k] - (if k in c.keys[..n] then c.amounts[k] else 0.0)
  {
    if n > 0 {
      var r := SubtractItems(d, c, n - 1);
      var key := c.keys[n - 1];
      if r.complete && key in r.dict.amounts {
        assert SubtractItems(d, c, n).dict == SubtractOne(r.dict, key, c.amounts[key]);
        SubtractItemsAt(d, c, n - 1, k);
        SubtractOneAt(r.dict, key, c.amounts[key], k);
        DistinctPrefix(c.keys, n, k);
        if k == key {
          LastNotInPrefix(c.keys, n);
        } else {
          assert (k in c.keys[..n]) == (k in c.keys[..n - 1]);
        }
      }
    }
  }

  /** Subtracting the first `n` items completes exactly when each of their components is in `d`. */
  lemma {:induction false} SubtractItemsCompletes(d: Dict, c: Dict, n: nat)
    requires n <= |c.keys|
    ensures SubtractItems(d, c, n).complete <==> forall i | 0 <= i < n :: c.keys[i] in d.amounts
  {
    if n > 0 {
      SubtractItemsCompletes(d, c, n - 1);
      SubtractStepCompletes(d, c, n);
      AllInStep(c.keys, d.amounts, n);
    }
  }

  /** The n-th step completes when the earlier ones did and its component was in `d`. */
  lemma SubtractStepCompletes(d: Dict, c: Dict, n: nat)
    requires 0 < n <= |c.keys|
    ensures SubtractItems(d, c, n).complete <==> SubtractItems(d, c, n - 1).complete && c.keys[n - 1] in d.amounts
  {
    var r := SubtractItems(d, c, n - 1);
    if r.complete {
      SubtractItemsAt(d, c, n - 1, c.keys[n - 1]);
      LastNotInPrefix(c.keys, n);
    }
  }

  lemma AllInStep(s: seq<string>, present: map<string, real>, n: nat)
    requires 0 < n <= |s|
    ensures (forall i | 0 <= i < n :: s[i] in present) <==>
      (forall i | 0 <= i < n - 1 :: s[i] in present) && s[n - 1] in present
  {
  }

  lemma SubtractItemsEffect(d: Dict, c: Dict, n: nat)
    requires n <= |c.keys|
    ensures SubtractItems(d, c, n).complete <==> forall i | 0 <= i < n :: c.keys[i] in d.amounts
    ensures SubtractItems(d, c, n).complete ==> forall k ::
      k in SubtractItems(d, c, n).dict.amounts <==>
        k in d.amounts && !(k in c.keys[..n] && d.amounts[k] == c.amounts[k])
    ensures SubtractItems(d, c, n).complete ==> forall k | k in SubtractItems(d, c, n).dict.amounts ::
      SubtractItems(d, c, n).dict.amounts[k] == d.amounts[k] - (if k in c.keys[..n] then c.amounts[k] else 0.0)
  {
    SubtractItemsCompletes(d, c, n);
    if SubtractItems(d, c, n).complete {
      forall k {
        SubtractItemsAt(d, c, n, k);
      }
    }
  }

  /** Subtracting completes exactly when every component subtracted is present. */
  lemma SubtractAllEffect(d: Dict, c: Dict)
    ensures SubtractAll(d, c).complete <==> forall k | k in c.amounts :: k in d.amounts
    ensures SubtractAll(d, c).complete ==> forall k ::
      k in SubtractAll(d, c).dict.amounts <==> k in d.amounts && !(k in c.amounts && d.amounts[k] == c.amounts[k])
    ensures SubtractAll(d, c).complete ==> forall k | k in SubtractAll(d, c).dict.amounts ::
      SubtractAll(d, c).dict.amounts[k] == d.amounts[k] - Get(c, k)
  {
    SubtractItemsEffect(d, c, |c.keys|);
    assert c.keys[..|c.keys|] == c.keys;
    if SubtractAll(d, c).complete {
      forall k | k in c.amounts ensures k in d.amounts {
        var i :| 0 <= i < |c.keys| && c.keys[i] == k;
      }
    }
  }

  /**
   * Subtracting what was just added gives back the old amounts, except that a
   * component left at exactly 0 disappears.
   */
  lemma AddThenSubtract(d: Dict, c: Dict)
    ensures SubtractAll(AddAll(d, c), c).complete
    ensures forall k :: Get(SubtractAll(AddAll(d, c), c).dict, k) == Get(d, k)
    ensures forall k :: k in SubtractAll(AddAll(d, c), c).dict.amounts <==>
      (k in d.amounts || k in c.amounts) && !(k in c.amounts && Get(d, k) == 0.0)
  {
    var a := AddAll(d, c);
    AddAllEffect(d, c);
    SubtractAllEffect(a, c);
    forall k {
      AddThenSubtractAt(d, c, k);
    }
  }

  lemma AddThenSubtractAt(d: Dict, c: Dict, k: string)
    requires forall k :: k in AddAll(d, c).amounts <==> k in d.amounts || k in c.amounts
    requires forall k :: Get(AddAll(d, c), k) == Get(d, k) + Get(c, k)
    requires SubtractAll(AddAll(d, c), c).complete
    requires forall k :: k in SubtractAll(AddAll(d, c), c).dict.amounts <==>
      k in AddAll(d, c).amounts && !(k in c.amounts && AddAll(d, c).amounts[k] == c.amounts[k])
    requires forall k | k in SubtractAll(AddAll(d, c), c).dict.amounts ::
      SubtractAll(AddAll(d, c), c).dict.amounts[k] == AddAll(d, c).amounts[k] - Get(c, k)
    ensures Get(SubtractAll(AddAll(d, c), c).dict, k) == Get(d, k)
    ensures k in SubtractAll(AddAll(d, c), c).dict.amounts <==>
      (k in d.amounts || k in c.amounts) && !(k in c.amounts && Get(d, k) == 0.0)
  {
    var a := AddAll(d, c);
    var r := SubtractAll(a, c).dict;
    assert Get(a, k) == Get(d, k) + Get(c, k);
    if k in a.amounts {
      assert a.amounts[k] == Get(d, k) + Get(c, k);
    }
  }
}
