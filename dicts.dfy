/** Python dictionaries keyed by strings, as the invariant code uses them:
    a mapping together with the order in which its keys were inserted, and
    the reordering that puts a preferred list of keys first. */
module Dicts {

  /** A dict: its keys in insertion order and its key -> value mapping. */
  datatype Dict<V> = Dict(keys: seq<string>, vals: map<string, V>)

  /** No key twice, and the order lists exactly the mapped keys. */
  ghost predicate Valid<V>(d: Dict<V>)
  {
    && Distinct(d.keys)
    && forall k :: k in d.vals <==> k in d.keys
  }

  predicate Distinct(s: seq<string>)
  {
    forall i, j :: 0 <= i < j < |s| ==> s[i] != s[j]
  }

  /** `{}`. */
  function Empty<V>(): (d: Dict<V>)
    ensures Valid(d) && d.vals == map[]
  {
    Dict([], map[])
  }

  /** `d[k] = v`: an existing key keeps its place, a new one goes last. */
  function Put<V>(d: Dict<V>, k: string, v: V): (r: Dict<V>)
    ensures Valid(d) ==> Valid(r)
    ensures r.vals == d.vals[k := v]
    ensures k in d.vals ==> r.keys == d.keys
    ensures k !in d.vals ==> r.keys == d.keys + [k]
  {
    if k in d.vals then Dict(d.keys, d.vals[k := v]) else Dict(d.keys + [k], d.vals[k := v])
  }

  // ---------------------------------------------------------------
  // Reordering

  /** The listed keys that the dict holds, in list order. */
  function Present<V>(desired: seq<string>, d: Dict<V>): (r: seq<string>)
    ensures forall k :: k in r <==> k in desired && k in d.vals
  {
    if |desired| == 0 then []
    else
      var front := Present(desired[..|desired| - 1], d);
      var k := desired[|desired| - 1];
      if k in d.vals then front + [k] else front
  }

  /** The keys not listed, in their original order. */
  function Leftover(keys: seq<string>, desired: seq<string>): (r: seq<string>)
    ensures forall k :: k in r <==> k in keys && k !in desired
  {
    if |keys| == 0 then []
    else
      var front := Leftover(keys[..|keys| - 1], desired);
      var k := keys[|keys| - 1];
      if k !in desired then front + [k] else front
  }

  /** The dict holding the keys ks, in that order, with d's values. */
  function Sub<V>(d: Dict<V>, ks: seq<string>): Dict<V>
    requires forall k :: k in ks ==> k in d.vals
  {
    Dict(ks, map k | k in ks :: d.vals[k])
  }

  /** Copying one more key of d onto the end. */
  lemma PutSub<V>(d: Dict<V>, ks: seq<string>, k: string)
    requires forall k' :: k' in ks ==> k' in d.vals
    requires k in d.vals && k !in ks
    ensures Put(Sub(d, ks), k, d.vals[k]) == Sub(d, ks + [k])
  {
    var r := Put(Sub(d, ks), k, d.vals[k]);
    assert r.vals == Sub(d, ks + [k]).vals;
  }

  /** A dict of distinct keys is valid. */
  lemma SubValid<V>(d: Dict<V>, ks: seq<string>)
    requires forall k :: k in ks ==> k in d.vals
    requires Distinct(ks)
    ensures Valid(Sub(d, ks))
  {
  }

  /** The reordered dict: same mapping, the listed keys first in list
      order, then every other key in its original order. */
  ghost predicate IsReordering<V>(r: Dict<V>, d: Dict<V>, desired: seq<string>)
  {
    r.vals == d.vals && r.keys == Present(desired, d) + Leftover(d.keys, desired)
  }

  /** The dict after the listed keys and the first j keys of the
      original order have been through the loops. */
  ghost function Partial<V>(d: Dict<V>, desired: seq<string>, j: nat): Dict<V>
    requires Valid(d) && j <= |d.keys|
  {
    PartialInDict(d, desired, j);
    Sub(d, Present(desired, d) + Leftover(d.keys[..j], desired))
  }

  lemma PartialInDict<V>(d: Dict<V>, desired: seq<string>, j: nat)
    requires Valid(d) && j <= |d.keys|
    ensures forall k :: k in Present(desired, d) + Leftover(d.keys[..j], desired) ==> k in d.vals
  {
  }

  /** The dict of the listed keys followed by the leftovers is a valid
      reordering. */
  lemma ReorderedSub<V>(d: Dict<V>, desired: seq<string>)
    requires Valid(d) && Distinct(desired)
    ensures Valid(Partial(d, desired, |d.keys|)) && IsReordering(Partial(d, desired, |d.keys|), d, desired)
  {
    var ks := Present(desired, d) + Leftover(d.keys, desired);
    assert d.keys[..|d.keys|] == d.keys;
    PartialInDict(d, desired, |d.keys|);
    ReorderValid(d, Dict(ks, d.vals), desired);
    SubValid(d, ks);
  }

  /** The first loop: the listed keys present in the dict, in list order. */
  method CopyListed<V>(d: Dict<V>, desired: seq<string>) returns (r: Dict<V>)
    requires Valid(d) && Distinct(desired)
    ensures r == Copied(d, desired, 0)
  {
    r := Empty();
    assert r == Sub(d, []);
    var i := 0;
    while i < |desired|
      invariant 0 <= i <= |desired|
      invariant r == Sub(d, Present(desired[..i], d))
    {
      assert desired[..i + 1][..i] == desired[..i];
      var key := desired[i];
      if key in d.vals {
        assert key !in desired[..i];
        PutSub(d, Present(desired[..i], d), key);
        r := Put(r, key, d.vals[key]);
      }
      i := i + 1;
    }
    assert desired[..i] == desired;
  }

  /** The two loops of `reorder_invariants` in cli_utils.py and main.py: the
      listed keys present in the dict, then the keys not in the list. */
  method ReorderBy<V>(d: Dict<V>, desired: seq<string>) returns (r: Dict<V>)
    requires Valid(d) && Distinct(desired)
    ensures Valid(r) && IsReordering(r, d, desired)
  {
    r := CopyListed(d, desired);
    r := CopyUnlisted(d, desired, r);
    CopiedIsPartial(d, desired, |d.keys|);
    ReorderedSub(d, desired);
  }

  /** The second loop of `ReorderBy`: every key in dict order that is not
      listed. */
  method CopyUnlisted<V>(d: Dict<V>, desired: seq<string>, listed: Dict<V>) returns (r: Dict<V>)
    requires Valid(d) && listed == Copied(d, desired, 0)
    ensures r == Copied(d, desired, |d.keys|)
  {
    r := listed;
    var j := 0;
    while j < |d.keys|
      invariant 0 <= j <= |d.keys|
      invariant r == Copied(d, desired, j)
    {
      var k := d.keys[j];
      CopiedHas(d, desired, j);
      if k !in desired {
        r := Put(r, k, d.vals[k]);
      }
      j := j + 1;
    }
  }

  /** The variant of apn_invariants.py and invariants.py: the second loop
      skips the keys already copied, rather than the listed keys. */
  method ReorderByCopied<V>(d: Dict<V>, desired: seq<string>) returns (r: Dict<V>)
    requires Valid(d) && Distinct(desired)
    ensures Valid(r) && IsReordering(r, d, desired)
  {
    r := CopyListed(d, desired);
    r := CopyUncopied(d, desired, r);
    CopiedIsPartial(d, desired, |d.keys|);
    ReorderedSub(d, desired);
  }

  /** The second loop of `ReorderByCopied`: every key in dict order that is
      not in the new dict yet. */
  method CopyUncopied<V>(d: Dict<V>, desired: seq<string>, listed: Dict<V>) returns (r: Dict<V>)
    requires Valid(d) && listed == Copied(d, desired, 0)
    ensures r == Copied(d, desired, |d.keys|)
  {
    r := listed;
    var j := 0;
    while j < |d.keys|
      invariant 0 <= j <= |d.keys|
      invariant r == Copied(d, desired, j)
    {
      var k := d.keys[j];
      CopiedHas(d, desired, j);
      if k !in r.vals {
        r := Put(r, k, d.vals[k]);
      }
      j := j + 1;
    }
  }

  /** The dict after the listed keys, and then the first j keys of the
      original order, have been through the loops one key at a time. */
  ghost function Copied<V>(d: Dict<V>, desired: seq<string>, j: nat): Dict<V>
    requires Valid(d) && j <= |d.keys|
    decreases j
  {
    if j == 0 then Sub(d, Present(desired, d))
    else
      var p := Copied(d, desired, j - 1);
      var k := d.keys[j - 1];
      if k in desired then p else Put(p, k, d.vals[k])
  }

  /** Key by key, the loops build the listed keys followed by the leftovers
      so far. */
  lemma {:induction false} CopiedIsPartial<V>(d: Dict<V>, desired: seq<string>, j: nat)
    requires Valid(d) && j <= |d.keys|
    ensures Copied(d, desired, j) == Partial(d, desired, j)
    decreases j
  {
    if j == 0 {
      assert Present(desired, d) + Leftover(d.keys[..0], desired) == Present(desired, d);
    } else {
      CopiedIsPartial(d, desired, j - 1);
      NextLeftover(d, desired, j - 1);
    }
  }

  /** The next key in order is already in the new dict exactly when it is
      listed, so both loops copy the same keys. */
  lemma CopiedHas<V>(d: Dict<V>, desired: seq<string>, j: nat)
    requires Valid(d) && j < |d.keys|
    ensures d.keys[j] in Copied(d, desired, j).vals <==> d.keys[j] in desired
  {
    CopiedIsPartial(d, desired, j);
    NextLeftover(d, desired, j);
  }

  /** One more key of the original order extends the leftovers by it,
      unless it is listed. */
  lemma LeftoverStep(keys: seq<string>, j: nat, desired: seq<string>, front: seq<string>)
    requires j < |keys|
    ensures front + Leftover(keys[..j + 1], desired)
         == front + Leftover(keys[..j], desired) + (if keys[j] in desired then [] else [keys[j]])
  {
    assert keys[..j + 1][..j] == keys[..j];
  }

  /** In a dict, the next key in order is not yet among the leftovers. */
  lemma LeftoverFresh(keys: seq<string>, j: nat, desired: seq<string>)
    requires j < |keys| && Distinct(keys)
    ensures keys[j] !in Leftover(keys[..j], desired)
  {
    assert keys[j] !in keys[..j];
  }

  /** One step of the second loop: the next key in order is copied exactly
      when it is not listed, and exactly when it is not yet copied. */
  lemma NextLeftover<V>(d: Dict<V>, desired: seq<string>, j: nat)
    requires Valid(d) && j < |d.keys|
    ensures var k := d.keys[j];
      && (k in Partial(d, desired, j).vals <==> k in desired)
      && (k in desired ==> Partial(d, desired, j) == Partial(d, desired, j + 1))
      && (k !in desired ==> Put(Partial(d, desired, j), k, d.vals[k]) == Partial(d, desired, j + 1))
  {
    var present := Present(desired, d);
    var ks := present + Leftover(d.keys[..j], desired);
    var k := d.keys[j];
    PartialInDict(d, desired, j);
    LeftoverStep(d.keys, j, desired, present);
    LeftoverFresh(d.keys, j, desired);
    if k !in desired {
      PutSub(d, ks, k);
    }
  }

  /** Reordering a reordered dict changes nothing. */
  lemma ReorderIdempotent<V>(d: Dict<V>, r: Dict<V>, desired: seq<string>)
    requires IsReordering(r, d, desired)
    ensures IsReordering(r, r, desired)
  {
    var P, L := Present(desired, d), Leftover(d.keys, desired);
    PresentSameKeys(desired, r, d);
    assert Present(desired, r) == P;
    LeftoverOfConcat(P, L, desired);
    LeftoverNone(P, desired);
    LeftoverTwice(d.keys, desired);
    calc {
      Leftover(r.keys, desired);
      Leftover(P + L, desired);
      Leftover(P, desired) + Leftover(L, desired);
      { assert Leftover(P, desired) == []; }
      [] + L;
      { assert [] + L == L; }
      L;
    }
  }

  lemma {:induction false} PresentSameKeys<V>(desired: seq<string>, a: Dict<V>, b: Dict<V>)
    requires a.vals.Keys == b.vals.Keys
    ensures Present(desired, a) == Present(desired, b)
    decreases |desired|
  {
    if |desired| > 0 {
      PresentSameKeys(desired[..|desired| - 1], a, b);
    }
  }

  lemma {:induction false} LeftoverOfConcat(x: seq<string>, y: seq<string>, desired: seq<string>)
    ensures Leftover(x + y, desired) == Leftover(x, desired) + Leftover(y, desired)
    decreases |y|
  {
    if |y| == 0 {
      assert x + y == x;
    } else {
      assert (x + y)[..|x + y| - 1] == x + y[..|y| - 1];
      LeftoverOfConcat(x, y[..|y| - 1], desired);
    }
  }

  lemma {:induction false} LeftoverNone(x: seq<string>, desired: seq<string>)
    requires forall k :: k in x ==> k in desired
    ensures Leftover(x, desired) == []
    decreases |x|
  {
    if |x| > 0 {
      assert x[|x| - 1] in x;
      LeftoverNone(x[..|x| - 1], desired);
    }
  }

  lemma {:induction false} LeftoverTwice(x: seq<string>, desired: seq<string>)
    ensures Leftover(Leftover(x, desired), desired) == Leftover(x, desired)
    decreases |x|
  {
    if |x| > 0 {
      var front := x[..|x| - 1];
      LeftoverTwice(front, desired);
      var k := x[|x| - 1];
      if k !in desired {
        var l := Leftover(front, desired) + [k];
        assert l[..|l| - 1] == Leftover(front, desired);
      }
    }
  }

  /** A reordering is again a dict: no key twice, the same key set. */
  lemma ReorderValid<V>(d: Dict<V>, r: Dict<V>, desired: seq<string>)
    requires Valid(d) && Distinct(desired) && IsReordering(r, d, desired)
    ensures Valid(r)
  {
    PresentDistinct(desired, d);
    LeftoverDistinct(d.keys, desired);
    var p, l := Present(desired, d), Leftover(d.keys, desired);
    assert forall i, j :: 0 <= i < |p| && 0 <= j < |l| ==> p[i] != l[j] by {
      forall i, j | 0 <= i < |p| && 0 <= j < |l|
        ensures p[i] != l[j]
      {
        assert p[i] in p && l[j] in l;
      }
    }
    assert forall i :: 0 <= i < |p + l| ==> (p + l)[i] == if i < |p| then p[i] else l[i - |p|];
  }

  lemma {:induction false} PresentDistinct<V>(desired: seq<string>, d: Dict<V>)
    requires Distinct(desired)
    ensures Distinct(Present(desired, d))
    decreases |desired|
  {
    if |desired| > 0 {
      var front := desired[..|desired| - 1];
      PresentDistinct(front, d);
      var k := desired[|desired| - 1];
      assert k !in front;
    }
  }

  lemma {:induction false} LeftoverDistinct(keys: seq<string>, desired: seq<string>)
    requires Distinct(keys)
    ensures Distinct(Leftover(keys, desired))
    decreases |keys|
  {
    if |keys| > 0 {
      var front := keys[..|keys| - 1];
      LeftoverDistinct(front, desired);
      var k := keys[|keys| - 1];
      assert k !in front;
    }
  }
}
