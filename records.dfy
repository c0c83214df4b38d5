/**
 * Plain JavaScript objects (`Record<string, ...>`) as sequences of entries in property-creation
 * order. Assigning a key that exists changes its value in place; a new key goes to the end.
 * `{ ...base, ...fragment }` is the left-to-right assignment of the fragment's entries.
 * `Object.keys` lists array-index keys first, in ascending numeric order, then the other keys
 * in creation order.
 */
module Records {
  import opened Wrappers
  import opened Text

  datatype Entry<V> = Entry(key: string, value: V)

  function Keys<V>(es: seq<Entry<V>>): seq<string>
  {
    seq(|es|, i requires 0 <= i < |es| => es[i].key)
  }

  predicate DistinctKeys<V>(es: seq<Entry<V>>)
  {
    forall i, j :: 0 <= i < j < |es| ==> es[i].key != es[j].key
  }

  /** `obj[k]`, read from the first entry with that key. */
  function Find<V>(es: seq<Entry<V>>, k: string): Option<V>
  {
    if es == [] then None else if es[0].key == k then Some(es[0].value) else Find(es[1..], k)
  }

  /** The value the last entry with key `k` carries (the one that wins in an object literal). */
  function FindLast<V>(es: seq<Entry<V>>, k: string): Option<V>
  {
    if es == [] then None
    else
      var later := FindLast(es[1..], k);
      if later.Some? then later else if es[0].key == k then Some(es[0].value) else None
  }

  /** `obj[k] = v`. */
  function Put<V>(es: seq<Entry<V>>, k: string, v: V): seq<Entry<V>>
  {
    if es == [] then [Entry(k, v)]
    else if es[0].key == k then [Entry(k, v)] + es[1..]
    else [es[0]] + Put(es[1..], k, v)
  }

  /** `{ ...base, ...fragment }`. */
  function Spread<V>(base: seq<Entry<V>>, fragment: seq<Entry<V>>): seq<Entry<V>>
    decreases |fragment|
  {
    if fragment == [] then base
    else Spread(Put(base, fragment[0].key, fragment[0].value), fragment[1..])
  }

  /** After `obj[k] = v`, reading `k` gives `v` and every other key reads as before. */
  lemma {:induction false} PutFind<V>(es: seq<Entry<V>>, k: string, v: V, x: string)
    ensures Find(Put(es, k, v), x) == if x == k then Some(v) else Find(es, x)
  {
    if es != [] && es[0].key != k {
      PutFind(es[1..], k, v, x);
    }
  }

  /** `obj[k] = v` keeps every key where it was, and adds `k` at the end when it is new. */
  lemma {:induction false} PutKeys<V>(es: seq<Entry<V>>, k: string, v: V)
    ensures Keys(Put(es, k, v)) == if k in Keys(es) then Keys(es) else Keys(es) + [k]
  {
    if es != [] {
      if es[0].key != k {
        PutKeys(es[1..], k, v);
        assert Keys(es) == [es[0].key] + Keys(es[1..]);
        assert Keys(Put(es, k, v)) == [es[0].key] + Keys(Put(es[1..], k, v));
      } else {
        assert Keys(Put(es, k, v)) == [k] + Keys(es[1..]);
        assert Keys(es) == [k] + Keys(es[1..]);
      }
    }
  }

  /** Assigning a key the object does not have yet appends it. */
  lemma {:induction false} PutNew<V>(es: seq<Entry<V>>, k: string, v: V)
    requires k !in Keys(es)
    ensures Put(es, k, v) == es + [Entry(k, v)]
  {
    if es != [] {
      assert Keys(es) == [es[0].key] + Keys(es[1..]);
      PutNew(es[1..], k, v);
    }
  }

  /** Reading a key gives the value of its first entry. */
  lemma {:induction false} FindAt<V>(es: seq<Entry<V>>, i: nat)
    requires i < |es|
    requires forall j :: 0 <= j < i ==> es[j].key != es[i].key
    ensures Find(es, es[i].key) == Some(es[i].value)
  {
    if i > 0 {
      FindAt(es[1..], i - 1);
    }
  }

  lemma PutDistinct<V>(es: seq<Entry<V>>, k: string, v: V)
    requires DistinctKeys(es)
    ensures DistinctKeys(Put(es, k, v))
  {
    PutKeys(es, k, v);
    var r := Put(es, k, v);
    assert forall i :: 0 <= i < |r| ==> r[i].key == Keys(r)[i];
    assert forall i :: 0 <= i < |es| ==> es[i].key == Keys(es)[i];
  }

  /** In `{ ...base, ...fragment }` the fragment wins every clash: a key the fragment has reads as
      the fragment's last value for it, any other key reads as in `base`. */
  lemma {:induction false} SpreadFind<V>(base: seq<Entry<V>>, fragment: seq<Entry<V>>, x: string)
    ensures Find(Spread(base, fragment), x)
         == if FindLast(fragment, x).Some? then FindLast(fragment, x) else Find(base, x)
    decreases |fragment|
  {
    if fragment != [] {
      var b := Put(base, fragment[0].key, fragment[0].value);
      SpreadFind(b, fragment[1..], x);
      PutFind(base, fragment[0].key, fragment[0].value, x);
    }
  }

  /** Spreading a fragment whose keys are distinct and all new appends it. */
  lemma {:induction false} SpreadFresh<V>(base: seq<Entry<V>>, fragment: seq<Entry<V>>)
    requires DistinctKeys(fragment)
    requires forall i :: 0 <= i < |fragment| ==> fragment[i].key !in Keys(base)
    ensures Spread(base, fragment) == base + fragment
    decreases |fragment|
  {
    if fragment != [] {
      PutNew(base, fragment[0].key, fragment[0].value);
      var b1 := base + [fragment[0]];
      assert Keys(b1) == Keys(base) + [fragment[0].key];
      forall i | 0 <= i < |fragment[1..]| ensures fragment[1..][i].key !in Keys(b1) {
        assert fragment[1..][i] == fragment[i + 1];
      }
      SpreadFresh(b1, fragment[1..]);
      assert b1 + fragment[1..] == base + fragment;
    }
  }

  /** Spreading keeps all of `base`'s keys in their places and adds exactly the fragment's new
      keys after them. */
  lemma {:induction false} SpreadKeys<V>(base: seq<Entry<V>>, fragment: seq<Entry<V>>)
    ensures StartsWithKeys(Keys(Spread(base, fragment)), Keys(base))
    ensures forall x :: x in Keys(Spread(base, fragment)) <==> x in Keys(base) || x in Keys(fragment)
    decreases |fragment|
  {
    if fragment != [] {
      var b := Put(base, fragment[0].key, fragment[0].value);
      SpreadKeys(b, fragment[1..]);
      PutKeys(base, fragment[0].key, fragment[0].value);
      assert Keys(fragment) == [fragment[0].key] + Keys(fragment[1..]);
    }
  }

  predicate StartsWithKeys(ks: seq<string>, prefix: seq<string>)
  {
    |prefix| <= |ks| && ks[..|prefix|] == prefix
  }

  /** With distinct keys the last value for a key is its only value. */
  lemma {:induction false} FindLastDistinct<V>(es: seq<Entry<V>>, x: string)
    requires DistinctKeys(es)
    ensures FindLast(es, x) == Find(es, x)
  {
    if es != [] {
      FindLastDistinct(es[1..], x);
      if es[0].key == x {
        FindAbsent(es[1..], x);
      }
    }
  }

  lemma {:induction false} FindAbsent<V>(es: seq<Entry<V>>, x: string)
    requires forall i :: 0 <= i < |es| ==> es[i].key != x
    ensures Find(es, x) == None && FindLast(es, x) == None
  {
    if es != [] {
      FindAbsent(es[1..], x);
    }
  }

  lemma {:induction false} FindPresent<V>(es: seq<Entry<V>>, x: string)
    ensures Find(es, x).Some? <==> x in Keys(es)
  {
    if es != [] {
      FindPresent(es[1..], x);
      assert Keys(es) == [es[0].key] + Keys(es[1..]);
    }
  }

  // ---------------------------------------------------------------------------------------------
  // Object.keys order

  /** An array index: the canonical decimal form of an integer below 2^32 - 1. */
  predicate IsArrayIndex(k: string)
  {
    |k| > 0 && AllDigits(k) && (k[0] == '0' ==> |k| == 1) && DigitsValue(k) < 0xFFFF_FFFF
  }

  function IndexValue(k: string): nat
  {
    if AllDigits(k) then DigitsValue(k) else 0
  }

  function IndexEntries<V>(es: seq<Entry<V>>): seq<Entry<V>>
  {
    if es == [] then []
    else IndexEntries(es[..|es| - 1]) + (if IsArrayIndex(es[|es| - 1].key) then [es[|es| - 1]] else [])
  }

  function NamedEntries<V>(es: seq<Entry<V>>): seq<Entry<V>>
  {
    if es == [] then []
    else NamedEntries(es[..|es| - 1]) + (if IsArrayIndex(es[|es| - 1].key) then [] else [es[|es| - 1]])
  }

  function InsertByIndex<V>(e: Entry<V>, sorted: seq<Entry<V>>): seq<Entry<V>>
  {
    if sorted == [] || IndexValue(e.key) < IndexValue(sorted[0].key) then [e] + sorted
    else [sorted[0]] + InsertByIndex(e, sorted[1..])
  }

  function SortByIndex<V>(es: seq<Entry<V>>): seq<Entry<V>>
  {
    if es == [] then [] else InsertByIndex(es[0], SortByIndex(es[1..]))
  }

  /** The entries in `Object.keys` order. */
  function OwnPropertyOrder<V>(es: seq<Entry<V>>): seq<Entry<V>>
  {
    SortByIndex(IndexEntries(es)) + NamedEntries(es)
  }

  /** Without array-index keys, `Object.keys` is creation order. */
  lemma {:induction false} OwnPropertyOrderNamed<V>(es: seq<Entry<V>>)
    requires forall i :: 0 <= i < |es| ==> !IsArrayIndex(es[i].key)
    ensures OwnPropertyOrder(es) == es
  {
    NoIndexEntries(es);
  }

  lemma {:induction false} NoIndexEntries<V>(es: seq<Entry<V>>)
    requires forall i :: 0 <= i < |es| ==> !IsArrayIndex(es[i].key)
    ensures IndexEntries(es) == [] && NamedEntries(es) == es
  {
    if es != [] {
      NoIndexEntries(es[..|es| - 1]);
      assert es == es[..|es| - 1] + [es[|es| - 1]];
    }
  }
}
