/**
 * The order-and-duplicate-preserving map behind Object (genjson.go): a list of keys in
 * insertion order plus a map from each key to its entries, each entry pointing back at its
 * list element. The `container/list` elements are modelled as values with a unique id.
 */
module OrderedMap {
  import opened Wrappers
  import opened GenJson

  // ---------------------------------------------------------------- abstract view

  /** The values stored under k, in insertion order. */
  function ValuesOf<K(==), V>(c: seq<(K, V)>, k: K): seq<V>
  {
    if c == [] then []
    else ValuesOf(c[..|c| - 1], k) + if c[|c| - 1].0 == k then [c[|c| - 1].1] else []
  }

  /** The entries whose key is not k, in their original order. */
  function Without<K(==), V>(c: seq<(K, V)>, k: K): seq<(K, V)>
  {
    if c == [] then []
    else Without(c[..|c| - 1], k) + if c[|c| - 1].0 == k then [] else [c[|c| - 1]]
  }

  /** The earliest value stored under k, if any. */
  function FirstValue<K(==), V>(c: seq<(K, V)>, k: K): Option<V>
  {
    var vs := ValuesOf(c, k);
    if vs == [] then None else Some(vs[0])
  }

  /** Adding appends to k's values and leaves every other key's values alone. */
  lemma AddAppends<K, V>(c: seq<(K, V)>, k: K, v: V, k': K)
    ensures ValuesOf(c + [(k, v)], k') == ValuesOf(c, k') + if k' == k then [v] else []
  {
    assert (c + [(k, v)])[..|c|] == c;
  }

  /** Removing k leaves no value under k and every other key's values, in order, untouched. */
  lemma {:induction false} WithoutValues<K, V>(c: seq<(K, V)>, k: K, k': K)
    ensures ValuesOf(Without(c, k), k') == if k' == k then [] else ValuesOf(c, k')
  {
    if c != [] {
      var c', x := c[..|c| - 1], c[|c| - 1];
      WithoutValues(c', k, k');
      var w' := Without(c', k);
      assert ValuesOf(c, k') == ValuesOf(c', k') + if x.0 == k' then [x.1] else [];
      if x.0 != k {
        assert Without(c, k) == w' + [x];
        assert (w' + [x])[..|w'|] == w';
        assert ValuesOf(w' + [x], k') == ValuesOf(w', k') + if x.0 == k' then [x.1] else [];
      } else {
        assert Without(c, k) == w';
      }
    }
  }

  /** After `set`, k holds exactly v and its entry is the last one in iteration order. */
  lemma SetReplaces<K, V>(c: seq<(K, V)>, k: K, v: V)
    ensures ValuesOf(Without(c, k) + [(k, v)], k) == [v]
    ensures FirstValue(Without(c, k) + [(k, v)], k) == Some(v)
  {
    AddAppends(Without(c, k), k, v, k);
    WithoutValues(c, k, k);
  }

  /** FirstValue picks the value of the earliest entry with key k, and finds nothing iff k is absent. */
  lemma {:induction false} FirstValueIsEarliest<K, V>(c: seq<(K, V)>, k: K)
    ensures FirstValue(c, k).None? <==> forall i :: 0 <= i < |c| ==> c[i].0 != k
    ensures FirstValue(c, k).Some? ==>
      exists i :: 0 <= i < |c| && c[i] == (k, FirstValue(c, k).value) && forall j :: 0 <= j < i ==> c[j].0 != k
  {
    if c != [] {
      var c', x := c[..|c| - 1], c[|c| - 1];
      FirstValueIsEarliest(c', k);
      if FirstValue(c', k).Some? {
        var i :| 0 <= i < |c'| && c'[i] == (k, FirstValue(c', k).value) && forall j :: 0 <= j < i ==> c'[j].0 != k;
        assert c[i] == c'[i];
      } else if x.0 == k {
        assert c[|c| - 1] == (k, FirstValue(c, k).value);
      }
    }
  }

  // ---------------------------------------------------------------- representation

  /** A `*list.Element` of the keys list: its identity and the key it holds. */
  datatype Element<K> = Element(id: nat, key: K)

  /** orderedDuplicateMapEntry: the list element of the entry and its value. */
  datatype MapEntry<V> = MapEntry(elem: nat, value: V)

  /** A live entry, as the proof sees it. */
  datatype Entry<K, V> = Entry(id: nat, key: K, value: V)

  function ElementsOf<K, V>(live: seq<Entry<K, V>>): (l: seq<Element<K>>)
    ensures |l| == |live|
    ensures forall i :: 0 <= i < |live| ==> l[i] == Element(live[i].id, live[i].key)
  {
    seq(|live|, i requires 0 <= i < |live| => Element(live[i].id, live[i].key))
  }

  function View<K, V>(live: seq<Entry<K, V>>): (c: seq<(K, V)>)
    ensures |c| == |live|
    ensures forall i :: 0 <= i < |live| ==> c[i] == (live[i].key, live[i].value)
  {
    seq(|live|, i requires 0 <= i < |live| => (live[i].key, live[i].value))
  }

  /** What m[k] holds: the entries of key k, in list order. */
  ghost function Slots<K, V>(live: seq<Entry<K, V>>, k: K): seq<MapEntry<V>>
  {
    if live == [] then []
    else
      var e := live[|live| - 1];
      Slots(live[..|live| - 1], k) + if e.key == k then [MapEntry(e.id, e.value)] else []
  }

  ghost function WithoutKey<K, V>(live: seq<Entry<K, V>>, k: K): seq<Entry<K, V>>
  {
    if live == [] then []
    else
      var e := live[|live| - 1];
      WithoutKey(live[..|live| - 1], k) + if e.key == k then [] else [e]
  }

  ghost predicate IdsIncreasing<K, V>(live: seq<Entry<K, V>>)
  {
    forall i, j :: 0 <= i < j < |live| ==> live[i].id < live[j].id
  }

  ghost predicate ElemsIncreasing<V>(es: seq<MapEntry<V>>)
  {
    forall a, b :: 0 <= a < b < |es| ==> es[a].elem < es[b].elem
  }

  /** The values of a key's entries (the copy loop of getAll). */
  function SlotValues<V>(es: seq<MapEntry<V>>): (vs: seq<V>)
    ensures |vs| == |es| && forall j :: 0 <= j < |es| ==> vs[j] == es[j].value
  {
    seq(|es|, j requires 0 <= j < |es| => es[j].value)
  }

  /** list.Remove: unlink the element with the given identity. */
  function RemoveElement<K>(l: seq<Element<K>>, id: nat): seq<Element<K>>
  {
    if l == [] then []
    else RemoveElement(l[..|l| - 1], id) + if l[|l| - 1].id == id then [] else [l[|l| - 1]]
  }

  ghost function DropIds<K>(l: seq<Element<K>>, s: set<nat>): seq<Element<K>>
  {
    if l == [] then []
    else DropIds(l[..|l| - 1], s) + if l[|l| - 1].id in s then [] else [l[|l| - 1]]
  }

  ghost function IdSet<V>(es: seq<MapEntry<V>>): set<nat>
  {
    set j | 0 <= j < |es| :: es[j].elem
  }

  /** The number of live entries whose key is in s. */
  ghost function CountKeys<K, V>(live: seq<Entry<K, V>>, s: set<K>): nat
  {
    if live == [] then 0
    else CountKeys(live[..|live| - 1], s) + if live[|live| - 1].key in s then 1 else 0
  }

  // ---------------------------------------------------------------- representation lemmas

  lemma SlotsAppend<K, V>(live: seq<Entry<K, V>>, e: Entry<K, V>, k: K)
    ensures Slots(live + [e], k) == Slots(live, k) + if e.key == k then [MapEntry(e.id, e.value)] else []
  {
    assert (live + [e])[..|live|] == live;
  }

  lemma {:induction false} SlotsValues<K, V>(live: seq<Entry<K, V>>, k: K)
    ensures SlotValues(Slots(live, k)) == ValuesOf(View(live), k)
  {
    if live != [] {
      var l' := live[..|live| - 1];
      SlotsValues(l', k);
      assert View(live)[..|live| - 1] == View(l');
    }
  }

  lemma {:induction false} SlotsBelow<K, V>(live: seq<Entry<K, V>>, k: K, bound: nat)
    requires forall i :: 0 <= i < |live| ==> live[i].id < bound
    ensures forall j :: 0 <= j < |Slots(live, k)| ==> Slots(live, k)[j].elem < bound
  {
    if live != [] {
      SlotsBelow(live[..|live| - 1], k, bound);
    }
  }

  lemma {:induction false} SlotsIncreasing<K, V>(live: seq<Entry<K, V>>, k: K)
    requires IdsIncreasing(live)
    ensures ElemsIncreasing(Slots(live, k))
  {
    if live != [] {
      var l', e := live[..|live| - 1], live[|live| - 1];
      SlotsIncreasing(l', k);
      SlotsBelow(l', k, e.id);
    }
  }

  /** Every live entry has its slot in the list of its key. */
  lemma {:induction false} SlotsContain<K, V>(live: seq<Entry<K, V>>, i: nat)
    requires i < |live|
    ensures MapEntry(live[i].id, live[i].value) in Slots(live, live[i].key)
  {
    var l', e := live[..|live| - 1], live[|live| - 1];
    if i < |l'| {
      SlotsContain(l', i);
      assert l'[i] == live[i];
    }
  }

  /** Every slot of key k comes from a live entry with key k. */
  lemma {:induction false} SlotsFromLive<K, V>(live: seq<Entry<K, V>>, k: K, j: nat)
    requires j < |Slots(live, k)|
    ensures exists i :: 0 <= i < |live| && live[i].key == k && Slots(live, k)[j] == MapEntry(live[i].id, live[i].value)
  {
    var l', e := live[..|live| - 1], live[|live| - 1];
    if j < |Slots(l', k)| {
      SlotsFromLive(l', k, j);
      var i :| 0 <= i < |l'| && l'[i].key == k && Slots(l', k)[j] == MapEntry(l'[i].id, l'[i].value);
      assert live[i] == l'[i];
    } else {
      assert Slots(live, k)[j] == MapEntry(e.id, e.value);
    }
  }

  lemma {:induction false} SlotsWithoutKey<K, V>(live: seq<Entry<K, V>>, k: K, k': K)
    ensures Slots(WithoutKey(live, k), k') == if k' == k then [] else Slots(live, k')
  {
    if live != [] {
      var l', e := live[..|live| - 1], live[|live| - 1];
      SlotsWithoutKey(l', k, k');
      assert Slots(live, k') == Slots(l', k') + if e.key == k' then [MapEntry(e.id, e.value)] else [];
      if e.key != k {
        assert WithoutKey(live, k) == WithoutKey(l', k) + [e];
        SlotsAppend(WithoutKey(l', k), e, k');
      } else {
        assert WithoutKey(live, k) == WithoutKey(l', k);
      }
    }
  }

  lemma {:induction false} ViewWithoutKey<K, V>(live: seq<Entry<K, V>>, k: K)
    ensures View(WithoutKey(live, k)) == Without(View(live), k)
  {
    if live != [] {
      var l', e := live[..|live| - 1], live[|live| - 1];
      ViewWithoutKey(l', k);
      assert View(live)[..|live| - 1] == View(l');
      if e.key != k {
        assert View(WithoutKey(l', k) + [e]) == View(WithoutKey(l', k)) + [(e.key, e.value)];
      }
    }
  }

  /** WithoutKey works entry by entry, so it splits at any point. */
  lemma {:induction false} WithoutKeySplit<K, V>(live: seq<Entry<K, V>>, p: nat, k: K)
    requires p <= |live|
    ensures WithoutKey(live, k) == WithoutKey(live[..p], k) + WithoutKey(live[p..], k)
  {
    if p < |live| {
      var n := |live| - 1;
      WithoutKeySplit(live[..n], p, k);
      assert live[..n][..p] == live[..p];
      assert live[p..][..|live[p..]| - 1] == live[..n][p..];
    } else {
      assert live[..p] == live && live[p..] == [];
    }
  }

  /**
   * After removing key k, the entries from a surviving entry p onward start at position
   * |WithoutKey(live[..p], k)|, and they are those from p onward less k's entries.
   */
  lemma {:induction false} SuffixWithoutKey<K, V>(live: seq<Entry<K, V>>, p: nat, k: K)
    requires p < |live| && live[p].key != k
    ensures |WithoutKey(live[..p], k)| < |WithoutKey(live, k)|
    ensures WithoutKey(live, k)[|WithoutKey(live[..p], k)|] == live[p]
    ensures View(WithoutKey(live, k))[|WithoutKey(live[..p], k)|..] == Without(View(live)[p..], k)
  {
    var t := live[p..];
    WithoutKeySplit(live, p, k);
    WithoutKeySplit(t, 1, k);
    assert t[..1] == [live[p]];
    assert WithoutKey([live[p]], k) == [live[p]] by {
      assert [live[p]][..0] == [];
    }
    ViewWithoutKey(t, k);
    ViewSuffix(live, p);
  }

  lemma {:induction false} ViewSuffix<K, V>(live: seq<Entry<K, V>>, p: nat)
    requires p <= |live|
    ensures View(live)[p..] == View(live[p..])
  {
  }

  lemma {:induction false} WithoutKeySubset<K, V>(live: seq<Entry<K, V>>, k: K)
    ensures forall x :: x in WithoutKey(live, k) ==> x in live
  {
    if live != [] {
      WithoutKeySubset(live[..|live| - 1], k);
    }
  }

  lemma {:induction false} WithoutKeyKeeps<K, V>(live: seq<Entry<K, V>>, k: K)
    ensures forall x :: x in live && x.key != k ==> x in WithoutKey(live, k)
  {
    if live != [] {
      WithoutKeyKeeps(live[..|live| - 1], k);
      forall x | x in live && x.key != k ensures x in WithoutKey(live, k) {
        if x != live[|live| - 1] {
          assert x in live[..|live| - 1];
        }
      }
    }
  }

  /** Removing a key's entries keeps exactly the list elements of the other keys. */
  lemma ElementsWithoutKey<K, V>(live: seq<Entry<K, V>>, k: K)
    ensures forall x :: x in ElementsOf(live) && x.key != k ==> x in ElementsOf(WithoutKey(live, k))
    ensures forall x :: x in ElementsOf(WithoutKey(live, k)) ==> x in ElementsOf(live)
  {
    var w := WithoutKey(live, k);
    WithoutKeyKeeps(live, k);
    WithoutKeySubset(live, k);
    forall x | x in ElementsOf(live) && x.key != k ensures x in ElementsOf(w) {
      var i :| 0 <= i < |live| && ElementsOf(live)[i] == x;
      assert live[i] in w;
      var j :| 0 <= j < |w| && w[j] == live[i];
      assert ElementsOf(w)[j] == x;
    }
    forall x | x in ElementsOf(w) ensures x in ElementsOf(live) {
      var j :| 0 <= j < |w| && ElementsOf(w)[j] == x;
      assert w[j] in live;
      var i :| 0 <= i < |live| && live[i] == w[j];
      assert ElementsOf(live)[i] == x;
    }
  }

  lemma {:induction false} WithoutKeyIncreasing<K, V>(live: seq<Entry<K, V>>, k: K)
    requires IdsIncreasing(live)
    ensures IdsIncreasing(WithoutKey(live, k))
  {
    if live != [] {
      var l', e := live[..|live| - 1], live[|live| - 1];
      WithoutKeyIncreasing(l', k);
      WithoutKeySubset(l', k);
      var w := WithoutKey(l', k);
      if e.key != k {
        forall i | 0 <= i < |w| ensures w[i].id < e.id {
          assert w[i] in l';
        }
      }
    }
  }

  lemma {:induction false} DropStep<K>(l: seq<Element<K>>, s: set<nat>, x: nat)
    ensures RemoveElement(DropIds(l, s), x) == DropIds(l, s + {x})
  {
    if l != [] {
      var l', y := l[..|l| - 1], l[|l| - 1];
      DropStep(l', s, x);
      var d := DropIds(l', s);
      if y.id !in s {
        assert DropIds(l, s) == d + [y];
        assert (d + [y])[..|d|] == d;
        assert RemoveElement(d + [y], x) == RemoveElement(d, x) + if y.id == x then [] else [y];
      } else {
        assert DropIds(l, s) == d;
      }
      assert DropIds(l, s + {x}) == DropIds(l', s + {x}) + if y.id in s + {x} then [] else [y];
    }
  }

  lemma {:induction false} DropIgnoresAbsent<K>(l: seq<Element<K>>, s: set<nat>, x: nat)
    requires forall i :: 0 <= i < |l| ==> l[i].id != x
    ensures DropIds(l, s + {x}) == DropIds(l, s)
  {
    if l != [] {
      DropIgnoresAbsent(l[..|l| - 1], s, x);
    }
  }

  lemma {:induction false} DropDependsOnlyOnIds<K>(l: seq<Element<K>>, s: set<nat>, t: set<nat>)
    requires forall i :: 0 <= i < |l| ==> (l[i].id in s <==> l[i].id in t)
    ensures DropIds(l, s) == DropIds(l, t)
  {
    if l != [] {
      DropDependsOnlyOnIds(l[..|l| - 1], s, t);
    }
  }

  /** Unlinking the elements of k's slots leaves exactly the elements of the other keys. */
  lemma {:induction false} DropSlots<K, V>(live: seq<Entry<K, V>>, k: K)
    requires IdsIncreasing(live)
    ensures DropIds(ElementsOf(live), IdSet(Slots(live, k))) == ElementsOf(WithoutKey(live, k))
  {
    if live != [] {
      var l', e := live[..|live| - 1], live[|live| - 1];
      DropSlots(l', k);
      SlotsBelow(l', k, e.id);
      var s' := IdSet(Slots(l', k));
      var s := IdSet(Slots(live, k));
      assert ElementsOf(live)[..|live| - 1] == ElementsOf(l');
      if e.key == k {
        IdSetAppend(Slots(l', k), MapEntry(e.id, e.value));
        DropIgnoresAbsent(ElementsOf(l'), s', e.id);
      } else {
        assert Slots(live, k) == Slots(l', k) + [];
        assert Slots(l', k) + [] == Slots(l', k);
        assert ElementsOf(WithoutKey(l', k) + [e]) == ElementsOf(WithoutKey(l', k)) + [Element(e.id, e.key)];
      }
    }
  }

  lemma IdSetAppend<V>(es: seq<MapEntry<V>>, x: MapEntry<V>)
    ensures IdSet(es + [x]) == IdSet(es) + {x.elem}
  {
    forall y | y in IdSet(es + [x]) ensures y in IdSet(es) + {x.elem} {
      var j :| 0 <= j < |es| + 1 && (es + [x])[j].elem == y;
      if j < |es| {
        assert es[j].elem == y;
      }
    }
    forall y | y in IdSet(es) ensures y in IdSet(es + [x]) {
      var j :| 0 <= j < |es| && es[j].elem == y;
      assert (es + [x])[j].elem == y;
    }
    assert (es + [x])[|es|].elem == x.elem;
  }

  lemma {:induction false} CountKeysStep<K, V>(live: seq<Entry<K, V>>, s: set<K>, k: K)
    requires k in s
    ensures CountKeys(live, s) == CountKeys(live, s - {k}) + |Slots(live, k)|
  {
    if live != [] {
      CountKeysStep(live[..|live| - 1], s, k);
    }
  }

  lemma {:induction false} CountKeysAll<K, V>(live: seq<Entry<K, V>>, s: set<K>)
    requires forall i :: 0 <= i < |live| ==> live[i].key in s
    ensures CountKeys(live, s) == |live|
  {
    if live != [] {
      CountKeysAll(live[..|live| - 1], s);
    }
  }

  // ---------------------------------------------------------------- the map

  /**
   * The list holds the live entries' elements in order, identities grow along it and stay
   * below the next one, and m[k] holds exactly the slots of k's live entries (never empty).
   */
  ghost predicate Consistent<K(!new), V>(keys: seq<Element<K>>, m: map<K, seq<MapEntry<V>>>, nextId: nat, live: seq<Entry<K, V>>)
  {
    && keys == ElementsOf(live)
    && IdsIncreasing(live)
    && (forall i :: 0 <= i < |live| ==> live[i].id < nextId)
    && (forall k :: k in m ==> m[k] == Slots(live, k) && m[k] != [])
    && (forall k :: k !in m ==> Slots(live, k) == [])
  }

  lemma RemoveKeepsConsistent<K(!new), V>(keys: seq<Element<K>>, m: map<K, seq<MapEntry<V>>>, nextId: nat, live: seq<Entry<K, V>>, k: K)
    requires Consistent(keys, m, nextId, live)
    ensures Consistent(DropIds(keys, IdSet(if k in m then m[k] else [])), m - {k}, nextId, WithoutKey(live, k))
    ensures View(WithoutKey(live, k)) == Without(View(live), k)
  {
    RemoveKeyKeepsShape(live, k, nextId);
  }


  class OrderedDuplicateMap<K(==, !new), V> {
    /** The linked list of keys, in insertion order. */
    var keys: seq<Element<K>>
    /** The entries of each key. */
    var m: map<K, seq<MapEntry<V>>>
    /** The identity the next list element will get. */
    var nextId: nat
    ghost var Live: seq<Entry<K, V>>

    /**
     * Valid: each list element has exactly one entry in m[its key] pointing at it and every entry
     * points at a list element of its key (both follow from m[k] being the slots of k's
     * live entries, whose identities are distinct); no key maps to an empty slice.
     */
    ghost predicate Valid()
      reads this
    {
      Consistent(keys, m, nextId, Live)
    }

    /** The (key, value) entries in iteration order. */
    ghost function Contents(): seq<(K, V)>
      reads this
    {
      View(Live)
    }

    /** The allocation done by Object.init: an empty list and an empty map. */
    constructor ()
      ensures Valid() && Contents() == []
    {
      keys, m, nextId := [], map[], 0;
      Live := [];
    }

    /** The list element of every live entry has exactly one slot pointing at it. */
    lemma ElementHasOneSlot(i: nat)
      requires Valid() && i < |keys|
      ensures keys[i].key in m
      ensures exists j :: 0 <= j < |m[keys[i].key]| && m[keys[i].key][j] == MapEntry(keys[i].id, Live[i].value)
      ensures forall a, b :: 0 <= a < b < |m[keys[i].key]| ==> m[keys[i].key][a].elem != m[keys[i].key][b].elem
    {
      var k := keys[i].key;
      SlotsContain(Live, i);
      SlotsIncreasing(Live, k);
    }

    /** Every slot points at a list element of its own key. */
    lemma SlotHasElement(k: K, j: nat)
      requires Valid() && k in m && j < |m[k]|
      ensures exists i :: 0 <= i < |keys| && keys[i] == Element(m[k][j].elem, k)
    {
      SlotsFromLive(Live, k, j);
    }

    /** add: append one entry at the end of the list and at the end of m[k]. */
    method Add(k: K, v: V)
      requires Valid()
      modifies this
      ensures Valid()
      ensures Contents() == old(Contents()) + [(k, v)]
      ensures old(keys) <= keys
      ensures Live == old(Live) + [Entry(old(nextId), k, v)]
    {
      var el := Element(nextId, k);
      keys := keys + [el];
      nextId := nextId + 1;
      var slots := if k in m then m[k] else [];
      m := m[k := slots + [MapEntry(el.id, v)]];
      ghost var e := Entry(el.id, k, v);
      forall k' ensures Slots(Live + [e], k') == Slots(Live, k') + if e.key == k' then [MapEntry(e.id, e.value)] else [] {
        SlotsAppend(Live, e, k');
      }
      Live := Live + [e];
      assert View(Live) == View(old(Live)) + [(k, v)];
    }

    /** remove: unlink every element of k from the list, then delete k from the map. */
    method Remove(k: K)
      requires Valid()
      modifies this
      ensures Valid()
      ensures Contents() == Without(old(Contents()), k)
      ensures forall i :: 0 <= i < |keys| ==> keys[i].key != k
      ensures forall x :: x in old(keys) && x.key != k ==> x in keys
      ensures forall x :: x in keys ==> x in old(keys)
      ensures Live == WithoutKey(old(Live), k)
    {
      var es := if k in m then m[k] else [];
      RemoveKeepsConsistent(keys, m, nextId, Live, k);
      ElementsWithoutKey(Live, k);
      keys := UnlinkAll(keys, es);
      m := m - {k};
      Live := WithoutKey(Live, k);
      forall i | 0 <= i < |keys| ensures keys[i].key != k {
        ElementHasOneSlot(i);
      }
    }

    /** set: remove, then add. */
    method Set(k: K, v: V)
      requires Valid()
      modifies this
      ensures Valid()
      ensures Contents() == Without(old(Contents()), k) + [(k, v)]
      ensures forall x :: x in old(keys) && x.key != k ==> x in keys
    {
      Remove(k);
      Add(k, v);
    }

    /** get: the earliest surviving value of k. */
    method Get(k: K) returns (r: Option<V>)
      requires Valid()
      ensures r == FirstValue(Contents(), k)
    {
      var es := if k in m then m[k] else [];
      SlotsValues(Live, k);
      if |es| == 0 {
        return None;
      }
      assert SlotValues(es)[0] == es[0].value;
      return Some(es[0].value);
    }

    /** getAll: every value of k in insertion order, or nothing when k has none. */
    method GetAll(k: K) returns (r: Option<seq<V>>)
      requires Valid()
      ensures r == if ValuesOf(Contents(), k) == [] then None else Some(ValuesOf(Contents(), k))
    {
      var es := if k in m then m[k] else [];
      SlotsValues(Live, k);
      if |es| == 0 {
        return None;
      }
      var values: seq<V> := [];
      var i := 0;
      while i < |es|
        invariant 0 <= i <= |es|
        invariant values == SlotValues(es[..i])
      {
        values := values + [es[i].value];
        i := i + 1;
      }
      assert es[..|es|] == es;
      return Some(values);
    }

    /** len: the number of entries, summed over the keys of m. */
    method Len() returns (n: nat)
      requires Valid()
      ensures n == |Contents()|
    {
      n := 0;
      var ks := m.Keys;
      forall i | 0 <= i < |Live| ensures Live[i].key in m {
        SlotsContain(Live, i);
      }
      CountKeysAll(Live, ks);
      while ks != {}
        invariant ks <= m.Keys
        invariant n + CountKeys(Live, ks) == |Live|
        decreases ks
      {
        var k :| k in ks;
        CountKeysStep(Live, ks, k);
        n := n + |m[k]|;
        ks := ks - {k};
      }
      assert CountKeys(Live, {}) == 0 by { CountKeysNone(Live); }
    }

    /** iter: an iterator positioned at the front of the list, reading this map from then on. */
    method Iter() returns (it: OrderedDuplicateMapIterator<K, V>)
      requires Valid()
      ensures fresh(it) && it.src == this && it.Linked() && it.Remaining() == Contents()
    {
      it := new OrderedDuplicateMapIterator(if keys == [] then None else Some(keys[0]), this);
      if keys != [] {
        PositionOf(0);
      }
    }

    /** The identities along the list grow, so an element's position is determined by it. */
    lemma PositionOf(q: nat)
      requires Valid() && q < |keys|
      ensures IndexOf(keys, keys[q]) == q
    {
      var i := IndexOf(keys, keys[q]);
      assert keys[i].id == Live[i].id && keys[q].id == Live[q].id;
    }

    /**
     * next finds an entry of m[key] pointing at a list element exactly when that element is still
     * linked into the list; otherwise Go panics.
     */
    lemma SlotIffLinked(x: Element<K>)
      requires Valid()
      ensures (x.key in m && exists j :: 0 <= j < |m[x.key]| && m[x.key][j].elem == x.id) <==> x in keys
    {
      if x.key in m && exists j :: 0 <= j < |m[x.key]| && m[x.key][j].elem == x.id {
        var j :| 0 <= j < |m[x.key]| && m[x.key][j].elem == x.id;
        SlotHasElement(x.key, j);
      }
      if x in keys {
        var i :| 0 <= i < |keys| && keys[i] == x;
        ElementHasOneSlot(i);
      }
    }
  }

  /** The unlinking loop of remove: list.Remove for the element of each entry in turn. */
  method UnlinkAll<K, V>(keys: seq<Element<K>>, es: seq<MapEntry<V>>) returns (r: seq<Element<K>>)
    ensures r == DropIds(keys, IdSet(es))
  {
    r := keys;
    var i := 0;
    assert IdSet(es[..0]) == {};
    DropNothing(keys);
    while i < |es|
      invariant 0 <= i <= |es|
      invariant r == DropIds(keys, IdSet(es[..i]))
    {
      DropStep(keys, IdSet(es[..i]), es[i].elem);
      assert es[..i + 1] == es[..i] + [es[i]];
      IdSetAppend(es[..i], es[i]);
      r := RemoveElement(r, es[i].elem);
      i := i + 1;
    }
    assert es[..|es|] == es;
  }

  /** Removing a key's entries keeps the representation consistent for the remaining ones. */
  lemma RemoveKeyKeepsShape<K, V>(live: seq<Entry<K, V>>, k: K, nextId: nat)
    requires IdsIncreasing(live) && forall i :: 0 <= i < |live| ==> live[i].id < nextId
    ensures DropIds(ElementsOf(live), IdSet(Slots(live, k))) == ElementsOf(WithoutKey(live, k))
    ensures IdsIncreasing(WithoutKey(live, k))
    ensures forall i :: 0 <= i < |WithoutKey(live, k)| ==> WithoutKey(live, k)[i].id < nextId
    ensures forall k' :: Slots(WithoutKey(live, k), k') == if k' == k then [] else Slots(live, k')
    ensures View(WithoutKey(live, k)) == Without(View(live), k)
  {
    DropSlots(live, k);
    forall k' ensures Slots(WithoutKey(live, k), k') == if k' == k then [] else Slots(live, k') {
      SlotsWithoutKey(live, k, k');
    }
    WithoutKeyIncreasing(live, k);
    WithoutKeySubset(live, k);
    ViewWithoutKey(live, k);
    var w := WithoutKey(live, k);
    forall i | 0 <= i < |w| ensures w[i].id < nextId {
      assert w[i] in live;
    }
  }

  lemma {:induction false} DropNothing<K>(l: seq<Element<K>>)
    ensures DropIds(l, {}) == l
  {
    if l != [] {
      DropNothing(l[..|l| - 1]);
    }
  }

  lemma {:induction false} CountKeysNone<K, V>(live: seq<Entry<K, V>>)
    ensures CountKeys(live, {}) == 0
  {
    if live != [] {
      CountKeysNone(live[..|live| - 1]);
    }
  }

  // ---------------------------------------------------------------- the iterator

  /** The position of an element in the list (the first one, should it occur twice). */
  function IndexOf<K(==)>(l: seq<Element<K>>, x: Element<K>): (i: nat)
    requires x in l
    ensures i < |l| && l[i] == x
    ensures forall j :: 0 <= j < i ==> l[j] != x
  {
    if l[0] == x then 0 else 1 + IndexOf(l[1..], x)
  }

  /** list.Element.Next: the element after x, or none when x is the back of the list. */
  function After<K(==)>(l: seq<Element<K>>, x: Element<K>): Option<Element<K>>
    requires x in l
  {
    var i := IndexOf(l, x);
    if i + 1 < |l| then Some(l[i + 1]) else None
  }

  /**
   * orderedDuplicateMapIterator: the pending list element and the map it was made from. Like
   * Go's, it shares that map's list and entries rather than copying them, so additions and
   * removals made after iter are seen by later calls of next.
   */
  class OrderedDuplicateMapIterator<K(==, !new), V> {
    /** The list element next will yield (None: the iterator is done). */
    var e: Option<Element<K>>
    /** The map whose list and entries are read; null only for the iterator of a nil map. */
    var src: OrderedDuplicateMap?<K, V>

    /**
     * The iterator is done, or its pending element is still linked into the list of a consistent
     * map. Go's next panics ("illegal map state") when the element has been unlinked, which
     * happens exactly when its key was removed: see OrderedDuplicateMap.SlotIffLinked.
     */
    ghost predicate Linked()
      reads this, src
    {
      e.Some? ==> src != null && src.Valid() && e.value in src.keys
    }

    /** What the iterator yields from now on: the live entries from the pending element to the back. */
    ghost function Remaining(): seq<(K, V)>
      reads this, src
      requires Linked()
    {
      if e.None? then [] else src.Contents()[IndexOf(src.keys, e.value)..]
    }

    /** The pending element's key is the key of the next entry to be yielded. */
    lemma PendingKey()
      requires Linked() && e.Some?
      ensures Remaining() != [] && Remaining()[0].0 == e.value.key
    {
      var q := IndexOf(src.keys, e.value);
      assert src.keys[q].key == src.Live[q].key;
    }

    constructor (e: Option<Element<K>>, src: OrderedDuplicateMap?<K, V>)
      ensures this.e == e && this.src == src
    {
      this.e, this.src := e, src;
    }

    /**
     * next: the entry at the pending element, found by searching the live m[key] for the entry
     * that points at it; then the pending element moves to the one after it in the live list.
     * The requires excludes the "illegal map state" panic.
     */
    method Next() returns (r: Option<(K, V)>)
      requires Linked()
      modifies this
      ensures src == old(src) && Linked()
      ensures old(Remaining()) == [] ==> r == None && Remaining() == []
      ensures old(Remaining()) != [] ==> r == Some(old(Remaining())[0]) && Remaining() == old(Remaining())[1..]
    {
      if e.None? {
        return None;
      }
      var el := e.value;
      var key := el.key;
      var es := if key in src.m then src.m[key] else [];
      ghost var p := IndexOf(src.keys, el);
      src.ElementHasOneSlot(p);
      var i := 0;
      while i < |es|
        invariant 0 <= i <= |es|
        invariant forall j :: 0 <= j < i ==> es[j].elem != el.id
      {
        if es[i].elem == el.id {
          assert es[i] == MapEntry(el.id, src.Live[p].value) by {
            var j :| 0 <= j < |es| && es[j] == MapEntry(el.id, src.Live[p].value);
            assert i == j;
          }
          r := Some((key, es[i].value));
          if p + 1 < |src.keys| {
            src.PositionOf(p + 1);
          }
          e := After(src.keys, el);
          return;
        }
        i := i + 1;
      }
      assert false;
    }
  }

  // ---------------------------------------------------------------- changes during iteration

  /**
   * add on the map an iterator reads: an iterator that is not done stays linked and will also
   * yield the new entry, last; a done iterator stays done.
   */
  method AddWhileIterating<K(==, !new), V>(o: OrderedDuplicateMap<K, V>, it: OrderedDuplicateMapIterator<K, V>, k: K, v: V)
    requires o.Valid() && it.src == o && it.Linked()
    modifies o
    ensures o.Valid() && it.Linked()
    ensures o.Contents() == old(o.Contents()) + [(k, v)]
    ensures it.Remaining() == if it.e.None? then [] else old(it.Remaining()) + [(k, v)]
  {
    if it.e.None? {
      o.Add(k, v);
      return;
    }
    ghost var p := IndexOf(o.keys, it.e.value);
    ghost var c := o.Contents();
    o.Add(k, v);
    assert o.keys[p] == it.e.value;
    o.PositionOf(p);
    assert o.Contents()[p..] == c[p..] + [(k, v)];
  }

  /**
   * remove on the map an iterator reads, of a key other than the pending element's (for that
   * one Go's next would panic, see RemovingPendingUnlinks): the iterator stays linked and will
   * yield what it would have, less the removed key's entries.
   */
  method RemoveWhileIterating<K(==, !new), V>(o: OrderedDuplicateMap<K, V>, it: OrderedDuplicateMapIterator<K, V>, k: K)
    requires o.Valid() && it.src == o && it.Linked()
    requires it.e.Some? ==> it.e.value.key != k
    modifies o
    ensures o.Valid() && it.Linked()
    ensures o.Contents() == Without(old(o.Contents()), k)
    ensures it.Remaining() == Without(old(it.Remaining()), k)
  {
    if it.e.None? {
      o.Remove(k);
      return;
    }
    ghost var live := o.Live;
    ghost var p := IndexOf(o.keys, it.e.value);
    assert live[p].key == it.e.value.key;
    o.Remove(k);
    SuffixWithoutKey(live, p, k);
    ghost var q := |WithoutKey(live[..p], k)|;
    assert o.keys[q] == it.e.value;
    o.PositionOf(q);
  }

  /** set on the map an iterator reads, of a key other than the pending element's: remove, then add. */
  method SetWhileIterating<K(==, !new), V>(o: OrderedDuplicateMap<K, V>, it: OrderedDuplicateMapIterator<K, V>, k: K, v: V)
    requires o.Valid() && it.src == o && it.Linked()
    requires it.e.Some? ==> it.e.value.key != k
    modifies o
    ensures o.Valid() && it.Linked()
    ensures o.Contents() == Without(old(o.Contents()), k) + [(k, v)]
    ensures it.Remaining() == if it.e.None? then [] else Without(old(it.Remaining()), k) + [(k, v)]
  {
    RemoveWhileIterating(o, it, k);
    AddWhileIterating(o, it, k, v);
  }

  /** An entry added after iter is yielded, as long as the iterator has not run past the back. */
  method IterSeesLaterAdd() returns (first: Option<(int, int)>, second: Option<(int, int)>)
    ensures first == Some((1, 10)) && second == Some((2, 20))
  {
    var o := new OrderedDuplicateMap<int, int>();
    o.Add(1, 10);
    var it := o.Iter();
    AddWhileIterating(o, it, 2, 20);
    first := it.Next();
    second := it.Next();
  }

  /** A fresh map after Add(1, 10), Add(2, 20), Add(3, 30). */
  method AddedOneTwoThree() returns (o: OrderedDuplicateMap<int, int>)
    ensures fresh(o) && o.Valid() && o.Contents() == [(1, 10), (2, 20), (3, 30)]
  {
    o := new OrderedDuplicateMap<int, int>();
    o.Add(1, 10);
    o.Add(2, 20);
    o.Add(3, 30);
  }

  /** Iterate that map and call next once: (1, 10) comes out and key 2 is pending. */
  method IterPastFirst() returns (o: OrderedDuplicateMap<int, int>, it: OrderedDuplicateMapIterator<int, int>, first: Option<(int, int)>)
    ensures fresh(o) && fresh(it) && o.Valid() && it.src == o && it.Linked()
    ensures first == Some((1, 10)) && it.Remaining() == [(2, 20), (3, 30)]
    ensures it.e.Some? && it.e.value.key == 2
  {
    o := AddedOneTwoThree();
    it := o.Iter();
    first := it.Next();
    it.PendingKey();
  }

  /** Removing another key leaves the pending element linked, and iteration carries on. */
  method RemovingOtherKeyKeepsGoing() returns (first: Option<(int, int)>, second: Option<(int, int)>)
    ensures first == Some((1, 10)) && second == Some((2, 20))
  {
    var o, it;
    o, it, first := IterPastFirst();
    RemoveWhileIterating(o, it, 3);
    assert it.Remaining() == [(2, 20)] by {
      assert [(2, 20), (3, 30)][..1] == [(2, 20)];
      assert [(2, 20)][..0] == [];
    }
    second := it.Next();
  }

  /** Removing the key of the pending element unlinks it, after which Go's next panics. */
  method RemovingPendingUnlinks() returns (it: OrderedDuplicateMapIterator<int, int>, first: Option<(int, int)>)
    ensures first == Some((1, 10)) && !it.Linked()
  {
    var o := new OrderedDuplicateMap<int, int>();
    o.Add(1, 10);
    o.Add(2, 20);
    it := o.Iter();
    first := it.Next();
    it.PendingKey();
    o.Remove(2);
  }

  // ---------------------------------------------------------------- Object

  /** Object: a lazily allocated ordered duplicate map of string keys to values. */
  class Object {
    var m: OrderedDuplicateMap?<string, Value>

    ghost predicate Valid()
      reads this, m
    {
      m != null ==> m.Valid()
    }

    ghost function Contents(): seq<(string, Value)>
      reads this, m
    {
      if m == null then [] else m.Contents()
    }

    /** The zero Object: no map yet. */
    constructor ()
      ensures Valid() && m == null && Contents() == []
    {
      m := null;
    }

    /** init: allocate the map on first use, otherwise keep it. */
    method Init()
      requires Valid()
      modifies this
      ensures Valid() && m != null
      ensures old(m) == null ==> fresh(m)
      ensures old(m) != null ==> m == old(m)
      ensures Contents() == old(Contents())
    {
      if m == null {
        m := new OrderedDuplicateMap();
      }
    }

    /** Get: the earliest value of key. The map must exist: Go dereferences it unconditionally. */
    method Get(key: string) returns (r: Option<Value>)
      requires Valid() && m != null
      ensures r == FirstValue(Contents(), key)
    {
      r := m.Get(key);
    }

    /** GetAll: all values of key in insertion order. The map must exist. */
    method GetAll(key: string) returns (r: Option<seq<Value>>)
      requires Valid() && m != null
      ensures r == if ValuesOf(Contents(), key) == [] then None else Some(ValuesOf(Contents(), key))
    {
      r := m.GetAll(key);
    }

    /** Set: replace every value of key by value, which becomes the last entry. */
    method Set(key: string, value: Value)
      requires Valid()
      modifies this, m
      ensures Valid() && m != null
      ensures old(m) == null ==> fresh(m)
      ensures old(m) != null ==> m == old(m)
      ensures Contents() == Without(old(Contents()), key) + [(key, value)]
      ensures old(m) != null ==> forall x :: x in old(m.keys) && x.key != key ==> x in m.keys
    {
      Init();
      m.Set(key, value);
    }

    /** Len: the number of entries; 0 for an Object that was never written. */
    method Len() returns (n: nat)
      requires Valid()
      ensures n == |Contents()|
    {
      if m == null {
        return 0;
      }
      n := m.Len();
    }

    /** Add: append an entry, keeping earlier entries of the same key. */
    method Add(key: string, value: Value)
      requires Valid()
      modifies this, m
      ensures Valid() && m != null
      ensures old(m) == null ==> fresh(m)
      ensures old(m) != null ==> m == old(m)
      ensures Contents() == old(Contents()) + [(key, value)]
      ensures old(m) != null ==> old(m.keys) <= m.keys
    {
      Init();
      m.Add(key, value);
    }

    /** Delete: remove every entry of key. The map must exist. */
    method Delete(key: string)
      requires Valid() && m != null
      modifies m
      ensures Valid()
      ensures Contents() == Without(old(Contents()), key)
      ensures forall x :: x in old(m.keys) && x.key != key ==> x in m.keys
      ensures forall x :: x in m.keys ==> x in old(m.keys)
    {
      m.Remove(key);
    }

    /** Iter: an iterator over the entries in insertion order; done at once for an Object never written. */
    method Iter() returns (it: OrderedDuplicateMapIterator<string, Value>)
      requires Valid()
      ensures fresh(it) && it.src == m && it.Linked() && it.Remaining() == Contents()
    {
      if m == null {
        it := new OrderedDuplicateMapIterator(None, null);
      } else {
        it := m.Iter();
      }
    }
  }
}
