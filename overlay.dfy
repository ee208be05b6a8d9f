/**
  The meaning of a DictTuple's state: a sequence of layers (dicts), index 0 the
  oldest, where a key held by a later layer shadows the same key in earlier ones.
  Everything here is a value-level function of the layer sequence; the class in
  dict_tuple.dfy is proved against these definitions.
 */
module Overlay {
  import opened Outcomes

  /** One underlying dict. Keys are integers, so they are totally ordered. */
  type Layer<V> = map<int, V>

  function Init<T>(s: seq<T>): seq<T>
    requires s != []
  {
    s[..|s| - 1]
  }

  function Last<T>(s: seq<T>): T
    requires s != []
  {
    s[|s| - 1]
  }

  // ---------------------------------------------------------------------------
  // Visible keys and the merged view

  /** The union of every layer's keys, as accumulated by __len__ and __eq__. */
  function Keys<V>(ls: seq<Layer<V>>): set<int>
  {
    if ls == [] then {} else Keys(Init(ls)) + Last(ls).Keys
  }

  /** A key is visible exactly when some layer holds it. */
  lemma {:induction false} KeysOwned<V>(ls: seq<Layer<V>>, k: int)
    ensures k in Keys(ls) <==> exists i :: 0 <= i < |ls| && k in ls[i]
  {
    if ls != [] {
      KeysOwned(Init(ls), k);
      if k in Keys(Init(ls)) {
        var i :| 0 <= i < |Init(ls)| && k in Init(ls)[i];
        assert ls[i] == Init(ls)[i];
      } else if k !in Last(ls) {
        forall i | 0 <= i < |ls| ensures k !in ls[i] {
          if i < |ls| - 1 {
            assert ls[i] == Init(ls)[i];
          }
        }
      }
    }
  }

  /**
    The single dict a DictTuple stands for: the layers merged oldest first, so
    that a later layer's entry replaces an earlier one's. This is the reference
    definition the shadowed lookup is checked against.
   */
  function View<V>(ls: seq<Layer<V>>): map<int, V>
  {
    if ls == [] then map[] else View(Init(ls)) + Last(ls)
  }

  // ---------------------------------------------------------------------------
  // Shadowed lookup

  /** The index of the latest layer holding k, found by scanning from the end. */
  function LatestOwner<V>(ls: seq<Layer<V>>, k: int): (r: Option<nat>)
    ensures r.Some? ==> r.value < |ls| && k in ls[r.value]
    ensures r.Some? ==> forall j :: r.value < j < |ls| ==> k !in ls[j]
    ensures r.None? ==> forall j :: 0 <= j < |ls| ==> k !in ls[j]
  {
    if ls == [] then None
    else if k in Last(ls) then Some(|ls| - 1)
    else
      var r := LatestOwner(Init(ls), k);
      assert forall j :: 0 <= j < |ls| - 1 ==> ls[j] == Init(ls)[j];
      r
  }

  /** What `self[key]` returns: the value in the latest layer holding k, if any. */
  function Lookup<V>(ls: seq<Layer<V>>, k: int): Option<V>
  {
    match LatestOwner(ls, k)
    case Some(i) => Some(ls[i][k])
    case None => None
  }

  /** The latest layer holding k is the unique one with no later holder. */
  lemma LatestOwnerIs<V>(ls: seq<Layer<V>>, k: int, i: nat)
    requires i < |ls| && k in ls[i]
    requires forall j :: i < j < |ls| ==> k !in ls[j]
    ensures LatestOwner(ls, k) == Some(i)
    ensures Lookup(ls, k) == Some(ls[i][k])
  {
  }

  /** The backward scan agrees with the merged view, key by key. */
  lemma {:induction false} LookupMatchesView<V>(ls: seq<Layer<V>>, k: int)
    ensures k in View(ls) <==> k in Keys(ls)
    ensures Lookup(ls, k) == if k in View(ls) then Some(View(ls)[k]) else None
  {
    if ls != [] {
      LookupMatchesView(Init(ls), k);
      if k !in Last(ls) {
        match LatestOwner(Init(ls), k)
        case Some(i) =>
          assert ls[i] == Init(ls)[i];
        case None =>
      }
    }
  }

  /** The merged view holds exactly the visible keys. */
  lemma ViewKeys<V>(ls: seq<Layer<V>>)
    ensures View(ls).Keys == Keys(ls)
  {
    forall k ensures k in View(ls) <==> k in Keys(ls) {
      LookupMatchesView(ls, k);
    }
  }

  // ---------------------------------------------------------------------------
  // Get-all: the whole shadow chain of a key

  /** What `self(key)` returns: the value from every layer holding k, oldest first. */
  function GetAll<V>(ls: seq<Layer<V>>, k: int): seq<V>
  {
    if ls == [] then []
    else GetAll(Init(ls), k) + (if k in Last(ls) then [Last(ls)[k]] else [])
  }

  /**
    The chain is empty exactly when the key is absent (which is when `self[key]`
    raises KeyError), and otherwise its last element is what `self[key]` returns.
   */
  lemma {:induction false} GetAllEndsWithLookup<V>(ls: seq<Layer<V>>, k: int)
    ensures GetAll(ls, k) == [] <==> k !in Keys(ls)
    ensures GetAll(ls, k) != [] ==> Lookup(ls, k) == Some(Last(GetAll(ls, k)))
  {
    if ls != [] {
      GetAllEndsWithLookup(Init(ls), k);
      if k !in Last(ls) {
        match LatestOwner(Init(ls), k)
        case Some(i) =>
          assert ls[i] == Init(ls)[i];
        case None =>
      }
    }
  }

  // ---------------------------------------------------------------------------
  // Set: write into the latest owning layer, or append a one-entry layer

  /** The layers after `self[key] = value`. */
  function Assign<V>(ls: seq<Layer<V>>, k: int, v: V): seq<Layer<V>>
  {
    match LatestOwner(ls, k)
    case Some(i) => ls[i := ls[i][k := v]]
    case None => ls + [map[k := v]]
  }

  /** Splitting off the last layer commutes with a set that does not touch it. */
  lemma AssignInit<V>(ls: seq<Layer<V>>, k: int, v: V)
    requires ls != [] && k !in Last(ls) && LatestOwner(Init(ls), k).Some?
    ensures Assign(ls, k, v) == Assign(Init(ls), k, v) + [Last(ls)]
  {
  }

  /** Updating the right operand of a union updates the union. */
  lemma UpdateRight<V>(a: map<int, V>, b: map<int, V>, k: int, v: V)
    ensures a + b[k := v] == (a + b)[k := v]
  {
  }

  /** Updating the left operand of a union updates the union, if the right one lacks the key. */
  lemma UpdateLeft<V>(a: map<int, V>, b: map<int, V>, k: int, v: V)
    requires k !in b
    ensures a[k := v] + b == (a + b)[k := v]
  {
  }

  /** Seen through the merged view, a set is a plain dict update. */
  lemma {:induction false} AssignView<V>(ls: seq<Layer<V>>, k: int, v: V)
    ensures View(Assign(ls, k, v)) == View(ls)[k := v]
  {
    var a := Assign(ls, k, v);
    if ls == [] {
      assert a == [map[k := v]] && Init(a) == [];
    } else if k in Last(ls) {
      assert Init(a) == Init(ls) && Last(a) == Last(ls)[k := v];
      UpdateRight(View(Init(ls)), Last(ls), k, v);
    } else if LatestOwner(Init(ls), k).Some? {
      AssignInit(ls, k, v);
      assert Init(a) == Assign(Init(ls), k, v) && Last(a) == Last(ls);
      AssignView(Init(ls), k, v);
      UpdateLeft(View(Init(ls)), Last(ls), k, v);
    } else {
      assert Init(a) == ls && Last(a) == map[k := v];
    }
  }

  /** A set leaves every other key's shadow chain as it was. */
  lemma {:induction false} AssignOtherChain<V>(ls: seq<Layer<V>>, k: int, v: V, j: int)
    requires j != k
    ensures GetAll(Assign(ls, k, v), j) == GetAll(ls, j)
  {
    if ls == [] {
    } else if k in Last(ls) {
      var a := Assign(ls, k, v);
      assert Init(a) == Init(ls) && Last(a) == Last(ls)[k := v];
    } else if LatestOwner(Init(ls), k).Some? {
      AssignInit(ls, k, v);
      var a := Assign(ls, k, v);
      assert Init(a) == Assign(Init(ls), k, v) && Last(a) == Last(ls);
      AssignOtherChain(Init(ls), k, v, j);
    } else {
      var a := Assign(ls, k, v);
      assert Init(a) == ls;
    }
  }

  /**
    In the key's own chain a set replaces only the newest value (the one in the
    latest owning layer); for an absent key the chain becomes just the new value.
   */
  lemma {:induction false} AssignChain<V>(ls: seq<Layer<V>>, k: int, v: V)
    ensures var c := GetAll(ls, k);
      GetAll(Assign(ls, k, v), k) == if c == [] then [v] else c[|c| - 1 := v]
  {
    if ls == [] {
    } else if k in Last(ls) {
      var a := Assign(ls, k, v);
      assert Init(a) == Init(ls) && Last(a) == Last(ls)[k := v];
    } else if LatestOwner(Init(ls), k).Some? {
      AssignInit(ls, k, v);
      var a := Assign(ls, k, v);
      assert Init(a) == Assign(Init(ls), k, v) && Last(a) == Last(ls);
      AssignChain(Init(ls), k, v);
      GetAllEndsWithLookup(Init(ls), k);
      KeysOwned(Init(ls), k);
    } else {
      var a := Assign(ls, k, v);
      assert Init(a) == ls;
      GetAllEndsWithLookup(ls, k);
      KeysOwned(ls, k);
    }
  }

  // ---------------------------------------------------------------------------
  // Delete: strip the key from every layer, keeping the layers

  /** The layers after `del self[key]`; a layer that becomes empty stays. */
  function Remove<V>(ls: seq<Layer<V>>, k: int): seq<Layer<V>>
  {
    seq(|ls|, i requires 0 <= i < |ls| => ls[i] - {k})
  }

  /** Seen through the merged view, a delete removes the one key. */
  lemma {:induction false} RemoveView<V>(ls: seq<Layer<V>>, k: int)
    ensures View(Remove(ls, k)) == View(ls) - {k}
  {
    if ls != [] {
      var r := Remove(ls, k);
      assert Init(r) == Remove(Init(ls), k);
      RemoveView(Init(ls), k);
    }
  }

  /** After a delete the key's chain is empty and every other chain is unchanged. */
  lemma {:induction false} RemoveChain<V>(ls: seq<Layer<V>>, k: int, j: int)
    ensures GetAll(Remove(ls, k), j) == if j == k then [] else GetAll(ls, j)
  {
    if ls != [] {
      var r := Remove(ls, k);
      assert Init(r) == Remove(Init(ls), k);
      RemoveChain(Init(ls), k, j);
    }
  }

  /** Deleting a key no layer holds changes nothing. */
  lemma RemoveAbsent<V>(ls: seq<Layer<V>>, k: int)
    requires k !in Keys(ls)
    ensures Remove(ls, k) == ls
  {
    KeysOwned(ls, k);
    forall i | 0 <= i < |ls| ensures Remove(ls, k)[i] == ls[i] {
      assert k !in ls[i];
    }
  }

  // ---------------------------------------------------------------------------
  // Equality

  /**
    `self == other` for a plain dict: every visible key is in the dict and
    resolves to the dict's value; extra keys in the dict are allowed.
   */
  ghost predicate EqualsDict<V>(ls: seq<Layer<V>>, m: map<int, V>)
  {
    && Keys(ls) <= m.Keys
    && forall k :: k in Keys(ls) ==> Lookup(ls, k) == Some(m[k])
  }

  /**
    `self == other` for another DictTuple: every key visible on either side
    resolves on both sides, to equal values (a KeyError reads as unequal).
   */
  ghost predicate EqualsLayers<V>(ls: seq<Layer<V>>, ms: seq<Layer<V>>)
  {
    forall k :: k in Keys(ls) + Keys(ms) ==>
      Lookup(ls, k).Some? && Lookup(ms, k).Some? && Lookup(ls, k).value == Lookup(ms, k).value
  }

  /** Equality with a dict holds exactly when the merged view is a sub-dict of it. */
  lemma EqualsDictIsSubmap<V>(ls: seq<Layer<V>>, m: map<int, V>)
    ensures EqualsDict(ls, m) <==>
      View(ls).Keys <= m.Keys && forall k :: k in View(ls) ==> View(ls)[k] == m[k]
  {
    ViewKeys(ls);
    forall k | k in Keys(ls) {
      LookupMatchesView(ls, k);
    }
  }

  /**
    Equality between DictTuples holds exactly when their merged views are equal:
    the visible key sets must coincide, however the layers are arranged.
   */
  lemma EqualsLayersIsSameView<V>(ls: seq<Layer<V>>, ms: seq<Layer<V>>)
    ensures EqualsLayers(ls, ms) <==> View(ls) == View(ms)
  {
    ViewKeys(ls);
    ViewKeys(ms);
    if EqualsLayers(ls, ms) {
      forall k | k in Keys(ls) + Keys(ms)
        ensures k in View(ls) && k in View(ms) && View(ls)[k] == View(ms)[k]
      {
        LookupMatchesView(ls, k);
        LookupMatchesView(ms, k);
      }
      assert View(ls).Keys == View(ms).Keys;
    }
    if View(ls) == View(ms) {
      forall k | k in Keys(ls) + Keys(ms)
        ensures Lookup(ls, k).Some? && Lookup(ms, k).Some? && Lookup(ls, k).value == Lookup(ms, k).value
      {
        LookupMatchesView(ls, k);
        LookupMatchesView(ms, k);
      }
    }
  }

  // ---------------------------------------------------------------------------
  // Sorted key listing

  predicate StrictlyAscending(s: seq<int>)
  {
    forall i, j :: 0 <= i < j < |s| ==> s[i] < s[j]
  }

  /** m is the least key of s: what `sorted` puts first. */
  predicate IsLeast(m: int, s: set<int>)
  {
    m in s && forall x :: x in s ==> m <= x
  }

  /** Every non-empty finite set of keys (here: one holding y) has a least element. */
  lemma {:induction false} LeastExists(s: set<int>, y: int)
    requires y in s
    ensures exists m :: IsLeast(m, s)
    decreases |s|
  {
    var rest := s - {y};
    if z :| z in rest {
      LeastExists(rest, z);
      var m :| IsLeast(m, rest);
      var least := if y < m then y else m;
      forall x | x in s ensures least <= x {
        assert x in rest || x == y;
      }
      assert IsLeast(least, s);
    } else {
      forall x | x in s ensures y <= x {
        assert x in rest || x == y;
      }
      assert IsLeast(y, s);
    }
  }

  /** A strictly ascending listing has no repeats, so it is as long as its key set. */
  lemma {:induction false} AscendingCount(s: seq<int>)
    requires StrictlyAscending(s)
    ensures |set x | x in s| == |s|
  {
    if s != [] {
      var t := s[1..];
      AscendingCount(t);
      assert (set x | x in s) == {s[0]} + (set x | x in t);
      assert s[0] !in (set x | x in t);
    }
  }
}
