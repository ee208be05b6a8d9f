/**
  The DictTuple class: an ordered list of dicts `dt` read as one mapping in which
  later dicts shadow earlier ones. Reads are proved against the value-level
  definitions of module Overlay; the mutating methods change `dt` in place and
  state the new layers as a function of the old ones.
 */
module DictTuples {
  import opened Outcomes
  import opened Overlay
  import opened Construction

  /** The right-hand (or, for `__radd__`, left-hand) operand of `+` and `==`. */
  datatype Operand<V(==)> =
    | DictOperand(m: Layer<V>)
    | TupleOperand(t: DictTuple<V>)
    | OtherOperand

  class DictTuple<V(==)> {
    /** The layers, oldest first. The only attribute an instance may have. */
    var dt: seq<Layer<V>>

    /** Construction leaves at least one layer, and neither set nor delete removes one. */
    ghost predicate Valid()
      reads this
    {
      |dt| > 0
    }

    /** The assignment `self.dt = layers` that closes a successful `__init__`. */
    constructor FromLayers(layers: seq<Layer<V>>)
      requires layers != []
      ensures dt == layers
      ensures Valid()
    {
      dt := layers;
    }

    /**
      `DictTuple(*args)`: filter out the falsy arguments, fail if none are
      left, then fail at the first remaining one that is not a dict.
     */
    static method New(args: seq<Arg<V>>) returns (r: Result<DictTuple<V>>)
      ensures r.Ok? <==> Construct(args).Ok?
      ensures r.Ok? ==> fresh(r.value) && r.value.Valid() && r.value.dt == Construct(args).value
      ensures r.Err? ==> r.error == Construct(args).error
    {
      if |args| == 0 {
        return Err(NoDictionaries);
      }
      var kept: seq<Arg<V>> := [];
      for i := 0 to |args|
        invariant kept == Kept(args[..i])
      {
        assert Init(args[..i + 1]) == args[..i];
        if IsTruthy(args[i]) {
          kept := kept + [args[i]];
        }
      }
      assert args[..|args|] == args;
      if kept == [] {
        return Err(NoNonEmptyDictionaries);
      }
      var layers: seq<Layer<V>> := [];
      for i := 0 to |kept|
        invariant AllDicts(kept[..i])
        invariant layers == Unwrap(kept[..i])
      {
        if !kept[i].DictArg? {
          return Err(NotADictionary);
        }
        assert Init(kept[..i + 1]) == kept[..i];
        layers := layers + [kept[i].m];
      }
      assert kept[..|kept|] == kept;
      var t := new DictTuple.FromLayers(layers);
      return Ok(t);
    }

    /** The loop `all_keys.update(d.keys())` over every layer, shared by `__len__` and `__eq__`. */
    method KeyUnion() returns (all: set<int>)
      ensures all == Keys(dt)
      ensures all == View(dt).Keys
    {
      all := {};
      for i := 0 to |dt|
        invariant all == Keys(dt[..i])
      {
        assert Init(dt[..i + 1]) == dt[..i];
        all := all + dt[i].Keys;
      }
      assert dt[..|dt|] == dt;
      ViewKeys(dt);
    }

    /** `len(self)`: the number of distinct keys, not the sum of the layer sizes. */
    method Len() returns (n: nat)
      ensures n == |Keys(dt)|
      ensures n == |View(dt)|
    {
      var all := KeyUnion();
      n := |all|;
    }

    /**
      `bool(self)`: more than one layer, whatever keys the layers hold. A
      single layer is falsy even when it holds keys, and then it alone is the
      merged mapping.
     */
    function Bool(): (b: bool)
      reads this
      ensures b <==> |dt| > 1
      ensures b ==> Valid()
      ensures Valid() && !b ==> dt == [dt[0]] && View(dt) == dt[0]
    {
      if |dt| == 1 then
        SingleLayer(dt[0]);
        assert dt == [dt[0]];
        false
      else |dt| > 1
    }

    /** `key in self`: some layer holds the key. */
    function Contains(key: int): (b: bool)
      reads this
      ensures b <==> key in Keys(dt)
      ensures b <==> key in View(dt)
    {
      KeysOwned(dt, key);
      LookupMatchesView(dt, key);
      exists i | 0 <= i < |dt| :: key in dt[i]
    }

    /** `self[key]`: scan from the latest layer back; KeyError when no layer holds it. */
    method GetItem(key: int) returns (r: Result<V>)
      ensures r.Ok? <==> key in View(dt)
      ensures r.Ok? ==> r.value == View(dt)[key] && Lookup(dt, key) == Some(r.value)
      ensures r.Err? ==> r.error == KeyNotFound(key)
    {
      LookupMatchesView(dt, key);
      var i := |dt|;
      while i > 0
        invariant 0 <= i <= |dt|
        invariant forall j :: i <= j < |dt| ==> key !in dt[j]
      {
        i := i - 1;
        if key in dt[i] {
          LatestOwnerIs(dt, key, i);
          return Ok(dt[i][key]);
        }
      }
      return Err(KeyNotFound(key));
    }

    /** `self(key)`: the values of every layer holding the key, oldest first. */
    function Call(key: int): (r: seq<V>)
      reads this
      ensures r == [] <==> !Contains(key)
      ensures r != [] ==> Lookup(dt, key) == Some(r[|r| - 1])
    {
      GetAllEndsWithLookup(dt, key);
      GetAll(dt, key)
    }

    /**
      `self[key] = value`: overwrite the key in the latest layer that holds it,
      or else append the one-entry layer `{key: value}`.
     */
    method SetItem(key: int, value: V)
      requires Valid()
      modifies this
      ensures Valid()
      ensures dt == Assign(old(dt), key, value)
      ensures key in Keys(old(dt)) ==> |dt| == |old(dt)|
      ensures key !in Keys(old(dt)) ==> dt == old(dt) + [map[key := value]]
      ensures Bool() <==> old(Bool()) || key !in Keys(old(dt))
      ensures View(dt) == View(old(dt))[key := value]
      ensures forall k :: k != key ==> Call(k) == old(Call(k))
      ensures var c := old(Call(key)); Call(key) == if c == [] then [value] else c[|c| - 1 := value]
    {
      ghost var before := dt;
      AssignView(before, key, value);
      AssignChain(before, key, value);
      forall k | k != key ensures GetAll(Assign(before, key, value), k) == GetAll(before, k) {
        AssignOtherChain(before, key, value, k);
      }
      KeysOwned(before, key);
      var i := |dt|;
      while i > 0
        invariant 0 <= i <= |dt|
        invariant dt == before
        invariant forall j :: i <= j < |dt| ==> key !in dt[j]
      {
        i := i - 1;
        if key in dt[i] {
          LatestOwnerIs(dt, key, i);
          dt := dt[i := dt[i][key := value]];
          return;
        }
      }
      dt := dt + [map[key := value]];
    }

    /**
      `del self[key]`: strip the key from every layer that holds it, keeping
      layers that become empty; KeyError when no layer held it.
     */
    method DelItem(key: int) returns (raised: Option<Error>)
      requires Valid()
      modifies this
      ensures Valid()
      ensures dt == Remove(old(dt), key)
      ensures raised.Some? <==> key !in Keys(old(dt))
      ensures raised.Some? ==> raised.value == KeyNotFound(key) && dt == old(dt)
      ensures View(dt) == View(old(dt)) - {key}
      ensures Bool() == old(Bool())
      ensures forall k :: Call(k) == if k == key then [] else old(Call(k))
    {
      ghost var before := dt;
      RemoveView(before, key);
      forall k ensures GetAll(Remove(before, key), k) == if k == key then [] else GetAll(before, k) {
        RemoveChain(before, key, k);
      }
      KeysOwned(before, key);
      var found := false;
      for i := 0 to |dt|
        invariant |dt| == |before|
        invariant forall j :: 0 <= j < i ==> dt[j] == before[j] - {key}
        invariant forall j :: i <= j < |dt| ==> dt[j] == before[j]
        invariant found <==> exists j :: 0 <= j < i && key in before[j]
      {
        if key in dt[i] {
          dt := dt[i := dt[i] - {key}];
          found := true;
        } else {
          assert dt[i] - {key} == dt[i];
        }
      }
      assert dt == Remove(before, key);
      if !found {
        RemoveAbsent(before, key);
        return Some(KeyNotFound(key));
      }
      return None;
    }

    /**
      `iter(self)`: the distinct keys of all layers, in ascending order
      (`sorted` over the keys gathered from the layers latest first).
     */
    method Iter() returns (keys: seq<int>)
      ensures StrictlyAscending(keys)
      ensures forall k :: k in keys <==> k in Keys(dt)
      ensures |keys| == |Keys(dt)|
    {
      var seen: set<int> := {};
      var i := 0;
      while i < |dt|
        invariant 0 <= i <= |dt|
        invariant forall k :: k in seen <==> exists j :: |dt| - i <= j < |dt| && k in dt[j]
      {
        var d := dt[|dt| - 1 - i];
        var rest := d.Keys;
        while exists k :: k in rest
          invariant rest <= d.Keys
          invariant forall k :: k in seen <==>
            (k in d && k !in rest) || exists j :: |dt| - i <= j < |dt| && k in dt[j]
          decreases rest
        {
          var key :| key in rest;
          seen := seen + {key};
          rest := rest - {key};
        }
        i := i + 1;
      }
      forall k ensures k in seen <==> k in Keys(dt) {
        KeysOwned(dt, k);
      }
      keys := [];
      var rest := seen;
      while exists k :: k in rest
        invariant StrictlyAscending(keys)
        invariant forall k :: k in seen <==> k in keys || k in rest
        invariant forall j, k :: 0 <= j < |keys| && k in rest ==> keys[j] < k
        decreases rest
      {
        var y :| y in rest;
        LeastExists(rest, y);
        var m :| IsLeast(m, rest);
        keys := keys + [m];
        rest := rest - {m};
      }
      AscendingCount(keys);
      forall k ensures k in (set x | x in keys) <==> k in Keys(dt) {
      }
      assert (set x | x in keys) == Keys(dt);
    }

    /**
      `self == other`: against a dict, every visible key must be in it with the
      same resolved value; against a DictTuple, every key of either side must
      resolve on both sides to equal values; against anything else, False.
     */
    method Equals(other: Operand<V>) returns (b: bool)
      ensures other.DictOperand? ==> (b <==> EqualsDict(dt, other.m))
      ensures other.TupleOperand? ==> (b <==> EqualsLayers(dt, other.t.dt))
      ensures other.OtherOperand? ==> !b
    {
      match other
      case DictOperand(m) =>
        var all := KeyUnion();
        if !(all <= m.Keys) {
          return false;
        }
        var rest := all;
        while exists k :: k in rest
          invariant rest <= all
          invariant forall k :: k in all && k !in rest ==> Lookup(dt, k) == Some(m[k])
          decreases rest
        {
          var key :| key in rest;
          var x := GetItem(key);
          if x.Err? || x.value != m[key] {
            return false;
          }
          rest := rest - {key};
        }
        return true;
      case TupleOperand(t) =>
        var mine := KeyUnion();
        var theirs := t.KeyUnion();
        var all := mine + theirs;
        var rest := all;
        while exists k :: k in rest
          invariant rest <= all
          invariant forall k :: k in all && k !in rest ==>
            Lookup(dt, k).Some? && Lookup(t.dt, k).Some? && Lookup(dt, k).value == Lookup(t.dt, k).value
          decreases rest
        {
          var key :| key in rest;
          var x := GetItem(key);
          LookupMatchesView(dt, key);
          if x.Err? {
            return false;
          }
          var y := t.GetItem(key);
          LookupMatchesView(t.dt, key);
          if y.Err? || x.value != y.value {
            return false;
          }
          rest := rest - {key};
        }
        return true;
      case OtherOperand =>
        return false;
    }

    /**
      `self + other`: an empty dict gives back this very instance; a non-empty
      dict or another DictTuple gives a new instance built from this one's layers
      followed by the other's (the constructor drops empty layers again); any
      other operand raises TypeError.
     */
    method Add(other: Operand<V>) returns (r: Result<DictTuple<V>>)
      requires Valid()
      ensures other.DictOperand? && other.m == map[] ==> r == Ok(this)
      ensures other.DictOperand? && other.m != map[] ==>
        && r.Ok? && fresh(r.value) && r.value.Valid()
        && r.value.dt == NonEmpty(dt) + [other.m]
        && View(r.value.dt) == View(dt) + other.m
      ensures other.TupleOperand? ==>
        && (r.Ok? <==> NonEmpty(dt) + NonEmpty(other.t.dt) != [])
        && (r.Ok? ==> fresh(r.value) && r.value.Valid() && r.value.dt == NonEmpty(dt) + NonEmpty(other.t.dt))
        && (r.Ok? ==> View(r.value.dt) == View(dt) + View(other.t.dt))
        && (r.Err? ==> r.error == NoNonEmptyDictionaries)
      ensures other.OtherOperand? ==> r == Err(UnsupportedOperand)
    {
      match other
      case DictOperand(m) =>
        if m == map[] {
          return Ok(this);
        }
        ConcatLayers(dt, [m]);
        SingleLayer(m);
        r := New(DictArgs(dt + [m]));
      case TupleOperand(t) =>
        ConcatLayers(dt, t.dt);
        r := New(DictArgs(dt + t.dt));
      case OtherOperand =>
        return Err(UnsupportedOperand);
    }

    /**
      `other + self` when `other` does not handle it: an empty dict gives back
      this very instance; otherwise the other's layers come first.
     */
    method RAdd(other: Operand<V>) returns (r: Result<DictTuple<V>>)
      requires Valid()
      ensures other.DictOperand? && other.m == map[] ==> r == Ok(this)
      ensures other.DictOperand? && other.m != map[] ==>
        && r.Ok? && fresh(r.value) && r.value.Valid()
        && r.value.dt == [other.m] + NonEmpty(dt)
        && View(r.value.dt) == other.m + View(dt)
      ensures other.TupleOperand? ==>
        && (r.Ok? <==> NonEmpty(other.t.dt) + NonEmpty(dt) != [])
        && (r.Ok? ==> fresh(r.value) && r.value.Valid() && r.value.dt == NonEmpty(other.t.dt) + NonEmpty(dt))
        && (r.Ok? ==> View(r.value.dt) == View(other.t.dt) + View(dt))
        && (r.Err? ==> r.error == NoNonEmptyDictionaries)
      ensures other.OtherOperand? ==> r == Err(UnsupportedOperand)
    {
      match other
      case DictOperand(m) =>
        if m == map[] {
          return Ok(this);
        }
        ConcatLayers([m], dt);
        SingleLayer(m);
        r := New(DictArgs([m] + dt));
      case TupleOperand(t) =>
        ConcatLayers(t.dt, dt);
        r := New(DictArgs(t.dt + dt));
      case OtherOperand =>
        return Err(UnsupportedOperand);
    }
  }
}
