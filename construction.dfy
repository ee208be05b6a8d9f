/**
  What the DictTuple constructor does with its arguments: drop the falsy ones,
  fail if none are left, then fail if a remaining one is not a dict. Concatenation
  re-runs this construction on the combined layers.
 */
module Construction {
  import opened Outcomes
  import opened Overlay

  /**
    One positional constructor argument. Only dicts are inspected; any other
    object is known by its truthiness alone (for instance a DictTuple passed as
    an argument, whose truthiness is "more than one layer").
   */
  datatype Arg<V> = DictArg(m: Layer<V>) | OtherArg(truthy: bool)

  /** Python truthiness of an argument: a dict is truthy exactly when non-empty. */
  predicate IsTruthy<V>(a: Arg<V>)
  {
    match a
    case DictArg(m) => m != map[]
    case OtherArg(t) => t
  }

  /** The comprehension `[arg for arg in args if arg]`. */
  function Kept<V>(args: seq<Arg<V>>): seq<Arg<V>>
  {
    if args == [] then []
    else Kept(Init(args)) + (if IsTruthy(Last(args)) then [Last(args)] else [])
  }

  predicate AllDicts<V>(args: seq<Arg<V>>)
  {
    forall i :: 0 <= i < |args| ==> args[i].DictArg?
  }

  /** The dicts carried by arguments that are all dicts, in order. */
  function Unwrap<V>(args: seq<Arg<V>>): (ls: seq<Layer<V>>)
    requires AllDicts(args)
    ensures |ls| == |args|
    ensures forall i :: 0 <= i < |args| ==> ls[i] == args[i].m
  {
    if args == [] then []
    else
      var front := Init(args);
      assert forall i :: 0 <= i < |front| ==> front[i] == args[i];
      Unwrap(front) + [Last(args).m]
  }

  /** The layers `DictTuple(*args)` stores, or the AssertionError it raises. */
  function Construct<V>(args: seq<Arg<V>>): Result<seq<Layer<V>>>
  {
    if |args| == 0 then Err(NoDictionaries)
    else if Kept(args) == [] then Err(NoNonEmptyDictionaries)
    else if !AllDicts(Kept(args)) then Err(NotADictionary)
    else Ok(Unwrap(Kept(args)))
  }

  /** Dicts given as constructor arguments, as `DictTuple(*layers)` passes them. */
  function DictArgs<V>(ls: seq<Layer<V>>): seq<Arg<V>>
  {
    seq(|ls|, i requires 0 <= i < |ls| => DictArg(ls[i]))
  }

  /** The non-empty layers of ls, in order. */
  function NonEmpty<V>(ls: seq<Layer<V>>): seq<Layer<V>>
  {
    if ls == [] then []
    else NonEmpty(Init(ls)) + (if Last(ls) != map[] then [Last(ls)] else [])
  }

  // ---------------------------------------------------------------------------
  // The filter

  /** The filter keeps exactly the truthy arguments. */
  lemma {:induction false} KeptMembers<V>(args: seq<Arg<V>>, a: Arg<V>)
    ensures a in Kept(args) <==> a in args && IsTruthy(a)
  {
    if args != [] {
      KeptMembers(Init(args), a);
      assert args == Init(args) + [Last(args)];
    }
  }

  /** The filter preserves order: it distributes over concatenation. */
  lemma {:induction false} KeptConcat<V>(xs: seq<Arg<V>>, ys: seq<Arg<V>>)
    ensures Kept(xs + ys) == Kept(xs) + Kept(ys)
    decreases |ys|
  {
    if ys == [] {
      assert xs + ys == xs;
    } else {
      assert Init(xs + ys) == xs + Init(ys);
      assert Last(xs + ys) == Last(ys);
      KeptConcat(xs, Init(ys));
    }
  }

  // ---------------------------------------------------------------------------
  // The constructor's outcome

  /** Construction succeeds exactly when some argument is truthy and every truthy argument is a dict. */
  lemma ConstructSucceeds<V>(args: seq<Arg<V>>)
    ensures Construct(args).Ok? <==>
      && (exists a :: a in args && IsTruthy(a))
      && (forall a :: a in args && IsTruthy(a) ==> a.DictArg?)
  {
    var kept := Kept(args);
    var someTruthy := exists a :: a in args && IsTruthy(a);
    var truthyAreDicts := forall a :: a in args && IsTruthy(a) ==> a.DictArg?;
    if someTruthy {
      var a :| a in args && IsTruthy(a);
      KeptMembers(args, a);
    }
    if kept != [] {
      KeptMembers(args, kept[0]);
      assert kept[0] in args && IsTruthy(kept[0]);
    }
    assert (kept != []) == someTruthy;
    if AllDicts(kept) {
      forall a | a in args && IsTruthy(a) ensures a.DictArg? {
        KeptMembers(args, a);
        var i :| 0 <= i < |kept| && kept[i] == a;
      }
    } else {
      var i :| 0 <= i < |kept| && !kept[i].DictArg?;
      KeptMembers(args, kept[i]);
      assert kept[i] in args && IsTruthy(kept[i]);
    }
    assert AllDicts(kept) == truthyAreDicts;
    if |args| == 0 {
      assert !someTruthy;
    }
  }

  /**
    A successful construction stores the truthy arguments in their original
    order, so none of the stored layers is empty.
   */
  lemma ConstructStoresKept<V>(args: seq<Arg<V>>)
    requires Construct(args).Ok?
    ensures DictArgs(Construct(args).value) == Kept(args)
    ensures forall l :: l in Construct(args).value ==> l != map[]
  {
    var kept := Kept(args);
    var ls := Construct(args).value;
    assert |DictArgs(ls)| == |kept|;
    forall i | 0 <= i < |kept| ensures DictArgs(ls)[i] == kept[i] {
      assert kept[i].DictArg?;
    }
    forall l | l in ls ensures l != map[] {
      var i :| 0 <= i < |ls| && ls[i] == l;
      assert kept[i] in kept;
      KeptMembers(args, kept[i]);
    }
  }

  /** A truthy argument that is not a dict is always rejected. */
  lemma TruthyNonDictRejected<V>(args: seq<Arg<V>>, i: nat)
    requires i < |args| && args[i] == OtherArg(true)
    ensures Construct(args) == Err(NotADictionary)
  {
    KeptMembers(args, args[i]);
    var kept := Kept(args);
    var j :| 0 <= j < |kept| && kept[j] == args[i];
  }

  /**
    A falsy argument, dict or not, is dropped silently: taking it out changes
    nothing, provided some argument remains.
   */
  lemma FalsyArgumentIgnored<V>(args: seq<Arg<V>>, i: nat)
    requires 1 < |args| && i < |args| && !IsTruthy(args[i])
    ensures Construct(args) == Construct(args[..i] + args[i + 1..])
  {
    var front, back := args[..i], args[i + 1..];
    assert args == front + [args[i]] + back;
    KeptConcat(front + [args[i]], back);
    KeptConcat(front, [args[i]]);
    KeptConcat(front, back);
    assert Init([args[i]]) == [];
    assert Kept([args[i]]) == [];
    assert Kept(args) == Kept(front + back);
    assert |front + back| > 0;
  }

  // ---------------------------------------------------------------------------
  // Re-constructing from existing layers, as `+` does

  lemma {:induction false} KeptDictArgs<V>(ls: seq<Layer<V>>)
    ensures Kept(DictArgs(ls)) == DictArgs(NonEmpty(ls))
  {
    if ls != [] {
      assert Init(DictArgs(ls)) == DictArgs(Init(ls));
      KeptDictArgs(Init(ls));
      var ne := NonEmpty(Init(ls));
      if Last(ls) != map[] {
        assert DictArgs(ne + [Last(ls)]) == DictArgs(ne) + [DictArg(Last(ls))];
      }
    }
  }

  lemma {:induction false} NonEmptyConcat<V>(ls: seq<Layer<V>>, ms: seq<Layer<V>>)
    ensures NonEmpty(ls + ms) == NonEmpty(ls) + NonEmpty(ms)
    decreases |ms|
  {
    if ms == [] {
      assert ls + ms == ls;
    } else {
      assert Init(ls + ms) == ls + Init(ms);
      assert Last(ls + ms) == Last(ms);
      NonEmptyConcat(ls, Init(ms));
    }
  }

  /** Dropping the empty layers does not change the merged view. */
  lemma {:induction false} NonEmptyView<V>(ls: seq<Layer<V>>)
    ensures View(NonEmpty(ls)) == View(ls)
  {
    if ls != [] {
      NonEmptyView(Init(ls));
      var ne := NonEmpty(Init(ls));
      if Last(ls) != map[] {
        assert Init(ne + [Last(ls)]) == ne && Last(ne + [Last(ls)]) == Last(ls);
      } else {
        assert NonEmpty(ls) == ne;
        assert View(Init(ls)) + Last(ls) == View(Init(ls));
      }
    }
  }

  /** The merged view of concatenated layers is the right-biased union of the views. */
  lemma {:induction false} ViewConcat<V>(ls: seq<Layer<V>>, ms: seq<Layer<V>>)
    ensures View(ls + ms) == View(ls) + View(ms)
    decreases |ms|
  {
    if ms == [] {
      assert ls + ms == ls;
    } else {
      assert Init(ls + ms) == ls + Init(ms);
      assert Last(ls + ms) == Last(ms);
      ViewConcat(ls, Init(ms));
    }
  }

  /** A single layer: kept when non-empty, and it is its own merged view. */
  lemma SingleLayer<V>(m: Layer<V>)
    ensures NonEmpty([m]) == if m == map[] then [] else [m]
    ensures View([m]) == m
  {
    assert Init([m]) == [] && Last([m]) == m;
  }

  /**
    `DictTuple(*ls)` over existing layers keeps exactly the non-empty ones, and
    fails only when every layer is empty.
   */
  lemma ConstructFromLayers<V>(ls: seq<Layer<V>>)
    requires ls != []
    ensures Construct(DictArgs(ls)) ==
      if NonEmpty(ls) == [] then Err(NoNonEmptyDictionaries) else Ok(NonEmpty(ls))
  {
    KeptDictArgs(ls);
    var ne := NonEmpty(ls);
    assert DictArgs(ne) == [] <==> ne == [];
    assert AllDicts(DictArgs(ne));
    assert Unwrap(DictArgs(ne)) == ne;
  }

  /**
    Concatenating two layer lists and re-constructing keeps the non-empty layers
    of the left then of the right, fails only when all of them are empty, and
    stands for the union of the two merged views in which the right one wins.
   */
  lemma ConcatLayers<V>(ls: seq<Layer<V>>, ms: seq<Layer<V>>)
    requires ls + ms != []
    ensures Construct(DictArgs(ls + ms)) ==
      if NonEmpty(ls) + NonEmpty(ms) == [] then Err(NoNonEmptyDictionaries)
      else Ok(NonEmpty(ls) + NonEmpty(ms))
    ensures Construct(DictArgs(ls + ms)).Ok? ==>
      View(Construct(DictArgs(ls + ms)).value) == View(ls) + View(ms)
  {
    ConstructFromLayers(ls + ms);
    NonEmptyConcat(ls, ms);
    NonEmptyView(ls + ms);
    ViewConcat(ls, ms);
  }
}
