# DictTuple — a verified model in Dafny

`DictTuple` treats an ordered list of dicts, its attribute `dt`, as one
mapping. Index 0 is the oldest layer. A key in a later layer shadows the same
key in earlier layers, and keys missing from later layers fall through to
earlier ones. This project models the class on integer keys and opaque values
(`V`, compared only by equality), and proves what each operation does to the
layers and to the single mapping they stand for.

Files:

- `outcomes.dfy`, module `Outcomes`: `Option`, `Result`, and one `Error`
  constructor per exception the class raises (the three `AssertionError`s of
  the constructor, `KeyError`, `TypeError`).
- `overlay.dfy`, module `Overlay`: the meaning of a layer list as value-level
  functions.
  - `Keys` is the union of the layers' keys.
  - `View` merges the layers oldest first. It is the reference mapping.
  - `LatestOwner` and `Lookup` give the backward-scan lookup.
  - `GetAll` is the whole shadow chain of a key.
  - `Assign` and `Remove` are the new layers after a set or a delete.
  - `EqualsDict` and `EqualsLayers` are the two equality tests.
  - It also holds the facts used to list keys in ascending order.
- `construction.dfy`, module `Construction`: constructor arguments (a dict, or
  any other object known only by its truthiness). It holds the filter
  `[arg for arg in args if arg]`, the outcome of `DictTuple(*args)` (`Construct`),
  and what re-construction does when `+` concatenates layers.
- `dict_tuple.dfy`, module `DictTuples`: the class `DictTuple` with its single
  field `dt: seq<map<int, V>>`.
  - `New` is `__init__`. It is a static method that returns a `Result`, because
    the constructor can raise.
  - `SetItem` and `DelItem` change `dt` in place, with loops.
  - `Len`, `Iter`, `GetItem` and `Equals` are loops that only read.
  - `Contains` and `Call` are functions.
  - `Add` and `RAdd` build a new instance.
  - `Operand` is the other side of `+` and `==`: a dict, a DictTuple, or
    anything else.

The key results:

- Shadowed lookup agrees with the merged view (`LookupMatchesView`).
- A set is a dict update on that view (`AssignView`).
- A delete removes the key from the view (`RemoveView`).
- DictTuple equality is equality of views, so the visible key sets must
  coincide (`EqualsLayersIsSameView`).
- Equality with a dict is "the view is a sub-dict of it" (`EqualsDictIsSubmap`).
- Concatenation yields the right-biased union of the views
  (`ConcatLayers`, `ViewConcat`).

The source's quirks are kept:

- `bool` means "more than one layer".
- Falsy constructor arguments are dropped before the type check.
- Empty layers left by `del` survive until `+` re-runs the constructor.
- `+` with an empty dict returns the very same instance.

`DictTuple + dict` and `DictTuple + DictTuple` re-run the constructor instead
of only joining the layer lists, so layers emptied by `del` are dropped, and
`DictTuple + DictTuple` raises the constructor's error when every combined
layer is empty (`DictTuple.py:122`, `DictTuple.py:124-125`).

## Model

| member | source | states |
|---|---|---|
| Overlay.KeysOwned | DictTuple.py:17-22 | a key is in the accumulated key union exactly when some layer holds it |
| Overlay.ViewKeys | DictTuple.py:17-22 | the merged mapping has exactly the keys of the key union, so `len` counts distinct keys, not layer sizes |
| Overlay.LatestOwner | DictTuple.py:38-40 | the backward scan finds the index of a layer that holds the key with no later layer holding it, or reports that no layer holds it |
| Overlay.LatestOwnerIs | DictTuple.py:38-40 | a holding layer with no later holder is the one the scan finds, and lookup returns its value |
| Overlay.LookupMatchesView | DictTuple.py:36-41 | shadowed lookup succeeds exactly for visible keys and returns the value of the oldest-first merge of the layers |
| Overlay.GetAllEndsWithLookup | DictTuple.py:63-65 | get-all is empty exactly when the key is absent (when `self[key]` raises KeyError); otherwise its last element is what `self[key]` returns |
| Overlay.AssignView | DictTuple.py:43-50 | after a set, the merged mapping is the old one with the key mapped to the new value |
| Overlay.AssignOtherChain | DictTuple.py:43-50 | a set leaves every other key's chain of values unchanged |
| Overlay.AssignChain | DictTuple.py:45-50 | a set replaces only the newest value of the key's chain (the latest owning layer); an absent key's chain becomes the single new value |
| Overlay.RemoveView | DictTuple.py:52-58 | after a delete, the merged mapping is the old one without the key |
| Overlay.RemoveChain | DictTuple.py:55-58 | after a delete the key's chain is empty and every other chain is unchanged |
| Overlay.RemoveAbsent | DictTuple.py:52-61 | deleting a key no layer holds leaves the layers unchanged (the KeyError path mutates nothing) |
| Overlay.EqualsDictIsSubmap | DictTuple.py:78-96 | equality with a dict holds exactly when the merged mapping is a sub-dict of it; the dict may have extra keys |
| Overlay.EqualsLayersIsSameView | DictTuple.py:98-114 | equality with another DictTuple holds exactly when the two merged mappings are equal, which forces equal visible key sets |
| Overlay.LeastExists | DictTuple.py:74 | every non-empty key set has a least key, the one `sorted` yields first |
| Overlay.AscendingCount | DictTuple.py:74-75 | a strictly ascending key listing has no repeats, so it is as long as its key set |
| Construction.KeptMembers | DictTuple.py:9 | the filter keeps exactly the truthy arguments |
| Construction.KeptConcat | DictTuple.py:9 | the filter keeps order: filtering a concatenation concatenates the filtered parts |
| Construction.ConstructSucceeds | DictTuple.py:5-15 | construction succeeds exactly when some argument is truthy and every truthy argument is a dict |
| Construction.ConstructStoresKept | DictTuple.py:9-15 | after a successful construction the stored layers are the truthy arguments in their original order, none of them empty |
| Construction.TruthyNonDictRejected | DictTuple.py:9-15 | a truthy non-dict argument always makes construction fail with the not-a-dictionary error |
| Construction.FalsyArgumentIgnored | DictTuple.py:9-15 | a falsy argument, dict or not, is dropped silently: removing it does not change the outcome |
| Construction.KeptDictArgs | DictTuple.py:122 | passing existing layers back to the constructor keeps exactly the non-empty ones |
| Construction.NonEmptyConcat | DictTuple.py:124-125 | dropping empty layers distributes over concatenation |
| Construction.NonEmptyView | DictTuple.py:9 | dropping empty layers does not change the merged mapping |
| Construction.ViewConcat | DictTuple.py:124-125 | the merged mapping of concatenated layers is the union of the two mappings, the right one winning |
| Construction.ConstructFromLayers | DictTuple.py:122 | re-constructing from layers yields their non-empty layers, and fails only when all are empty |
| Construction.ConcatLayers | DictTuple.py:118-136 | concatenating and re-constructing gives the left's then the right's non-empty layers, fails only when all are empty, and stands for the right-biased union of the two mappings |
| DictTuples.DictTuple.New | DictTuple.py:5-15 | `__init__` raises the first applicable error that `Construct` names, and otherwise yields a fresh instance holding exactly the layers `Construct` gives |
| DictTuples.DictTuple.KeyUnion | DictTuple.py:19-21 | the loop over the layers gathers exactly the visible keys |
| DictTuples.DictTuple.Len | DictTuple.py:17-22 | `len` is the number of distinct visible keys, which is the size of the merged mapping |
| DictTuples.DictTuple.Bool | DictTuple.py:24-26 | `bool` is true exactly when there is more than one layer, whatever keys the layers hold: a single layer is falsy even when it holds keys |
| DictTuples.DictTuple.Contains | DictTuple.py:32-34 | `in` holds exactly when the key is visible, that is, in the merged mapping |
| DictTuples.DictTuple.GetItem | DictTuple.py:36-41 | `self[key]` returns the merged mapping's value for a visible key, which is the latest owning layer's value; otherwise it raises KeyError for that key |
| DictTuples.DictTuple.Call | DictTuple.py:63-65 | get-all is empty exactly when the key is not contained; otherwise its last element is the shadowed lookup's value |
| DictTuples.DictTuple.SetItem | DictTuple.py:43-50 | a set writes into the latest owning layer or appends `{key: value}`; the layer count grows only for a new key; the merged mapping gains key ↦ value; only the key's newest chain value changes; truthiness flips to true exactly when a new key is set |
| DictTuples.DictTuple.DelItem | DictTuple.py:52-61 | a delete strips the key from every layer and keeps all layers, even empty ones; it raises KeyError exactly when no layer held the key, and then changes nothing; the merged mapping loses the key; truthiness is unchanged |
| DictTuples.DictTuple.Iter | DictTuple.py:67-75 | iteration yields each visible key once, in strictly ascending order, as many keys as `len` counts |
| DictTuples.DictTuple.Equals | DictTuple.py:77-116 | `==` decides `EqualsDict` against a dict and `EqualsLayers` against a DictTuple; against anything else it is false |
| DictTuples.DictTuple.Add | DictTuple.py:118-126 | `self + {}` is this very instance; a non-empty dict or a DictTuple gives a fresh instance with this one's non-empty layers followed by the other's, standing for the right-biased union of the mappings; anything else raises TypeError |
| DictTuples.DictTuple.RAdd | DictTuple.py:128-136 | `{} + self` is this very instance; otherwise the other operand's layers come first; anything else raises TypeError |

## Left out

- `__repr__` (`DictTuple.py:28-30`): rendering arbitrary values as text.
- `__setattr__` (`DictTuple.py:138-142`): Python's dynamic-attribute guard. A
  Dafny class with the single field `dt` admits no other attribute.
- The helper named `__dict__` (`DictTuple.py:144-149`): nothing in the class calls it.
- The `__main__` demonstration block (`DictTuple.py:152-255`). It is print-based
  and its expectation comments are not all consistent with the code.
- mynamedtuple.py is not part of this model. Its records appear only as the
  opaque value type `V`, compared with `==`.
- Aliasing: `dt` holds the caller's dict objects by reference, and `+` shares
  them with the operands. Layers here are values, so the model does not
  capture a mutation made through one holder being seen through another. This
  includes one dict object at two positions of the same `dt`, which `t + t`
  (`DictTuple.py:124`) and `DictTuple(a, a)` produce: there `u[k] = v` writes
  `v` into both positions (and into `t`), so `u(k)` becomes `[v, v]`, while the
  model changes only the latest owning position and gives `[old, v]`.
- SetItem: its chain clause (only the newest value of the key's chain changes)
  holds only when no dict object occurs twice in `dt`; see the aliasing line.
- AssignChain: states the chain after a set on value layers; with one dict
  object at two positions the program replaces both entries.
- The index values recorded in `latest_index` inside `__iter__` are not
  modelled, because only its key set reaches the result. `Iter` returns the
  sorted keys as a sequence rather than an iterator object.
- Keys are `int`. Python's behaviour for unorderable or mixed key types in
  `sorted` is not modelled.
- Operator dispatch: Python calls `__radd__` only after the left operand's
  `__add__` gives up, and calls `__eq__` through `==`. The model calls `Add`,
  `RAdd` and `Equals` directly.
- Exception messages: only the kind of each exception and the missing key are kept.
