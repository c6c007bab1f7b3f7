# Expand / reduce operations of uniflow, in Dafny

This project models the two basic data operations of uniflow's expand-reduce
pipeline. Both work on insertion-ordered string-to-string mappings (Python
dicts).

- **`ExpandOp`** (`uniflow/op/basic/expand_op.py`) splits the root node's
  mapping in two.
  - With the default split, the first half holds the first `n // 2` keys and
    the second half holds the rest.
  - Both halves keep insertion order and values.
  - A caller may pass its own split function instead.
- **`ReduceOp`** (`uniflow/op/basic/reduce_op.py`) owns a mapping that starts
  as `{}`.
  - The default merge fills it in place with a cross-product join. For every
    `k1 -> v1` of the first input, then every `k2 -> v2` of the second, it
    assigns `"k1 k2" -> "v1 v2"`.
  - It returns the owned mapping.
  - A caller may pass its own merge function instead.

Files:

- `dicts.dfy`
  - `Dicts.Dict` is a Python dict: the key insertion order `keys` plus the
    bindings `values`.
  - `Dict.Wf()` says the keys are distinct and are exactly the bound ones.
    `LenIsCount` shows that `len(d)`, the length of the order, is then the
    number of bound keys.
  - `Insert` is `d[k] = v`: a new key goes to the end of the order, and an
    existing key keeps its place and gets the new value.
  - `InsertAll` is a run of such assignments.
  - `Items` is `d.items()`.
  - The lemmas about `InsertAll` cover the resulting keys, well-formedness,
    last-assignment-wins, untouched keys, fresh keys appended in order, and
    the size.
- `expand_op.py` ↔ `expand_op.dfy` (module `Expand`), which is pure.
  - `default_split` is the function `DefaultSplit`. Each dict comprehension
    is `FromKeys`, a run of assignments into `{}`.
  - The constructor is the function `NewExpandOp`, returning the datatype
    `ExpandOp`.
- `reduce_op.py` ↔ `reduce_op.dfy` (module `Reduce`), which is imperative.
  - `ReduceOp` is a class whose fields `order` and `entries` are the owned
    `value_dict`.
  - `DefaultMerge` is the method with the two nested loops. The inner loop
    for one outer item is the method `MergeRow`.
  - `DefaultMerge` is proved against the function `Merge`, which is the
    loops' assignments in order.
  - Properties of the join are lemmas about `CrossMerge`, which is the merge
    into `{}`.
- `expand_reduce.dfy` (module `ExpandReduce`) chains the default split and the
  default merge, which is the composition the pipeline intends.

## Model

| member | source | states |
|---|---|---|
| `Expand.DefaultSplit` | uniflow/op/basic/expand_op.py:16-20 | Both halves are well-formed dicts. The first has `n // 2` entries and the second `n - n // 2`. The first half's keys followed by the second's are the input's keys in order. Every key in either half has its value from the input. |
| `Expand.FromKeysSelects` | uniflow/op/basic/expand_op.py:19-20 | The comprehension `{k: d[k] for k in ks}` over distinct keys of `d` has exactly the keys `ks`, in that order, each bound to its value in `d`. |
| `Expand.SplitPartition` | uniflow/op/basic/expand_op.py:19-20 | The halves' key sets are disjoint, and their union is the input's key set. |
| `Expand.SplitSmall` | uniflow/op/basic/expand_op.py:17-18 | With at most one entry, the first half is `{}` and the second half is the whole input, so an empty input gives two empty halves. |
| `Expand.NewExpandOp` | uniflow/op/basic/expand_op.py:10-13 | The op keeps the root's mapping unchanged. A supplied split function's pair is taken as is, with no validation. Without one, the halves are exactly the default split of the root, so they are well formed, carry the root's values, concatenate to the root's keys, and the first has `n // 2` entries. |
| `Reduce.ReduceOp.constructor` | uniflow/op/basic/reduce_op.py:10-13 | The owned mapping starts as `{}`. Without an override, it ends as the join of the two inputs. With an override, the override is called, its result is dropped, and the owned mapping stays `{}`. |
| `Reduce.ReduceOp.DefaultMerge` | uniflow/op/basic/reduce_op.py:15-19 | The owned mapping stays well-formed and becomes the old mapping after all the loops' assignments, in first-input-major order. The returned dict is that owned mapping. |
| `Reduce.ReduceOp.MergeRow` | uniflow/op/basic/reduce_op.py:17-18 | One pass of the inner loop makes the assignments `"k1 k2" -> "v1 v2"` for every item of the second input, in order. |
| `Reduce.MergeItemsWf` | uniflow/op/basic/reduce_op.py:16-18 | The nested loops keep a well-formed owned mapping well formed. |
| `Reduce.MergeItemsRows` | uniflow/op/basic/reduce_op.py:16-18 | Running the nested loops is the same as making the flat sequence of their assignments in order. |
| `Reduce.MergeIntoEmpty` | uniflow/op/basic/reduce_op.py:11-18 | The default merge into the fresh `{}` is the join `CrossMerge`. |
| `Reduce.CrossMergeKeys` | uniflow/op/basic/reduce_op.py:16-18 | A key is in the output if and only if it is `k1 + " " + k2` for some key `k1` of the first input and some key `k2` of the second. |
| `Reduce.CrossMergeLen` | uniflow/op/basic/reduce_op.py:16-18 | The output has at most `len(a) * len(b)` entries. It has exactly that many when no two key pairs give the same composite key. |
| `Reduce.CrossMergeCollision` | uniflow/op/basic/reduce_op.py:16-18 | If two different key pairs give the same composite key, the output has fewer than `len(a) * len(b)` entries. |
| `Reduce.CrossMergeInLoopOrder` | uniflow/op/basic/reduce_op.py:16-18 | Without collisions, the output's insertion order is the loops' order of assignments. |
| `Reduce.CrossMergeOrder` | uniflow/op/basic/reduce_op.py:16-18 | Without collisions, entry `i * len(b) + j` of the output is key `i` of `a` joined with key `j` of `b`. That is, the order is first-input-major and second-input-minor. |
| `Reduce.CrossMergeLastWins` | uniflow/op/basic/reduce_op.py:16-18 | If no later pair in loop order gives the same composite key, the pair `(i, j)` leaves its key in the output bound to `v1 + " " + v2`. |
| `Reduce.CrossMergeValue` | uniflow/op/basic/reduce_op.py:16-18 | Without collisions, every composite key `k1 + " " + k2` is in the output, bound to `v1 + " " + v2`. |
| `Reduce.CrossMergeEmpty` | uniflow/op/basic/reduce_op.py:16-17 | If either input is empty, the output is `{}`. |
| `Reduce.CollisionOverwrites` | uniflow/op/basic/reduce_op.py:16-18 | Joining `{"a b": "1", "a": "2"}` with `{"c": "3", "b c": "4"}` gives fewer than four entries, and `"a b c"` ends with the later pair's `"2 4"`. |
| `Reduce.SeparatorCollision` | uniflow/op/basic/reduce_op.py:18 | Keys that contain a space can collide: `"a b" + " " + "c" == "a" + " " + "b c"`. |
| `Reduce.JoinedInjective` | uniflow/op/basic/reduce_op.py:18 | When the left keys contain no space, `x1 + " " + y1 == x2 + " " + y2` implies `x1 == x2` and `y1 == y2`. |
| `Reduce.NoSeparatorJoinInjective` | uniflow/op/basic/reduce_op.py:18 | If no first-input key contains a space, no two different key pairs give the same composite key. |
| `Dicts.LenIsCount` | uniflow/op/basic/expand_op.py:17 | For a well-formed dict, `len(d)` (the length of the insertion order) equals the number of bound keys. |
| `Dicts.InsertAllLastWins` | uniflow/op/basic/reduce_op.py:18 | After a run of dict assignments, a key holds the value of its last assignment. |
| `Dicts.InsertAllFresh` | uniflow/op/basic/reduce_op.py:18 | Assigning keys that are all new appends them to the insertion order, in order. |
| `Dicts.InsertAllKeys` | uniflow/op/basic/reduce_op.py:18 | After a run of dict assignments, the keys are the old keys plus the assigned ones. |
| `ExpandReduce.SplitThenMergeSize` | uniflow/op/basic/expand_op.py:17-20 | Whenever no two pairs of a first-half key and a second-half key give the same composite key, the join of the default halves has exactly `(n // 2) * (n - n // 2)` entries. |
| `ExpandReduce.SplitThenMergeSizeSlices` | uniflow/op/basic/expand_op.py:17-20 | The same size, with the no-collision condition stated on the root's keys: positions below `n // 2` against positions from `n // 2` on. |
| `ExpandReduce.SplitThenMergeSizeNoSpace` | uniflow/op/basic/expand_op.py:17-20 | If no key in the first `n // 2` positions contains a space, the join of the default halves has `(n // 2) * (n - n // 2)` entries. |
| `ExpandReduce.SpacedKeysWithoutCollision` | uniflow/op/basic/reduce_op.py:18 | The root `{"a b": "1", "c": "2"}` has a spaced first-half key, yet its halves do not collide and the join has exactly one entry. |
| `ExpandReduce.SplitThenMergeKeys` | uniflow/op/basic/expand_op.py:19-20 | The join of the default halves has as keys exactly `key[i] + " " + key[j]` for `i < n // 2 <= j < n`. |
| `ExpandReduce.SplitThenMergeSmall` | uniflow/op/basic/expand_op.py:17-18 | A root with at most one entry gives an empty join. |
| `ExpandReduce.Run` | uniflow/op/basic/reduce_op.py:10-13 | An `ExpandOp` with the default split, followed by a `ReduceOp` over its halves with the default merge, leaves the `ReduceOp` owning the join of the two halves. |

## Left out

- `uniflow/flow/expand_reduce_flow.py` is not part of this model.
  - It only wires the two operations together.
  - As written, it cannot run: it never imports `Flow`, `ExpandOp` or
    `ReduceOp`, and it hands plain dicts to `ReduceOp`, whose default merge
    reads `.value_dict` on them.
  - The intended composition is stated instead over the two operations in
    `ExpandReduce`.
- The inputs of `default_merge` are `Dict` values, not objects with a
  `value_dict` attribute. The merge reads only that attribute.
- The class methods `split_func` (expand_op.py:22-24) and `merge_func`
  (reduce_op.py:21-24) are left out. The instance attributes assigned in the
  constructors shadow them, so they are never called.
- The `Op` and `Node` base classes are not part of this model.
  - `Op.__init__` is taken to store the given mapping as `value_dict`.
  - `ExpandOp` shares the root node's dict by reference and never mutates it.
    The model keeps it as a value, so aliasing is not modelled.
- `Reduce.ReduceOp.DefaultMerge` returns the owned mapping as a value. In
  Python it returns the same dict object, which the caller could later
  mutate; that aliasing is not modelled.
- The inner loop of `default_merge` is the separate method `MergeRow`. It
  runs the same loop body in the same order.
- Logging, the `FlowFactory` registry and `uniflow/op/model/constants.py` are
  left out. They are I/O, plumbing and string constants, with no behaviour to
  verify.
- Caller-supplied split and merge functions are modelled as total functions.
  Exceptions they might raise are not modelled.
- Keys and values are strings, and `f"{k1} {k2}"` is plain concatenation
  with one space. Non-string keys and values, and their `str()` formatting,
  are not modelled.
- A merge override does not fill the owned mapping. The code passes it only
  the two inputs and discards its return value, so the owned mapping stays
  `{}`. The model follows the code, although an override could be expected
  to populate the mapping.
- The output has exactly `len(a) * len(b)` entries only when composite keys
  do not collide (`Reduce.CrossMergeLen`). With collisions the code gives
  fewer entries, as `Reduce.CrossMergeCollision` and
  `Reduce.CollisionOverwrites` show, so that is what the model states.
