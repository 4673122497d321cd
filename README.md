# dynarg in Dafny

A model of the `dynarg` crate: a container of named, dynamically typed
arguments. An `Arg` holds one boxed value of any type and a `used` flag.
`Args` is an insertion-ordered map from names to `Arg`s. A typed read
(`get`) gives the value only when the requested type is the stored type.
A marking read (`poke`) is the same read, and on success it also sets the
argument's `used` flag. The usage queries (`all_used`,
`iter_not_used_name`, `iter_used_name`, `reset_used_status`) report or
clear those flags. Generated wrappers fix the type to one of `String`,
`f32`, `f64`, `i32`, `i64` and `bool`.

The project has three modules:

- `DynValues` (`values.dfy`) models a boxed value. It is a tagged value
  `Dyn`, and `TypeOf` gives its runtime type (`TypeTag`). `TypeName` gives
  the name `type_name` reports for a type. `ReadAs` is the downcast: it
  either returns the value or reports `NotOfType`. The `As…` functions
  turn a successful read into the wrapper's concrete type.
- `ArgItems` (`items.dfy`) is the container seen as a value: the sequence
  of `(name, value, used)` entries in iteration order. Each operation has a
  function over that sequence (`Lookup`, `Inserted`, `Poked`, `Reset`,
  `AllUsed`, `NamesWhere`). The lemmas state how the operations relate.
- `DynArg` (`dynarg.dfy`) holds the two classes and their methods.
  - `Arg` has the fields `data` and `used`.
  - `Args` has the fields `names` (the insertion order) and `args` (name
    to `Arg` object).
  - `Valid` says three things: names are unique, `names` lists exactly the
    keys of `args`, and every key has its own `Arg` object.
  - `Iter` is the entry sequence of the current state.
  - The contract of every public state-changing method of `Args` (`Insert`,
    `Poke`, `ResetUsedStatus` and the wrappers) gives the new `Iter()` as
    the `ArgItems` function applied to the old `Iter()`. Every query's
    contract gives its result in terms of the stored arguments.
  - Two helper methods have contracts about the fields only. `Store` is the
    map update inside `Insert`, and `ClearFlags` is the loop inside
    `ResetUsedStatus`.

Two points where this model follows the code rather than some descriptions
of the crate:

- A type mismatch reports the name of the REQUESTED TYPE, not the
  argument's name. See `src/lib.rs:62-64` and `src/lib.rs:81-83`.
  `tests/with_used.rs:29` expects `NotOfType { name: "i32" }`.
  `Args::get` and `Args::poke` pass that error on unchanged.
- `Args` has no operation that removes an entry.

The crate's unit tests (`tests/with_used.rs`) are restated as consequences
of the contracts, step by step:

- `DynArg.ArgScenario` restates `test_arg`: the `i32` poke, the fresh flag,
  the `&str` and `String` reads, and the mismatched `i32` read.
- `DynArg.ArgsScenario` and `DynArg.LetterScenario` restate the typed reads
  of `test_args`: `"number"` as `i32` and as `f32`, `"letter"` as `&str`,
  and the absent `"nonexistent"`.
- `DynArg.UsageQueryScenario`, after `DynArg.UsageSetup`, restates its two
  usage steps through the class: `insert_i32` twice, `poke_i32`, then
  `all_used`, `iter_not_used_name` and `iter_used_name`.
  `ArgItems.UsageScenario` states the same outcome on the entry sequence.
- `DynArg.PokeScenario` restates the last step: `poke_i32("henlo")` yields
  56.

## Model

| member | source | states |
|---|---|---|
| DynValues.ReadAs | src/lib.rs:75-85 | A typed read succeeds exactly when the stored value's type is the requested type, and then yields that value. Otherwise it fails with `NotOfType` carrying the requested type's name. |
| ArgItems.Lookup | src/lib.rs:151-159 | Looking up a name gives `NoSuchArg(name)` exactly when the name is absent. Its only other error is `NotOfType` of the requested type. A success has the requested type. |
| ArgItems.Inserted | src/lib.rs:163-165 | Inserting a new name appends a fresh, unused entry. Inserting a present name keeps the length. Every old slot keeps its name. |
| ArgItems.Poked | src/lib.rs:134-142 | A poke keeps the length and every name and value. It changes nothing when the lookup fails. |
| ArgItems.Reset | src/lib.rs:199-203 | A reset keeps every name and value and clears every flag. |
| ArgItems.AllUsed | src/lib.rs:169-171 | `all_used` holds exactly when every entry's flag is set. This includes the empty container. |
| ArgItems.NamesWhere | src/lib.rs:175-195 | The names whose flag equals the given one, in order: a subsequence of the names. A name is listed exactly when some entry with that name has that flag. |
| ArgItems.LookupAt | src/lib.rs:155-157 | With unique names, looking up an entry's own name is the typed read of that entry. |
| ArgItems.LookupIgnoresFlags | src/lib.rs:151-159 | A lookup depends only on the names and values, never on the `used` flags. |
| ArgItems.InsertedNames | src/lib.rs:163-165 | After an insert, the name order is unchanged for a present name. For a new name, the name is appended at the end. |
| ArgItems.InsertedAt | src/lib.rs:163-165 | With unique names, an insert replaces exactly the slot holding the name with a fresh, unused entry. Every other slot is unchanged. |
| ArgItems.InsertThenLookup | src/lib.rs:151-165 | Right after an insert, reading the name gives the inserted value at its own type. At any other type the read gives `NotOfType` of that type. |
| ArgItems.InsertKeepsOthers | src/lib.rs:151-165 | An insert changes no lookup of any other name. |
| ArgItems.InsertKeepsDistinct | src/lib.rs:163-165 | Names stay unique under insertion. |
| ArgItems.InsertedIsUnused | src/lib.rs:32-38 | After an insert, the name is reported unused and not used, whatever the old entry's flag was. |
| ArgItems.PokedAt | src/lib.rs:134-142 | With unique names, a poke sets the flag of the entry under the name exactly when that entry holds the requested type. Every other flag is unchanged. |
| ArgItems.PokeKeepsLookups | src/lib.rs:53-66 | A poke changes no lookup of any name at any type. |
| ArgItems.PokeIdempotent | src/lib.rs:134-142 | Poking twice has the same effect as poking once. |
| ArgItems.PokeMarksUsed | src/lib.rs:134-142 | After a successful poke, the name is among the used names and not among the unused ones. After a failed poke, both name lists are unchanged. |
| ArgItems.AllUsedIffNoneUnused | src/lib.rs:169-183 | `all_used` holds exactly when no name is reported as unused. |
| ArgItems.UsagePartition | src/lib.rs:175-195 | The used and the unused names together are the whole name sequence, as a multiset. Their lengths add up to the number of entries. |
| ArgItems.ResetClearsUsage | src/lib.rs:199-203 | After a reset, every name is unused and none is used. `all_used` then holds only for an empty container. |
| ArgItems.ResetKeepsLookups | src/lib.rs:199-203 | A reset changes no lookup. |
| ArgItems.UsageScenario | tests/with_used.rs:54-72 | Insert two `i32` arguments and poke the first. Then only the second is unused, only the first is used, and `all_used` is false. |
| DynArg.UsageSetup | tests/with_used.rs:54-56 | A new container after `insert_i32("nice", 69)` and `insert_i32("wow", 42)` holds exactly those two unused entries, in that order, in freshly allocated objects. |
| DynArg.ArgScenario | tests/with_used.rs:7-30 | The steps of `test_arg` hold of the contracts: the poke succeeds and marks, a new argument is unused, both string reads succeed, and the `i32` read of a `String` fails with `NotOfType("i32")`. |
| DynArg.ArgsScenario | tests/with_used.rs:34-38 | After inserting `6` under `"number"`, reading it as `i32` gives 6 and as `f32` gives `NotOfType("f32")`. |
| DynArg.LetterScenario | tests/with_used.rs:40-52 | After adding `"A"` under `"letter"`, reading it as `&str` gives `"A"`, and reading `"nonexistent"` gives `NoSuchArg("nonexistent")`. |
| DynArg.UsageQueryScenario | tests/with_used.rs:54-72 | Poking `"nice"` yields 69. Afterwards `all_used` is false, the unused names are `["wow"]` and the used names are `["nice"]`. |
| DynArg.PokeScenario | tests/with_used.rs:74-79 | Poking a freshly inserted `i32` under `"henlo"` yields 56. |
| DynArg.Arg.constructor | src/lib.rs:32-38 | `Arg::new` stores the boxed value, with `used` false. |
| DynArg.Arg.FromArgData | src/lib.rs:41-47 | `Arg::from_argdata` stores the given `ArgData`, with `used` false. |
| DynArg.Arg.Get | src/lib.rs:75-85 | `Arg::get` succeeds exactly when the stored type is the requested one, and then yields the stored value. Otherwise it gives `NotOfType` with the requested type's name. |
| DynArg.Arg.Poke | src/lib.rs:53-66 | `Arg::poke` returns what `get` returned before the call and keeps the value. It sets `used` exactly on success and otherwise leaves the flag as it was. |
| DynArg.Args.constructor | src/lib.rs:120-122 | `Args::new` is valid and has no names and no entries. |
| DynArg.Args.WithCapacity | src/lib.rs:126-128 | `Args::with_capacity` is valid and has no names and no entries, whatever the capacity. |
| DynArg.Args.Iter | src/lib.rs:205-212 | Iteration yields one entry per stored name, in insertion order: the name, its argument's value and its flag. |
| DynArg.Args.IterNames | src/lib.rs:205-212 | The names iteration yields are the insertion order, and each appears once. |
| DynArg.Args.GetIsLookup | src/lib.rs:151-159 | Reading through the map agrees with looking the name up along the iteration order. |
| DynArg.Args.Get | src/lib.rs:151-159 | `Args::get` gives `NoSuchArg(name)` exactly when the name is absent. It succeeds exactly when the stored argument has the requested type, and then yields its value. A mismatch gives `NotOfType` of the requested type. |
| DynArg.Args.Poke | src/lib.rs:134-142 | `Args::poke` returns what `get` returned before the call. The new entries are `Poked` of the old ones. The container stays valid. |
| DynArg.Args.Store | src/lib.rs:164 | The map update of an insert: the new argument goes under the name, and only a new name is appended to the order. |
| DynArg.Args.Insert | src/lib.rs:163-165 | `Args::insert` keeps the container valid. The new entries are `Inserted` of the old ones, with a freshly allocated, unused `Arg`. |
| DynArg.Args.AllUsed | src/lib.rs:169-171 | `all_used` holds exactly when every stored argument is used, and exactly when no name is unused. |
| DynArg.Args.IterNotUsedName | src/lib.rs:175-183 | The unused names, as a subsequence of the insertion order. A name is listed exactly when its argument is unused. |
| DynArg.Args.IterUsedName | src/lib.rs:187-195 | The used names, as a subsequence of the insertion order. A name is listed exactly when its argument is used. Together with the unused names they are all the names. |
| DynArg.Args.ClearFlags | src/lib.rs:200-202 | The loop visits every name in order and clears its flag, leaving every value as it was. |
| DynArg.Args.ResetUsedStatus | src/lib.rs:199-203 | `reset_used_status` keeps the container valid. The new entries are `Reset` of the old ones. |
| DynArg.Args.InsertString | src/lib.rs:100-102 | `insert_string` is `insert` of a `String` value. |
| DynArg.Args.GetString | src/lib.rs:105-107 | `get_string` is `get::<String>`, unwrapped to the string. |
| DynArg.Args.PokeString | src/lib.rs:111-113 | `poke_string` returns what `get_string` returned before the call. Its effect is `poke::<String>`. |
| DynArg.Args.InsertF32 | src/lib.rs:100-102 | `insert_f32` is `insert` of an `f32` value. |
| DynArg.Args.GetF32 | src/lib.rs:105-107 | `get_f32` is `get::<f32>`, unwrapped to the bit pattern. |
| DynArg.Args.PokeF32 | src/lib.rs:111-113 | `poke_f32` returns what `get_f32` returned before the call. Its effect is `poke::<f32>`. |
| DynArg.Args.InsertF64 | src/lib.rs:100-102 | `insert_f64` is `insert` of an `f64` value. |
| DynArg.Args.GetF64 | src/lib.rs:105-107 | `get_f64` is `get::<f64>`, unwrapped to the bit pattern. |
| DynArg.Args.PokeF64 | src/lib.rs:111-113 | `poke_f64` returns what `get_f64` returned before the call. Its effect is `poke::<f64>`. |
| DynArg.Args.InsertI32 | src/lib.rs:100-102 | `insert_i32` is `insert` of an `i32` value. |
| DynArg.Args.GetI32 | src/lib.rs:105-107 | `get_i32` is `get::<i32>`, unwrapped to the integer. |
| DynArg.Args.PokeI32 | src/lib.rs:111-113 | `poke_i32` returns what `get_i32` returned before the call. Its effect is `poke::<i32>`. |
| DynArg.Args.InsertI64 | src/lib.rs:100-102 | `insert_i64` is `insert` of an `i64` value. |
| DynArg.Args.GetI64 | src/lib.rs:105-107 | `get_i64` is `get::<i64>`, unwrapped to the integer. |
| DynArg.Args.PokeI64 | src/lib.rs:111-113 | `poke_i64` returns what `get_i64` returned before the call. Its effect is `poke::<i64>`. |
| DynArg.Args.InsertBool | src/lib.rs:100-102 | `insert_bool` is `insert` of a `bool` value. |
| DynArg.Args.GetBool | src/lib.rs:105-107 | `get_bool` is `get::<bool>`, unwrapped to the boolean. |
| DynArg.Args.PokeBool | src/lib.rs:111-113 | `poke_bool` returns what `get_bool` returned before the call. Its effect is `poke::<bool>`. |

## Left out

- Type erasure is not modelled as such. `Box<dyn Any>`, `downcast_ref` and `type_name` become the tagged value `Dyn`, a `TypeTag` per type, and the fixed strings of `TypeName`. A type outside the six wrapper types and `&str` is `TOther(id, name)`. Its `id` stands for the `TypeId` that `downcast_ref` compares, and its `name` is what `type_name` reports. Two such types may share a name.
- References and lifetimes are not modelled. Reads return the value itself instead of a borrow scoped to the container, and names are owned strings instead of `&'a str`.
- Floating-point arithmetic is not modelled. `f32` and `f64` values are kept as bit patterns and never interpreted.
- `with_capacity` and allocation are not modelled: a capacity changes no observable behaviour.
- The `used` cargo feature is always on. Without it, the flag and the `poke`/usage operations do not exist.
- `Arg::used` (`src/lib.rs:88-90`) has no member of its own: it reads the field, and the model reads `used` directly.
- The `get_<type>` wrappers take `&mut self` in the code but change nothing. They are modelled as functions.
- `Display` and `Debug` of `DynArgError` (through `snafu`), `Debug` of `ArgData`, and `Default` of `Args` are left out. `Default` is the same as `Args::new`.
- Iterators are not modelled as lazy objects. `iter`, `iter_not_used_name` and `iter_used_name` yield the whole sequence they would produce.
- The crate's example programs (`basic.rs`, `poke.rs`, `example-use-case.rs`) are left out. They only print, and `example-use-case.rs` uses an older API.
- There is no removal of entries, because the code has none.
