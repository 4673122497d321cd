/** The dynamic argument container: one `Arg` per stored value with its
    `used` flag, and `Args`, an insertion-ordered map from names to `Arg`s
    with typed reads, marking reads and usage queries. */
module DynArg {
  import opened DynValues
  import opened ArgItems

  /** The state of one stored argument as a value. */
  datatype Slot = Slot(data: ArgData, used: bool)

  /** The entries for the names `ns`, in that order, each with its state
      in `slots`. */
  function Entries(ns: seq<string>, slots: map<string, Slot>): (r: seq<Item>)
    requires forall n :: n in ns ==> n in slots
    ensures |r| == |ns|
    ensures forall i :: 0 <= i < |ns| ==> r[i] == Item(ns[i], slots[ns[i]].data, slots[ns[i]].used)
  {
    if ns == [] then [] else [Item(ns[0], slots[ns[0]].data, slots[ns[0]].used)] + Entries(ns[1..], slots)
  }

  /** The names of the entries are `ns`. */
  lemma EntriesNames(ns: seq<string>, slots: map<string, Slot>)
    requires forall n :: n in ns ==> n in slots
    ensures Names(Entries(ns, slots)) == ns
  {
    var its := Entries(ns, slots);
    assert |Names(its)| == |ns|;
    forall i | 0 <= i < |ns| ensures Names(its)[i] == ns[i] {
    }
  }

  /** With unique names, looking up a name in the entries reads the state
      stored under it. */
  lemma EntriesLookup(ns: seq<string>, slots: map<string, Slot>, name: string, t: TypeTag)
    requires Distinct(ns) && forall n :: n in ns ==> n in slots
    ensures Lookup(Entries(ns, slots), name, t)
         == if name in ns then ReadAs(slots[name].data, t) else Err(NoSuchArg(name))
  {
    var its := Entries(ns, slots);
    EntriesNames(ns, slots);
    if name in ns {
      var k :| 0 <= k < |ns| && ns[k] == name;
      LookupAt(its, k, t);
    }
  }

  /** Overwriting the state under a name already present is `Inserted`
      on the entries. */
  lemma EntriesOverwritten(ns: seq<string>, slots: map<string, Slot>, name: string, d: ArgData,
                           slots': map<string, Slot>)
    requires Distinct(ns) && forall n :: n in slots <==> n in ns
    requires name in slots
    requires forall n :: n in slots' <==> n in slots
    requires slots'[name] == Slot(d, false)
    requires forall n :: n in slots && n != name ==> slots'[n] == slots[n]
    ensures Entries(ns, slots') == Inserted(Entries(ns, slots), name, d)
  {
    var its := Entries(ns, slots);
    var r := Entries(ns, slots');
    EntriesNames(ns, slots);
    forall i | 0 <= i < |its|
      ensures r[i] == if its[i].name == name then Item(name, d, false) else its[i]
    {
      var n := ns[i];
      assert its[i] == Item(n, slots[n].data, slots[n].used);
      assert r[i] == Item(n, slots'[n].data, slots'[n].used);
    }
    InsertedFromSlots(its, r, name, d);
  }

  /** Appending a name appends its entry. */
  lemma {:induction false} EntriesSnoc(ns: seq<string>, x: string, slots: map<string, Slot>)
    requires forall n :: n in ns ==> n in slots
    requires x in slots
    ensures Entries(ns + [x], slots) == Entries(ns, slots) + [Item(x, slots[x].data, slots[x].used)]
  {
    if ns != [] {
      assert (ns + [x])[1..] == ns[1..] + [x];
      EntriesSnoc(ns[1..], x, slots);
    }
  }

  /** The entries depend only on the states of the names listed. */
  lemma {:induction false} EntriesAgree(ns: seq<string>, slots: map<string, Slot>, slots': map<string, Slot>)
    requires forall n :: n in ns ==> n in slots && n in slots' && slots'[n] == slots[n]
    ensures Entries(ns, slots') == Entries(ns, slots)
  {
    if ns != [] {
      EntriesAgree(ns[1..], slots, slots');
    }
  }

  /** Storing a fresh, unused state under a new name appended to the
      order is `Inserted` on the entries. */
  lemma EntriesAppended(ns: seq<string>, slots: map<string, Slot>, name: string, d: ArgData,
                        slots': map<string, Slot>)
    requires forall n :: n in slots <==> n in ns
    requires name !in slots
    requires forall n :: n in slots' <==> n in slots || n == name
    requires slots'[name] == Slot(d, false)
    requires forall n :: n in slots ==> slots'[n] == slots[n]
    ensures Entries(ns + [name], slots') == Inserted(Entries(ns, slots), name, d)
  {
    EntriesNames(ns, slots);
    EntriesSnoc(ns, name, slots');
    EntriesAgree(ns, slots, slots');
  }

  /** Storing a fresh, unused state under `name` (appending a new name to
      the order) is `Inserted` on the entries. */
  lemma EntriesInserted(ns: seq<string>, slots: map<string, Slot>, name: string, d: ArgData,
                        ns': seq<string>, slots': map<string, Slot>)
    requires Distinct(ns) && forall n :: n in slots <==> n in ns
    requires ns' == if name in slots then ns else ns + [name]
    requires forall n :: n in slots' <==> n in slots || n == name
    requires name in slots' && slots'[name] == Slot(d, false)
    requires forall n :: n in slots && n != name ==> slots'[n] == slots[n]
    ensures Entries(ns', slots') == Inserted(Entries(ns, slots), name, d)
  {
    if name in slots {
      EntriesOverwritten(ns, slots, name, d, slots');
    } else {
      EntriesAppended(ns, slots, name, d, slots');
    }
  }

  /** Setting the flag under `name` exactly when its value has type `t` is
      `Poked` on the entries. */
  lemma EntriesPoked(ns: seq<string>, slots: map<string, Slot>, name: string, t: TypeTag,
                     slots': map<string, Slot>)
    requires Distinct(ns) && forall n :: n in slots <==> n in ns
    requires forall n :: n in slots' <==> n in slots
    requires forall n :: n in slots && n != name ==> slots'[n] == slots[n]
    requires name in slots ==>
      slots'[name] == slots[name].(used := slots[name].used || ReadAs(slots[name].data, t).Ok?)
    ensures Entries(ns, slots') == Poked(Entries(ns, slots), name, t)
  {
    var its := Entries(ns, slots);
    var r := Entries(ns, slots');
    EntriesNames(ns, slots);
    EntriesLookup(ns, slots, name, t);
    var ok := name in slots && ReadAs(slots[name].data, t).Ok?;
    forall i | 0 <= i < |its|
      ensures r[i] == its[i].(used := its[i].used || (its[i].name == name && ok))
    {
      var n := ns[i];
      assert its[i] == Item(n, slots[n].data, slots[n].used);
      assert r[i] == Item(n, slots'[n].data, slots'[n].used);
      if n == name {
        assert slots'[n].used == (slots[n].used || ok);
      } else {
        assert slots'[n] == slots[n];
      }
    }
    assert Lookup(its, name, t).Ok? == ok;
    PokedFromSlots(its, r, name, t);
  }

  /** One stored argument: a boxed value and whether a marking read of the
      right type has happened since it was created or last reset. */
  class Arg {
    var data: ArgData
    var used: bool

    /** `Arg::new`: box the value; the new argument is unused. */
    constructor (value: Dyn)
      ensures data == ArgData(value) && !used
    {
      data := ArgData(value);
      used := false;
    }

    /** `Arg::from_argdata`: take an already boxed value; unused. */
    constructor FromArgData(argData: ArgData)
      ensures data == argData && !used
    {
      data := argData;
      used := false;
    }

    /** `Arg::get`: the value exactly when it has the requested type,
        otherwise `NotOfType` carrying the requested type's name. */
    function Get(t: TypeTag): (r: Result<Dyn>)
      reads this
      ensures r.Ok? <==> TypeOf(data.inner) == t
      ensures r.Ok? ==> r.value == data.inner
      ensures r.Err? ==> r.error == NotOfType(TypeName(t))
    {
      ReadAs(data, t)
    }

    /** `Arg::poke`: the same read as `Get`; on success the argument is
        marked used, on a mismatch nothing changes. */
    method Poke(t: TypeTag) returns (r: Result<Dyn>)
      modifies this
      ensures r == old(Get(t))
      ensures data == old(data)
      ensures used == (old(used) || r.Ok?)
    {
      r := ReadAs(data, t);
      if r.Ok? {
        used := true;
      }
    }
  }

  /** `Args`: the names in insertion order, and the argument stored under
      each name. Every name has its own `Arg` object. */
  class Args {
    var names: seq<string>
    var args: map<string, Arg>

    /** Names are unique and are exactly the keys, and no two keys share
        an `Arg` object. */
    ghost predicate Valid()
      reads this
    {
      && Distinct(names)
      && (forall n :: n in args <==> n in names)
      && (forall m, n :: m in args && n in args && m != n ==> args[m] != args[n])
    }

    /** `Args::new`: an empty container. */
    constructor ()
      ensures Valid() && Iter() == []
      ensures names == [] && args == map[]
    {
      names := [];
      args := map[];
    }

    /** `Args::with_capacity`: an empty container; the capacity only
        reserves storage and is not observable. */
    constructor WithCapacity(capacity: nat)
      ensures Valid() && Iter() == []
      ensures names == [] && args == map[]
    {
      names := [];
      args := map[];
    }

    /** The state of every stored argument, by name. */
    function Slots(): (m: map<string, Slot>)
      reads this, args.Values
      ensures forall n :: n in m <==> n in args
      ensures forall n :: n in args ==> m[n] == Slot(args[n].data, args[n].used)
    {
      map n | n in args :: Slot(args[n].data, args[n].used)
    }

    /** `Args::iter`: every stored (name, argument) pair, in insertion order. */
    function Iter(): (r: seq<Item>)
      reads this, args.Values
      requires Valid()
      ensures |r| == |names|
      ensures forall i :: 0 <= i < |r| ==> r[i] == Item(names[i], args[names[i]].data, args[names[i]].used)
    {
      Entries(names, Slots())
    }

    /** The names `Iter` yields are the stored order, so they are unique. */
    lemma IterNames()
      requires Valid()
      ensures Names(Iter()) == names && Distinct(Names(Iter()))
    {
    }

    /** Reading the stored map agrees with reading the iteration order:
        `Get` is `Lookup` on `Iter()`. */
    lemma GetIsLookup(name: string, t: TypeTag)
      requires Valid()
      ensures Get(name, t) == Lookup(Iter(), name, t)
    {
      EntriesLookup(names, Slots(), name, t);
    }

    /** `Args::get`: `NoSuchArg` with the argument's name when it is absent;
        otherwise the stored argument's typed read, its `NotOfType`
        passed on unchanged. */
    function Get(name: string, t: TypeTag): (r: Result<Dyn>)
      reads this, args.Values
      requires Valid()
      ensures r == Err(NoSuchArg(name)) <==> name !in args
      ensures r.Ok? <==> name in args && TypeOf(args[name].data.inner) == t
      ensures r.Ok? ==> r.value == args[name].data.inner
      ensures name in args && r.Err? ==> r.error == NotOfType(TypeName(t))
    {
      if name !in args then Err(NoSuchArg(name)) else args[name].Get(t)
    }

    /** `Args::poke`: the same read as `Get`; on success the argument under
        `name` is marked used. A missing name or a type mismatch changes
        nothing. */
    method Poke(name: string, t: TypeTag) returns (r: Result<Dyn>)
      requires Valid()
      modifies args.Values
      ensures Valid()
      ensures r == old(Get(name, t))
      ensures Iter() == Poked(old(Iter()), name, t)
    {
      ghost var slots := Slots();
      if name !in args {
        r := Err(NoSuchArg(name));
      } else {
        var arg := args[name];
        r := arg.Poke(t);
      }
      forall n | n in args && n != name && name in args ensures Slots()[n] == slots[n] {
        assert args[n] != args[name];
      }
      EntriesPoked(names, slots, name, t, Slots());
    }

    /** The map update of `Args::insert`: `arg` goes under `name`, and a
        new name is appended to the order. */
    method Store(name: string, arg: Arg)
      requires Valid() && arg !in args.Values
      modifies this
      ensures Valid()
      ensures names == if name in old(args) then old(names) else old(names) + [name]
      ensures args == old(args)[name := arg]
      ensures forall n :: n in old(args) && n != name ==> Slots()[n] == old(Slots())[n]
    {
      if name !in args {
        DistinctSnoc(names, name);
      }
      names, args := if name in args then names else names + [name], args[name := arg];
    }

    /** `Args::insert`: store a fresh, unused argument under `name`. A new
        name goes to the end of the order; an existing name keeps its slot
        and loses its old value and flag. */
    method Insert(name: string, value: Dyn)
      requires Valid()
      modifies this
      ensures Valid() && (forall a :: a in args.Values ==> a in old(args.Values) || fresh(a))
      ensures Iter() == Inserted(old(Iter()), name, ArgData(value))
    {
      ghost var slots := Slots();
      ghost var ns := names;
      var arg := new Arg(value);
      Store(name, arg);
      EntriesInserted(ns, slots, name, ArgData(value), names, Slots());
    }

    /** `Args::all_used`: every stored argument is marked used. */
    function AllUsed(): (r: bool)
      reads this, args.Values
      requires Valid()
      ensures r <==> forall n :: n in args ==> args[n].used
      ensures r <==> IterNotUsedName() == []
    {
      AllUsedIffNoneUnused(Iter());
      ArgItems.AllUsed(Iter())
    }

    /** The entries with a given flag are the stored arguments with it. */
    lemma IterWhere(flag: bool)
      requires Valid()
      ensures forall n :: n in NamesWhere(Iter(), flag) <==> n in args && args[n].used == flag
    {
      var its := Iter();
      forall n ensures n in NamesWhere(its, flag) <==> n in args && args[n].used == flag {
        if n in args && args[n].used == flag {
          var i :| 0 <= i < |names| && names[i] == n;
          assert its[i].name == n && its[i].used == flag;
        }
      }
    }

    /** `Args::iter_not_used_name`: the names of the unused arguments, in
        insertion order. */
    function IterNotUsedName(): (r: seq<string>)
      reads this, args.Values
      requires Valid()
      ensures IsSubsequence(r, names)
      ensures forall n :: n in r <==> n in args && !args[n].used
    {
      IterNames();
      IterWhere(false);
      NamesWhere(Iter(), false)
    }

    /** `Args::iter_used_name`: the names of the used arguments, in
        insertion order. Together with the unused names they are all the
        names. */
    function IterUsedName(): (r: seq<string>)
      reads this, args.Values
      requires Valid()
      ensures IsSubsequence(r, names)
      ensures forall n :: n in r <==> n in args && args[n].used
      ensures multiset(r) + multiset(IterNotUsedName()) == multiset(names)
    {
      IterNames();
      IterWhere(true);
      UsagePartition(Iter());
      NamesWhere(Iter(), true)
    }

    /** The loop of `Args::reset_used_status`: visit the arguments in
        order and clear each flag. */
    method ClearFlags()
      requires Valid()
      modifies args.Values
      ensures forall j :: 0 <= j < |names| ==> !args[names[j]].used
      ensures forall n :: n in args ==> args[n].data == old(args[n].data)
    {
      for i := 0 to |names|
        invariant forall j :: 0 <= j < i ==> !args[names[j]].used
        invariant forall n :: n in args ==> args[n].data == old(args[n].data)
      {
        args[names[i]].used := false;
      }
    }

    /** `Args::reset_used_status`: clear every flag; names, order and
        values stay. */
    method ResetUsedStatus()
      requires Valid()
      modifies args.Values
      ensures Valid()
      ensures Iter() == Reset(old(Iter()))
    {
      ghost var before := Iter();
      ClearFlags();
      ghost var after := Iter();
      forall i | 0 <= i < |before| ensures after[i] == before[i].(used := false) {
        var n := names[i];
        assert before[i] == Item(n, old(args[n].data), old(args[n].used));
        assert after[i] == Item(n, args[n].data, false);
      }
      ResetFromSlots(before, after);
    }

    // Typed wrappers: each is the generic operation at one fixed type.

    method InsertString(name: string, value: string)
      requires Valid()
      modifies this
      ensures Valid() && (forall a :: a in args.Values ==> a in old(args.Values) || fresh(a))
      ensures Iter() == Inserted(old(Iter()), name, ArgData(DString(value)))
    {
      Insert(name, DString(value));
    }

    function GetString(name: string): (r: Result<string>)
      reads this, args.Values
      requires Valid()
      ensures r.Ok? ==> Get(name, TString) == Ok(DString(r.value))
      ensures r.Err? ==> Get(name, TString) == Err(r.error)
    {
      AsString(Get(name, TString))
    }

    method PokeString(name: string) returns (r: Result<string>)
      requires Valid()
      modifies args.Values
      ensures Valid()
      ensures r == old(GetString(name))
      ensures Iter() == Poked(old(Iter()), name, TString)
    {
      var g := Poke(name, TString);
      r := AsString(g);
    }

    method InsertF32(name: string, value: bv32)
      requires Valid()
      modifies this
      ensures Valid() && (forall a :: a in args.Values ==> a in old(args.Values) || fresh(a))
      ensures Iter() == Inserted(old(Iter()), name, ArgData(DF32(value)))
    {
      Insert(name, DF32(value));
    }

    function GetF32(name: string): (r: Result<bv32>)
      reads this, args.Values
      requires Valid()
      ensures r.Ok? ==> Get(name, TF32) == Ok(DF32(r.value))
      ensures r.Err? ==> Get(name, TF32) == Err(r.error)
    {
      AsF32(Get(name, TF32))
    }

    method PokeF32(name: string) returns (r: Result<bv32>)
      requires Valid()
      modifies args.Values
      ensures Valid()
      ensures r == old(GetF32(name))
      ensures Iter() == Poked(old(Iter()), name, TF32)
    {
      var g := Poke(name, TF32);
      r := AsF32(g);
    }

    method InsertF64(name: string, value: bv64)
      requires Valid()
      modifies this
      ensures Valid() && (forall a :: a in args.Values ==> a in old(args.Values) || fresh(a))
      ensures Iter() == Inserted(old(Iter()), name, ArgData(DF64(value)))
    {
      Insert(name, DF64(value));
    }

    function GetF64(name: string): (r: Result<bv64>)
      reads this, args.Values
      requires Valid()
      ensures r.Ok? ==> Get(name, TF64) == Ok(DF64(r.value))
      ensures r.Err? ==> Get(name, TF64) == Err(r.error)
    {
      AsF64(Get(name, TF64))
    }

    method PokeF64(name: string) returns (r: Result<bv64>)
      requires Valid()
      modifies args.Values
      ensures Valid()
      ensures r == old(GetF64(name))
      ensures Iter() == Poked(old(Iter()), name, TF64)
    {
      var g := Poke(name, TF64);
      r := AsF64(g);
    }

    method InsertI32(name: string, value: int32)
      requires Valid()
      modifies this
      ensures Valid() && (forall a :: a in args.Values ==> a in old(args.Values) || fresh(a))
      ensures Iter() == Inserted(old(Iter()), name, ArgData(DI32(value)))
    {
      Insert(name, DI32(value));
    }

    function GetI32(name: string): (r: Result<int32>)
      reads this, args.Values
      requires Valid()
      ensures r.Ok? ==> Get(name, TI32) == Ok(DI32(r.value))
      ensures r.Err? ==> Get(name, TI32) == Err(r.error)
    {
      AsI32(Get(name, TI32))
    }

    method PokeI32(name: string) returns (r: Result<int32>)
      requires Valid()
      modifies args.Values
      ensures Valid()
      ensures r == old(GetI32(name))
      ensures Iter() == Poked(old(Iter()), name, TI32)
    {
      var g := Poke(name, TI32);
      r := AsI32(g);
    }

    method InsertI64(name: string, value: int64)
      requires Valid()
      modifies this
      ensures Valid() && (forall a :: a in args.Values ==> a in old(args.Values) || fresh(a))
      ensures Iter() == Inserted(old(Iter()), name, ArgData(DI64(value)))
    {
      Insert(name, DI64(value));
    }

    function GetI64(name: string): (r: Result<int64>)
      reads this, args.Values
      requires Valid()
      ensures r.Ok? ==> Get(name, TI64) == Ok(DI64(r.value))
      ensures r.Err? ==> Get(name, TI64) == Err(r.error)
    {
      AsI64(Get(name, TI64))
    }

    method PokeI64(name: string) returns (r: Result<int64>)
      requires Valid()
      modifies args.Values
      ensures Valid()
      ensures r == old(GetI64(name))
      ensures Iter() == Poked(old(Iter()), name, TI64)
    {
      var g := Poke(name, TI64);
      r := AsI64(g);
    }

    method InsertBool(name: string, value: bool)
      requires Valid()
      modifies this
      ensures Valid() && (forall a :: a in args.Values ==> a in old(args.Values) || fresh(a))
      ensures Iter() == Inserted(old(Iter()), name, ArgData(DBool(value)))
    {
      Insert(name, DBool(value));
    }

    function GetBool(name: string): (r: Result<bool>)
      reads this, args.Values
      requires Valid()
      ensures r.Ok? ==> Get(name, TBool) == Ok(DBool(r.value))
      ensures r.Err? ==> Get(name, TBool) == Err(r.error)
    {
      AsBool(Get(name, TBool))
    }

    method PokeBool(name: string) returns (r: Result<bool>)
      requires Valid()
      modifies args.Values
      ensures Valid()
      ensures r == old(GetBool(name))
      ensures Iter() == Poked(old(Iter()), name, TBool)
    {
      var g := Poke(name, TBool);
      r := AsBool(g);
    }
  }

  /** The crate's test of a single `Arg` (tests/with_used.rs, `test_arg`),
      as consequences of the contracts. */
  method ArgScenario()
  {
    var arg := new Arg(DI32(5));
    var r := arg.Poke(TI32);
    assert r == Ok(DI32(5)) && arg.used;
    var other := new Arg(DI32(5));
    assert !other.used;
    var slice := new Arg(DStr("apple"));
    assert slice.Get(TStr) == Ok(DStr("apple"));
    var owned := new Arg(DString("apple"));
    assert owned.Get(TString) == Ok(DString("apple"));
    var word := new Arg(DString("apple"));
    assert word.Get(TI32) == Err(NotOfType("i32"));
  }

  /** The first typed reads of `test_args`: an `i32` entry read as `i32`
      and as `f32`. */
  method ArgsScenario()
  {
    var args := new Args();
    args.Insert("number", DI32(6));
    InsertThenLookup([], "number", ArgData(DI32(6)), TF32);
    args.GetIsLookup("number", TI32);
    args.GetIsLookup("number", TF32);
    assert args.Get("number", TI32) == Ok(DI32(6));
    assert args.Get("number", TF32) == Err(NotOfType("f32"));
  }

  /** The next reads of `test_args`: after a `&str` entry is added, it reads
      back as `&str`, and a name never inserted is `NoSuchArg`. */
  method LetterScenario()
  {
    var args := new Args();
    args.Insert("number", DI32(6));
    ghost var first := args.Iter();
    args.Insert("letter", DStr("A"));
    InsertThenLookup(first, "letter", ArgData(DStr("A")), TStr);
    InsertKeepsOthers([], "number", ArgData(DI32(6)), "nonexistent", TStr);
    InsertKeepsOthers(first, "letter", ArgData(DStr("A")), "nonexistent", TStr);
    args.GetIsLookup("letter", TStr);
    args.GetIsLookup("nonexistent", TStr);
    assert args.Get("letter", TStr) == Ok(DStr("A"));
    assert args.Get("nonexistent", TStr) == Err(NoSuchArg("nonexistent"));
  }

  /** The set-up of the usage test of `test_args`: two `i32` entries. */
  method UsageSetup() returns (args: Args)
    ensures fresh(args) && fresh(args.args.Values) && args.Valid()
    ensures args.Iter() == Inserted(Inserted([], "nice", ArgData(DI32(69))), "wow", ArgData(DI32(42)))
  {
    args := new Args();
    args.InsertI32("nice", 69);
    ghost var first := args.args.Values;
    assert forall a :: a in first ==> fresh(a);
    args.InsertI32("wow", 42);
    assert forall a :: a in args.args.Values ==> a in first || fresh(a);
  }

  /** The usage queries of `test_args`: of two `i32` entries the first is
      poked, so only the second is unused and not all are used. */
  method UsageQueryScenario()
  {
    var args := UsageSetup();
    InsertThenLookup([], "nice", ArgData(DI32(69)), TI32);
    InsertKeepsOthers(Inserted([], "nice", ArgData(DI32(69))), "wow", ArgData(DI32(42)), "nice", TI32);
    args.GetIsLookup("nice", TI32);
    var r := args.PokeI32("nice");
    assert r == Ok(69);
    UsageScenario();
    assert !args.AllUsed();
    assert args.IterNotUsedName() == ["wow"];
    assert args.IterUsedName() == ["nice"];
  }

  /** The last step of `test_args`: poking a freshly inserted `i32` yields
      it. */
  method PokeScenario()
  {
    var args := new Args();
    args.InsertI32("henlo", 56);
    InsertThenLookup([], "henlo", ArgData(DI32(56)), TI32);
    args.GetIsLookup("henlo", TI32);
    var r := args.PokeI32("henlo");
    assert r == Ok(56);
  }
}
