/** The contents of an `Args` container seen as a value: the (name, Arg)
    pairs in the order `Args::iter` yields them. The functions here give the
    meaning of each operation of the container on that sequence, and the
    lemmas state how the operations relate. */
module ArgItems {
  import opened DynValues

  /** One entry as a value: its name, the stored value and the `used` flag. */
  datatype Item = Item(name: string, data: ArgData, used: bool)

  predicate Distinct(s: seq<string>)
  {
    forall i, j :: 0 <= i < j < |s| ==> s[i] != s[j]
  }

  /** The key sequence. */
  function Names(its: seq<Item>): (r: seq<string>)
    ensures |r| == |its|
    ensures forall i :: 0 <= i < |its| ==> r[i] == its[i].name
  {
    if its == [] then [] else [its[0].name] + Names(its[1..])
  }

  /** `a` is `b` with some elements left out, the rest in the same order. */
  predicate IsSubsequence(a: seq<string>, b: seq<string>)
    decreases |a| + |b|
  {
    a == [] || (b != [] && ((a[0] == b[0] && IsSubsequence(a[1..], b[1..])) || IsSubsequence(a, b[1..])))
  }

  /** `Args::get`: the entry under `name` read as type `t`. */
  function Lookup(its: seq<Item>, name: string, t: TypeTag): (r: Result<Dyn>)
    ensures r == Err(NoSuchArg(name)) <==> name !in Names(its)
    ensures r.Err? ==> r.error == NoSuchArg(name) || r.error == NotOfType(TypeName(t))
    ensures r.Ok? ==> TypeOf(r.value) == t
  {
    if its == [] then Err(NoSuchArg(name))
    else if its[0].name == name then ReadAs(its[0].data, t)
    else Lookup(its[1..], name, t)
  }

  /** `IndexMap::insert` of a fresh, unused entry: an existing name keeps
      its slot and gets the new entry; a new name is appended. */
  function Inserted(its: seq<Item>, name: string, d: ArgData): (r: seq<Item>)
    ensures name in Names(its) ==> |r| == |its|
    ensures name !in Names(its) ==> r == its + [Item(name, d, false)]
    ensures forall i :: 0 <= i < |its| ==> r[i].name == its[i].name
  {
    if its == [] then [Item(name, d, false)]
    else if its[0].name == name then [Item(name, d, false)] + its[1..]
    else [its[0]] + Inserted(its[1..], name, d)
  }

  /** `Args::poke`: the entry under `name` is marked used when it holds a
      value of type `t`; nothing else changes. */
  function Poked(its: seq<Item>, name: string, t: TypeTag): (r: seq<Item>)
    ensures |r| == |its|
    ensures Lookup(its, name, t).Err? ==> r == its
    ensures forall i :: 0 <= i < |its| ==> r[i].name == its[i].name && r[i].data == its[i].data
  {
    if its == [] then []
    else if its[0].name == name then
      (if ReadAs(its[0].data, t).Ok? then [its[0].(used := true)] else [its[0]]) + its[1..]
    else [its[0]] + Poked(its[1..], name, t)
  }

  /** `Args::reset_used_status`: every flag cleared. */
  function Reset(its: seq<Item>): (r: seq<Item>)
    ensures |r| == |its|
    ensures forall i :: 0 <= i < |its| ==> r[i].name == its[i].name && r[i].data == its[i].data && !r[i].used
  {
    if its == [] then [] else [its[0].(used := false)] + Reset(its[1..])
  }

  /** `Args::all_used`: every entry's flag is set (true of no entries). */
  function AllUsed(its: seq<Item>): (r: bool)
    ensures r <==> forall i :: 0 <= i < |its| ==> its[i].used
  {
    its == [] || (its[0].used && AllUsed(its[1..]))
  }

  /** The names of the entries whose flag equals `flag`, in order:
      `iter_used_name` for `true`, `iter_not_used_name` for `false`. */
  function NamesWhere(its: seq<Item>, flag: bool): (r: seq<string>)
    ensures IsSubsequence(r, Names(its))
    ensures forall n :: n in r <==> exists i :: 0 <= i < |its| && its[i].name == n && its[i].used == flag
  {
    if its == [] then []
    else if its[0].used == flag then [its[0].name] + NamesWhere(its[1..], flag)
    else NamesWhere(its[1..], flag)
  }

  lemma DistinctTail(its: seq<Item>)
    requires its != [] && Distinct(Names(its))
    ensures Distinct(Names(its[1..]))
  {
    forall a, b | 0 <= a < b < |its| - 1 ensures Names(its[1..])[a] != Names(its[1..])[b] {
      assert Names(its)[a + 1] != Names(its)[b + 1];
    }
  }

  lemma DistinctSnoc(s: seq<string>, x: string)
    requires Distinct(s) && x !in s
    ensures Distinct(s + [x])
  {
    forall i, j | 0 <= i < j < |s| + 1 ensures (s + [x])[i] != (s + [x])[j] {
      if j == |s| {
        assert s[i] in s;
      }
    }
  }

  // ---------------------------------------------------------------------
  // Lookup

  /** With unique names, looking up an entry's own name reads that entry. */
  lemma {:induction false} LookupAt(its: seq<Item>, i: nat, t: TypeTag)
    requires Distinct(Names(its)) && i < |its|
    ensures Lookup(its, its[i].name, t) == ReadAs(its[i].data, t)
  {
    if i > 0 {
      assert Names(its)[0] != Names(its)[i];
      DistinctTail(its);
      LookupAt(its[1..], i - 1, t);
    }
  }

  /** A lookup depends only on the names and values, never on the flags. */
  lemma {:induction false} LookupIgnoresFlags(a: seq<Item>, b: seq<Item>, name: string, t: TypeTag)
    requires |a| == |b|
    requires forall i :: 0 <= i < |a| ==> a[i].name == b[i].name && a[i].data == b[i].data
    ensures Lookup(a, name, t) == Lookup(b, name, t)
  {
    if a != [] && a[0].name != name {
      LookupIgnoresFlags(a[1..], b[1..], name, t);
    }
  }

  // ---------------------------------------------------------------------
  // Insert

  /** The key sequence after an insert: unchanged for a present name, the
      name appended for a new one. */
  lemma InsertedNames(its: seq<Item>, name: string, d: ArgData)
    ensures Names(Inserted(its, name, d)) == if name in Names(its) then Names(its) else Names(its) + [name]
  {
  }

  /** With unique names, the insert replaces exactly the slot holding the
      name by a fresh unused entry and leaves every other slot as it was. */
  lemma {:induction false} InsertedAt(its: seq<Item>, name: string, d: ArgData, i: nat)
    requires Distinct(Names(its)) && i < |its|
    ensures Inserted(its, name, d)[i] == if its[i].name == name then Item(name, d, false) else its[i]
  {
    if its[0].name == name {
      if i > 0 {
        assert Names(its)[0] != Names(its)[i];
      }
    } else if i > 0 {
      DistinctTail(its);
      InsertedAt(its[1..], name, d, i - 1);
    }
  }

  /** After an insert, reading the name gives the inserted value under its
      own type and `NotOfType` with the requested type's name otherwise. */
  lemma {:induction false} InsertThenLookup(its: seq<Item>, name: string, d: ArgData, t: TypeTag)
    ensures Lookup(Inserted(its, name, d), name, t) == ReadAs(d, t)
    ensures Lookup(Inserted(its, name, d), name, TypeOf(d.inner)) == Ok(d.inner)
  {
    if its != [] && its[0].name != name {
      InsertThenLookup(its[1..], name, d, t);
      InsertThenLookup(its[1..], name, d, TypeOf(d.inner));
    }
  }

  /** An insert changes no other name's lookup. */
  lemma {:induction false} InsertKeepsOthers(its: seq<Item>, name: string, d: ArgData, other: string, t: TypeTag)
    requires other != name
    ensures Lookup(Inserted(its, name, d), other, t) == Lookup(its, other, t)
  {
    if its != [] && its[0].name != name && its[0].name != other {
      InsertKeepsOthers(its[1..], name, d, other, t);
    }
  }

  /** Names stay unique under insertion. */
  lemma InsertKeepsDistinct(its: seq<Item>, name: string, d: ArgData)
    requires Distinct(Names(its))
    ensures Distinct(Names(Inserted(its, name, d)))
  {
    InsertedNames(its, name, d);
    if name !in Names(its) {
      DistinctSnoc(Names(its), name);
    }
  }

  /** A sequence that has the slots `Inserted` describes is the insert. */
  lemma InsertedFromSlots(its: seq<Item>, r: seq<Item>, name: string, d: ArgData)
    requires Distinct(Names(its))
    requires |r| == if name in Names(its) then |its| else |its| + 1
    requires forall i :: 0 <= i < |its| ==> r[i] == if its[i].name == name then Item(name, d, false) else its[i]
    requires name !in Names(its) ==> r[|its|] == Item(name, d, false)
    ensures r == Inserted(its, name, d)
  {
    var e := Inserted(its, name, d);
    InsertedNames(its, name, d);
    assert |e| == |r|;
    forall i | 0 <= i < |r| ensures r[i] == e[i] {
      if i < |its| {
        InsertedAt(its, name, d, i);
      }
    }
  }

  /** A sequence that has the slots `Poked` describes is the poke. */
  lemma PokedFromSlots(its: seq<Item>, r: seq<Item>, name: string, t: TypeTag)
    requires Distinct(Names(its))
    requires |r| == |its|
    requires forall i :: 0 <= i < |its| ==>
      r[i] == its[i].(used := its[i].used || (its[i].name == name && Lookup(its, name, t).Ok?))
    ensures r == Poked(its, name, t)
  {
    var e := Poked(its, name, t);
    forall i | 0 <= i < |r| ensures r[i] == e[i] {
      PokedAt(its, name, t, i);
    }
  }

  /** A sequence whose slots are those of `its` with the flag cleared is
      the reset. */
  lemma ResetFromSlots(its: seq<Item>, r: seq<Item>)
    requires |r| == |its|
    requires forall i :: 0 <= i < |its| ==> r[i] == its[i].(used := false)
    ensures r == Reset(its)
  {
  }

  /** The inserted entry starts unused, whatever the old entry's flag. */
  lemma InsertedIsUnused(its: seq<Item>, name: string, d: ArgData)
    requires Distinct(Names(its))
    ensures name in NamesWhere(Inserted(its, name, d), false)
    ensures name !in NamesWhere(Inserted(its, name, d), true)
  {
    var r := Inserted(its, name, d);
    var k: nat;
    if name in Names(its) {
      k :| k < |its| && Names(its)[k] == name;
      InsertedAt(its, name, d, k);
    } else {
      k := |its|;
    }
    assert r[k].name == name && !r[k].used;
    forall j | 0 <= j < |r| && r[j].name == name ensures !r[j].used {
      if j < |its| {
        InsertedAt(its, name, d, j);
      }
    }
  }

  // ---------------------------------------------------------------------
  // Poke

  /** With unique names, a poke sets the flag of the entry holding the name
      when it holds type `t`, and leaves every other flag as it was. */
  lemma {:induction false} PokedAt(its: seq<Item>, name: string, t: TypeTag, i: nat)
    requires Distinct(Names(its)) && i < |its|
    ensures Poked(its, name, t)[i].used == (its[i].used || (its[i].name == name && Lookup(its, name, t).Ok?))
  {
    if its[0].name == name {
      if i > 0 {
        assert Names(its)[0] != Names(its)[i];
      }
    } else if i > 0 {
      DistinctTail(its);
      PokedAt(its[1..], name, t, i - 1);
    }
  }

  /** A poke never changes what any lookup returns. */
  lemma PokeKeepsLookups(its: seq<Item>, name: string, t: TypeTag, other: string, u: TypeTag)
    ensures Lookup(Poked(its, name, t), other, u) == Lookup(its, other, u)
  {
    LookupIgnoresFlags(Poked(its, name, t), its, other, u);
  }

  /** Poking twice has the effect of poking once. */
  lemma {:induction false} PokeIdempotent(its: seq<Item>, name: string, t: TypeTag)
    ensures Poked(Poked(its, name, t), name, t) == Poked(its, name, t)
  {
    if its != [] && its[0].name != name {
      PokeIdempotent(its[1..], name, t);
    }
  }

  /** A successful poke moves the name to the used names; a failed one
      leaves the usage queries as they were. */
  lemma PokeMarksUsed(its: seq<Item>, name: string, t: TypeTag)
    requires Distinct(Names(its))
    ensures Lookup(its, name, t).Ok? ==>
      name in NamesWhere(Poked(its, name, t), true) && name !in NamesWhere(Poked(its, name, t), false)
    ensures Lookup(its, name, t).Err? ==>
      NamesWhere(Poked(its, name, t), true) == NamesWhere(its, true) &&
      NamesWhere(Poked(its, name, t), false) == NamesWhere(its, false)
  {
    var r := Poked(its, name, t);
    if Lookup(its, name, t).Ok? {
      assert name in Names(its);
      var k :| 0 <= k < |its| && Names(its)[k] == name;
      PokedAt(its, name, t, k);
      assert r[k].name == name && r[k].used;
      forall j | 0 <= j < |r| && r[j].name == name ensures r[j].used {
        PokedAt(its, name, t, j);
      }
    }
  }

  // ---------------------------------------------------------------------
  // Usage queries

  /** `all_used` holds exactly when no name is reported as unused. */
  lemma AllUsedIffNoneUnused(its: seq<Item>)
    ensures AllUsed(its) <==> NamesWhere(its, false) == []
  {
    if !AllUsed(its) {
      var i :| 0 <= i < |its| && !its[i].used;
      assert its[i].name in NamesWhere(its, false);
    }
  }

  /** The used and the unused names together are the key sequence, each
      name exactly as often as it occurs there. */
  lemma {:induction false} UsagePartition(its: seq<Item>)
    ensures multiset(NamesWhere(its, true)) + multiset(NamesWhere(its, false)) == multiset(Names(its))
    ensures |NamesWhere(its, true)| + |NamesWhere(its, false)| == |its|
  {
    if its != [] {
      UsagePartition(its[1..]);
      assert Names(its) == [its[0].name] + Names(its[1..]);
    }
  }

  // ---------------------------------------------------------------------
  // Reset

  /** After a reset every name is unused, and `all_used` holds only of an
      empty container. */
  lemma {:induction false} ResetClearsUsage(its: seq<Item>)
    ensures NamesWhere(Reset(its), false) == Names(its)
    ensures NamesWhere(Reset(its), true) == []
    ensures AllUsed(Reset(its)) <==> its == []
  {
    if its != [] {
      ResetClearsUsage(its[1..]);
      assert Reset(its) == [its[0].(used := false)] + Reset(its[1..]);
      assert Reset(its)[0].used == false;
    }
  }

  /** A reset changes no lookup. */
  lemma ResetKeepsLookups(its: seq<Item>, name: string, t: TypeTag)
    ensures Lookup(Reset(its), name, t) == Lookup(its, name, t)
  {
    LookupIgnoresFlags(Reset(its), its, name, t);
  }

  // ---------------------------------------------------------------------
  // The crate's usage test, on values

  /** Two `i32` entries, the first poked: it is the only used name, and
      not every entry is used. */
  lemma UsageScenario()
    ensures
      var its := Poked(Inserted(Inserted([], "nice", ArgData(DI32(69))), "wow", ArgData(DI32(42))), "nice", TI32);
      && NamesWhere(its, false) == ["wow"]
      && NamesWhere(its, true) == ["nice"]
      && !AllUsed(its)
  {
    var s0 := Inserted([], "nice", ArgData(DI32(69)));
    assert s0 == [Item("nice", ArgData(DI32(69)), false)];
    var s1 := Inserted(s0, "wow", ArgData(DI32(42)));
    assert s1 == [Item("nice", ArgData(DI32(69)), false), Item("wow", ArgData(DI32(42)), false)];
    var s2 := Poked(s1, "nice", TI32);
    assert s2 == [Item("nice", ArgData(DI32(69)), true), Item("wow", ArgData(DI32(42)), false)];
  }
}
