/** server/process/collection.go: DumpCollection inverts the entity files' `Collections[i].Name`
    lists into one document mapping each collection name to the stems of its member files,
    tags it with a reference field, and writes it next to the entity files. */
module Collection {
  import opened Common
  import opened Decimal
  import opened Json
  import opened Fold
  import opened Files

  /** mColEntities: collection name -> member file stems. */
  type Lists = map<string, seq<string>>

  /** The list under `c`; a missing key reads as the empty (nil) slice. */
  function ListOf(m: Lists, c: string): seq<string> {
    if c in m then m[c] else []
  }

  /** strings.TrimSuffix(fname, ".json") */
  function Stem(name: string): string {
    TrimSuffix(name, ".json")
  }

  /** gjson.Get(js, "Collections.<i>.Name").String() for every element i of a `Collections`
      array; no names when `Collections` is missing or not an array. */
  function CollectionNames(js: string, lib: JsonLib): (names: seq<string>) {
    match Lookup(lib.decode(js), ["Collections"])
    case Some(Arr(items)) =>
      seq(|items|, i requires 0 <= i < |items| => lib.Get(js, ["Collections", DecimalOf(i), "Name"]))
    case _ => []
  }

  /** mColEntities[c] = append(mColEntities[c], stem) */
  function Appended(m: Lists, c: string, stem: string): Lists {
    m[c := ListOf(m, c) + [stem]]
  }

  /** The inner loop: one append per name, in array order. */
  function AddedAll(m: Lists, names: seq<string>, stem: string): Lists
    decreases |names|
  {
    if names == [] then m
    else Appended(AddedAll(m, names[..|names| - 1], stem), names[|names| - 1], stem)
  }

  /** The collection names of an entry that was read. The properties below hold for any
      such extraction `names`; CollectionNamesMeaning pins down this one. */
  function NamesIn(lib: JsonLib): Entry -> seq<string> {
    (e: Entry) => if e.content.Some? then CollectionNames(e.content.value, lib) else []
  }

  /** One iteration of the outer loop over the directory entries. */
  function GatherStep(e: Entry, m: Lists, names: Entry -> seq<string>): Pass<Lists> {
    if !IsJsonName(e.name) then Going(m)
    else match e.content
      case None => Stopped(m, Failed(ReadFailed(e.name)))
      case Some(_) => Going(AddedAll(m, names(e), Stem(e.name)))
  }

  function GatherSteps(names: Entry -> seq<string>): (Entry, Lists) -> Pass<Lists> {
    (e: Entry, m: Lists) => GatherStep(e, m, names)
  }

  /** The membership lists built from a directory listing. */
  function Gathered(es: seq<Entry>, names: Entry -> seq<string>): Pass<Lists> {
    Run(es, map[], GatherSteps(names))
  }

  lemma AddedAllStep(m: Lists, names: seq<string>, i: nat, stem: string)
    requires i < |names|
    ensures AddedAll(m, names[..i + 1], stem) == Appended(AddedAll(m, names[..i], stem), names[i], stem)
  {
    assert names[..i + 1][..i] == names[..i];
  }

  /** The inner `for i := 0; i < len(r.Array()); i++` loop for one file. */
  method AppendStems(m: Lists, js: string, stem: string, lib: JsonLib) returns (r: Lists)
    ensures r == AddedAll(m, CollectionNames(js, lib), stem)
  {
    r := m;
    var cols := Lookup(lib.decode(js), ["Collections"]);
    if cols.Some? && cols.value.Arr? {
      ghost var names := CollectionNames(js, lib);
      var i := 0;
      while i < |cols.value.items|
        invariant 0 <= i <= |cols.value.items| == |names|
        invariant r == AddedAll(m, names[..i], stem)
      {
        var colName := lib.Get(js, ["Collections", DecimalOf(i), "Name"]);
        assert colName == names[i];
        AddedAllStep(m, names, i, stem);
        r := r[colName := (if colName in r then r[colName] else []) + [stem]];
        i := i + 1;
      }
      assert names[..i] == names;
    }
  }

  /** The outer loop of DumpCollection: on a read error the lists are dropped with the error. */
  method Gather(es: seq<Entry>, lib: JsonLib) returns (res: Outcome, m: Lists)
    ensures var p := Gathered(es, NamesIn(lib));
            res == OutcomeOf(p) && (p.Going? ==> m == p.state)
  {
    ghost var step := GatherSteps(NamesIn(lib));
    m := map[];
    var i := 0;
    while i < |es|
      invariant 0 <= i <= |es|
      invariant Run(es[..i], map[], step) == Going(m)
    {
      var e := es[i];
      RunExtend(es, i, map[], step, m);
      assert step(e, m) == GatherStep(e, m, NamesIn(lib));
      if IsJsonName(e.name) {
        if e.content.None? {
          RunStopped(es, i + 1, map[], step);
          return Failed(ReadFailed(e.name)), m;
        }
        assert NamesIn(lib)(e) == CollectionNames(e.content.value, lib);
        m := AppendStems(m, e.content.value, Stem(e.name), lib);
      }
      i := i + 1;
    }
    assert es[..|es|] == es;
    return Done, m;
  }

  /** The document json.Marshal(mColEntities) encodes. */
  function ListsDoc(m: Lists): Value {
    Obj(map c | c in m :: Arr(seq(|m[c]|, i requires 0 <= i < |m[c]| => Str(m[c][i]))))
  }

  /** DumpCollection(dir, ofname, idfield, idvalue): `listing` is dir's entries and `dir` the
      folder written to. json.Marshal cannot fail on a map of string slices, so its error
      branch is not modelled; `idvalue` is set as a string. */
  method DumpCollection(listing: Option<seq<Entry>>, dir: Folder, ofname: string, idfield: string,
                        idvalue: string, lib: JsonLib) returns (res: Outcome)
    modifies dir
    ensures listing.None? ==> res == Failed(ListFailed) && dir.files == old(dir.files)
    ensures listing.Some? && Gathered(listing.value, NamesIn(lib)).Stopped? ==>
              res == Gathered(listing.value, NamesIn(lib)).outcome && dir.files == old(dir.files)
    ensures listing.Some? && Gathered(listing.value, NamesIn(lib)).Going? ==>
              var set_ := lib.setString(lib.encode(ListsDoc(Gathered(listing.value, NamesIn(lib)).state)), idfield, idvalue);
              && (set_.None? ==> res == Failed(SetFailed) && dir.files == old(dir.files))
              && (set_.Some? ==>
                    && res == (if ofname in dir.rejects then Failed(WriteFailed(ofname)) else Done)
                    && dir.files == Written(old(dir.files), dir.rejects, ofname, set_.value))
  {
    if listing.None? {
      return Failed(ListFailed);
    }
    var r, m := Gather(listing.value, lib);
    RunStopsWithError(listing.value, map[], GatherSteps(NamesIn(lib)));
    if r != Done {
      return r;
    }
    var bytesJS := lib.encode(ListsDoc(m));
    var js := lib.setString(bytesJS, idfield, idvalue);
    if js.None? {
      return Failed(SetFailed);
    }
    var ok := dir.Write(ofname, js.value);
    res := if ok then Done else Failed(WriteFailed(ofname));
  }

  // ================================================================ what the lists hold

  /** `n` copies of `x`. */
  function Repeat(x: string, n: nat): (r: seq<string>)
    ensures |r| == n && forall i :: 0 <= i < n ==> r[i] == x
  {
    seq(n, _ => x)
  }

  /** How many times `c` occurs in `names`. */
  function Occurrences(xs: seq<string>, c: string): nat
    decreases |xs|
  {
    if xs == [] then 0
    else Occurrences(xs[..|xs| - 1], c) + (if xs[|xs| - 1] == c then 1 else 0)
  }

  /** Reference definition of one collection's list: for each `.json` entry in listing order,
      its stem once per occurrence of the collection in its `Collections` names. */
  function MembersOf(es: seq<Entry>, c: string, names: Entry -> seq<string>): seq<string>
    decreases |es|
  {
    if es == [] then []
    else
      var e := es[|es| - 1];
      MembersOf(es[..|es| - 1], c, names)
      + (if IsJsonName(e.name) && e.content.Some?
         then Repeat(Stem(e.name), Occurrences(names(e), c))
         else [])
  }

  lemma {:induction false} OccurrencesIn(names: seq<string>, c: string)
    ensures Occurrences(names, c) > 0 <==> c in names
    decreases |names|
  {
    if names != [] {
      OccurrencesIn(names[..|names| - 1], c);
      assert names == names[..|names| - 1] + [names[|names| - 1]];
    }
  }

  /** The inner loop appends `stem` to each named list once per occurrence and creates the
      lists it names. */
  lemma {:induction false} AddedAllMeaning(m: Lists, names: seq<string>, stem: string)
    ensures forall c :: c in AddedAll(m, names, stem) <==> c in m || c in names
    ensures forall c :: ListOf(AddedAll(m, names, stem), c) == ListOf(m, c) + Repeat(stem, Occurrences(names, c))
    decreases |names|
  {
    if names != [] {
      var pre := names[..|names| - 1];
      var last := names[|names| - 1];
      AddedAllMeaning(m, pre, stem);
      assert names == pre + [last];
      forall c
        ensures ListOf(AddedAll(m, names, stem), c) == ListOf(m, c) + Repeat(stem, Occurrences(names, c))
      {
        if c == last {
          assert Repeat(stem, Occurrences(pre, c)) + [stem] == Repeat(stem, Occurrences(pre, c) + 1);
        }
      }
    } else {
      forall c
        ensures ListOf(AddedAll(m, names, stem), c) == ListOf(m, c) + Repeat(stem, Occurrences(names, c))
      {
        assert Repeat(stem, 0) == [];
      }
    }
  }

  /** After a completed pass, each collection's list is exactly its reference list: members in
      listing order, duplicates kept. */
  lemma {:induction false} GatheredLists(es: seq<Entry>, names: Entry -> seq<string>)
    requires Gathered(es, names).Going?
    ensures forall c :: ListOf(Gathered(es, names).state, c) == MembersOf(es, c, names)
    decreases |es|
  {
    if es != [] {
      var pre := es[..|es| - 1];
      var e := es[|es| - 1];
      assert Gathered(pre, names).Going?;
      GatheredLists(pre, names);
      var t := Gathered(pre, names).state;
      assert Gathered(es, names) == GatherStep(e, t, names);
      if IsJsonName(e.name) {
        AddedAllMeaning(t, names(e), Stem(e.name));
      } else {
        forall c
          ensures ListOf(Gathered(es, names).state, c) == MembersOf(es, c, names)
        {
          assert MembersOf(es, c, names) == MembersOf(pre, c, names) + [];
        }
      }
    } else {
      forall c
        ensures ListOf(Gathered(es, names).state, c) == MembersOf(es, c, names)
      {
      }
    }
  }

  /** Does a `.json` entry that was read name collection `c`? */
  predicate Names(e: Entry, c: string, names: Entry -> seq<string>) {
    IsJsonName(e.name) && e.content.Some? && c in names(e)
  }

  lemma {:induction false} AddedAllKeys(m: Lists, names: seq<string>, stem: string)
    ensures forall c :: c in AddedAll(m, names, stem) <==> c in m || c in names
    decreases |names|
  {
    if names != [] {
      AddedAllKeys(m, names[..|names| - 1], stem);
      assert names == names[..|names| - 1] + [names[|names| - 1]];
    }
  }

  /** The last step of a completed pass. */
  lemma GatherLast(es: seq<Entry>, names: Entry -> seq<string>)
    requires es != [] && Gathered(es, names).Going?
    ensures var pre := es[..|es| - 1];
            var e := es[|es| - 1];
            && Gathered(pre, names).Going?
            && (IsJsonName(e.name) ==> e.content.Some?)
            && Gathered(es, names).state ==
                 if IsJsonName(e.name) then AddedAll(Gathered(pre, names).state, names(e), Stem(e.name))
                 else Gathered(pre, names).state
  {
    var pre := es[..|es| - 1];
    assert Gathered(pre, names).Going?;
    assert Gathered(es, names) == GatherStep(es[|es| - 1], Gathered(pre, names).state, names);
  }

  /** After a completed pass a collection has a list exactly when some file names it. */
  lemma {:induction false} GatheredKeys(es: seq<Entry>, names: Entry -> seq<string>)
    requires Gathered(es, names).Going?
    ensures forall c :: c in Gathered(es, names).state <==> exists i :: 0 <= i < |es| && Names(es[i], c, names)
    decreases |es|
  {
    if es != [] {
      var pre := es[..|es| - 1];
      var e := es[|es| - 1];
      GatherLast(es, names);
      GatheredKeys(pre, names);
      var t := Gathered(pre, names).state;
      var m := Gathered(es, names).state;
      if IsJsonName(e.name) {
        AddedAllKeys(t, names(e), Stem(e.name));
      }
      forall c
        ensures c in m <==> exists i :: 0 <= i < |es| && Names(es[i], c, names)
      {
        if c in t {
          var i :| 0 <= i < |pre| && Names(pre[i], c, names);
          assert es[i] == pre[i];
        } else if c in m {
          assert Names(es[|es| - 1], c, names);
        }
        if exists i :: 0 <= i < |es| && Names(es[i], c, names) {
          var i :| 0 <= i < |es| && Names(es[i], c, names);
          if i < |pre| {
            assert pre[i] == es[i];
          }
        }
      }
    }
  }

  /** Element i of a `Collections` array contributes the Name field of that element. */
  lemma CollectionNamesMeaning(js: string, lib: JsonLib)
    ensures match Lookup(lib.decode(js), ["Collections"])
            case Some(Arr(items)) =>
              var names := CollectionNames(js, lib);
              |names| == |items| && forall i :: 0 <= i < |items| ==> names[i] == lib.TextOf(Lookup(items[i], ["Name"]))
            case _ => CollectionNames(js, lib) == []
  {
    match Lookup(lib.decode(js), ["Collections"])
    case Some(Arr(items)) =>
      forall i | 0 <= i < |items|
        ensures CollectionNames(js, lib)[i] == lib.TextOf(Lookup(items[i], ["Name"]))
      {
        var path := ["Collections", DecimalOf(i), "Name"];
        assert path[1..] == [DecimalOf(i)] + ["Name"];
        LookupIndexed(items, i, ["Name"]);
        assert Lookup(lib.decode(js), path) == Lookup(Lookup(lib.decode(js), ["Collections"]).value, path[1..]) by {
          LookupStep(lib.decode(js), "Collections", path[1..]);
        }
      }
    case _ =>
  }

  lemma LookupStep(v: Value, key: string, rest: seq<string>)
    requires Lookup(v, [key]).Some?
    ensures Lookup(v, [key] + rest) == Lookup(Lookup(v, [key]).value, rest)
  {
    assert ([key] + rest)[1..] == rest;
    assert [key][1..] == [];
  }

  // ================================================================ counting

  /** Every place in every list, as (collection, index): there are as many as the lists'
      lengths add up to. */
  ghost function Slots(m: Lists): set<(string, nat)> {
    set c, i: nat | c in m && i < |m[c]| :: (c, i)
  }

  lemma SlotOf(m: Lists, x: (string, nat))
    ensures x in Slots(m) <==> x.0 in m && x.1 < |m[x.0]|
  {
    if x.0 in m && x.1 < |m[x.0]| {
      assert x == (x.0, x.1);
    }
  }

  /** An append adds exactly one place, at the end of that collection's list. */
  lemma SlotsAppended(m: Lists, c: string, stem: string)
    ensures |Slots(Appended(m, c, stem))| == |Slots(m)| + 1
  {
    var n := |ListOf(m, c)|;
    SlotsGrow(m, Appended(m, c, stem), c, n);
    SlotOf(m, (c, n));
  }

  lemma SlotsGrow(m: Lists, m': Lists, c: string, n: nat)
    requires m'.Keys == m.Keys + {c}
    requires forall k :: k in m && k != c ==> m'[k] == m[k]
    requires |m'[c]| == n + 1 && (if c in m then |m[c]| == n else n == 0)
    ensures Slots(m') == Slots(m) + {(c, n)}
  {
    forall x | x in Slots(m')
      ensures x in Slots(m) + {(c, n)}
    {
      SlotOf(m', x);
      SlotOf(m, x);
    }
    forall x | x in Slots(m) + {(c, n)}
      ensures x in Slots(m')
    {
      SlotOf(m', x);
      SlotOf(m, x);
    }
  }

  lemma {:induction false} SlotsAddedAll(m: Lists, names: seq<string>, stem: string)
    ensures |Slots(AddedAll(m, names, stem))| == |Slots(m)| + |names|
    decreases |names|
  {
    if names != [] {
      SlotsAddedAll(m, names[..|names| - 1], stem);
      SlotsAppended(AddedAll(m, names[..|names| - 1], stem), names[|names| - 1], stem);
    }
  }

  /** Number of `Collections` elements across the `.json` files read. */
  function TotalNames(es: seq<Entry>, names: Entry -> seq<string>): nat
    decreases |es|
  {
    if es == [] then 0
    else
      var e := es[|es| - 1];
      TotalNames(es[..|es| - 1], names)
      + (if IsJsonName(e.name) && e.content.Some? then |names(e)| else 0)
  }

  /** The lists together hold one member per `Collections` element read: nothing is merged. */
  lemma {:induction false} GatheredCount(es: seq<Entry>, names: Entry -> seq<string>)
    requires Gathered(es, names).Going?
    ensures |Slots(Gathered(es, names).state)| == TotalNames(es, names)
    decreases |es|
  {
    if es != [] {
      var pre := es[..|es| - 1];
      var e := es[|es| - 1];
      assert Gathered(pre, names).Going?;
      GatheredCount(pre, names);
      var t := Gathered(pre, names).state;
      assert Gathered(es, names) == GatherStep(e, t, names);
      if IsJsonName(e.name) {
        SlotsAddedAll(t, names(e), Stem(e.name));
      }
    } else {
      assert Gathered(es, names).state == map[];
      assert Slots(map[]) == {};
    }
  }

  /** Duplicates are kept: a file naming a collection twice is listed twice. */
  lemma DuplicatesKept(stem: string)
    ensures ListOf(AddedAll(map[], ["c", "c"], stem), "c") == [stem, stem]
  {
    var two: seq<string> := ["c", "c"];
    AddedAllMeaning(map[], two, stem);
    assert two[..1][..0] == [] && two[..1] == ["c"];
    assert Occurrences(two, "c") == 2;
  }

  // ================================================================ reading the document back

  /** The lists a decoded membership document holds: every member whose value is an array of
      strings. */
  function ListsIn(fields: map<string, Value>): Lists {
    map c | c in fields && fields[c].Arr? && (forall i :: 0 <= i < |fields[c].items| ==> fields[c].items[i].Str?)
      :: seq(|fields[c].items|, i requires 0 <= i < |fields[c].items| && fields[c].items[i].Str? => fields[c].items[i].s)
  }

  /** The encoded document holds exactly the gathered lists. */
  lemma ListsDocRoundTrip(m: Lists)
    ensures ListsDoc(m).Obj? && ListsIn(ListsDoc(m).fields) == m
  {
    var f := ListsDoc(m).fields;
    forall c | c in m
      ensures c in ListsIn(f) && ListsIn(f)[c] == m[c]
    {
      assert f[c].items == seq(|m[c]|, i requires 0 <= i < |m[c]| => Str(m[c][i]));
    }
  }
}
