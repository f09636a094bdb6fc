/** server/ingest/ingest.go: the loader. It upserts the pipeline's output files into the
    document store, one directory or file per stage, optionally after dropping the collections it
    fills, and finally splices each collection's member list into its stored document. */
module Ingest {
  import opened Common
  import opened Json
  import opened Fold
  import opened Store
  import Collection

  /** The two files of the output directory that are not entity documents. */
  const ClassLink := "class-link.json"
  const ColEntities := "collection-entities.json"

  // ================================================================ ingestFromDir

  /** What ingestFromDir does with one directory entry: entries that are not `.json`, are in the
      exclusion list, or have an empty id are passed over; a read or upsert error ends the pass;
      otherwise the document is stored under its id. */
  function Load(e: Entry, col: string, idfield: string, excl: seq<string>, noWrite: set<string>,
                lib: JsonLib): (r: Keyed<Value>)
    ensures r.Skip? <==>
              !IsJsonName(e.name) || e.name in excl || (e.content.Some? && lib.Get(e.content.value, [idfield]) == "")
    ensures r.Put? ==>
              && e.content.Some?
              && r.key == lib.Get(e.content.value, [idfield]) && r.key != ""
              && r.value == lib.decode(e.content.value)
    ensures r.Halt? ==> r.outcome == (if e.content.None? then Failed(ReadFailed(e.name)) else Failed(UpsertFailed(col, lib.Get(e.content.value, [idfield]))))
  {
    if !IsJsonName(e.name) || e.name in excl then Skip
    else match e.content
      case None => Halt(Failed(ReadFailed(e.name)))
      case Some(text) =>
        var id := lib.Get(text, [idfield]);
        if id == "" then Skip
        else if col in noWrite || !lib.valid(text) then Halt(Failed(UpsertFailed(col, id)))
        else Put(id, lib.decode(text))
  }

  function Loads(col: string, idfield: string, excl: seq<string>, noWrite: set<string>, lib: JsonLib): Entry -> Keyed<Value> {
    (e: Entry) => Load(e, col, idfield, excl, noWrite, lib)
  }

  /** The documents of the collection after loading the entries `es` into `docs`. */
  function DirLoaded(docs: map<string, Value>, es: seq<Entry>, col: string, idfield: string, excl: seq<string>,
                     noWrite: set<string>, lib: JsonLib): Pass<map<string, Value>> {
    Run(es, docs, KeyedSteps(Loads(col, idfield, excl, noWrite, lib)))
  }

  /** ingestFromDir(DB, Col, dpath, idfield, exclfiles...): `listing` is dpath's entries; `nFile`
      is the count it logs. A file just read is taken to open and close without error. */
  method IngestFromDir(db: Db, col: string, listing: Option<seq<Entry>>, idfield: string, excl: seq<string>,
                       lib: JsonLib) returns (res: Outcome, nFile: nat)
    modifies db
    ensures listing.None? ==> res == Failed(ListFailed) && db.cols == old(db.cols)
    ensures listing.Some? ==>
              var p := DirLoaded(Stored(old(db.cols), col), listing.value, col, idfield, excl, db.noWrite, lib);
              && res == OutcomeOf(p)
              && db.cols == Filled(old(db.cols), col, p.state)
              && (res == Done ==> nFile == Puts(listing.value, Loads(col, idfield, excl, db.noWrite, lib)))
  {
    if listing.None? {
      return Failed(ListFailed), 0;
    }
    var des := listing.value;
    ghost var f := Loads(col, idfield, excl, db.noWrite, lib);
    ghost var d0 := Stored(db.cols, col);
    ghost var c0 := db.cols;
    ghost var m := d0;
    nFile := 0;
    var i := 0;
    while i < |des|
      invariant 0 <= i <= |des|
      invariant Run(des[..i], d0, KeyedSteps(f)) == Going(m)
      invariant db.cols == Filled(c0, col, m)
      invariant nFile == Puts(des[..i], f)
    {
      var de := des[i];
      RunExtend(des, i, d0, KeyedSteps(f), m);
      assert KeyedSteps(f)(de, m) == KeyedStep(Load(de, col, idfield, excl, db.noWrite, lib), m);
      assert des[..i + 1][..i] == des[..i];
      if !IsJsonName(de.name) || de.name in excl {
        i := i + 1;
        continue;
      }
      if de.content.None? {
        RunStopped(des, i + 1, d0, KeyedSteps(f));
        return Failed(ReadFailed(de.name)), nFile;
      }
      var data := de.content.value;
      var id := lib.Get(data, [idfield]);
      if |id| == 0 {
        i := i + 1;
        continue;
      }
      var ok := db.Upsert(col, id, data, lib);
      if !ok {
        RunStopped(des, i + 1, d0, KeyedSteps(f));
        return Failed(UpsertFailed(col, id)), nFile;
      }
      ghost var m' := m[id := lib.decode(data)];
      assert id in m';
      FilledTwice(c0, col, m, m');
      m := m';
      nFile := nFile + 1;
      i := i + 1;
    }
    assert des[..|des|] == des;
    return Done, nFile;
  }

  /** A completed directory load: no eligible file failed; the ids stored are the earlier ones
      and those of the files upserted; each upserted id holds the document of the LAST file with
      that id, replaced or newly inserted; every other document is unchanged. */
  lemma DirDone(docs: map<string, Value>, es: seq<Entry>, col: string, idfield: string, excl: seq<string>,
                noWrite: set<string>, lib: JsonLib)
    requires DirLoaded(docs, es, col, idfield, excl, noWrite, lib).Going?
    ensures var m := DirLoaded(docs, es, col, idfield, excl, noWrite, lib).state;
            var f := Loads(col, idfield, excl, noWrite, lib);
            && (forall i :: 0 <= i < |es| ==> !f(es[i]).Halt?)
            && (forall k :: k in m <==> k in docs || exists i :: 0 <= i < |es| && f(es[i]).Put? && f(es[i]).key == k)
            && (forall i ::
                  (0 <= i < |es| && f(es[i]).Put?
                   && forall j :: i < j < |es| && f(es[j]).Put? ==> f(es[j]).key != f(es[i]).key)
                  ==> m[f(es[i]).key] == f(es[i]).value)
            && (forall k :: k in docs && (forall i :: 0 <= i < |es| && f(es[i]).Put? ==> f(es[i]).key != k) ==>
                  m[k] == docs[k])
  {
    var f := Loads(col, idfield, excl, noWrite, lib);
    KeyedNoHalt(es, docs, f);
    KeyedKeys(es, docs, f);
    KeyedLastWins(es, docs, f);
    KeyedUntouched(es, docs, f);
  }

  /** The first read or upsert error ends the load: it is the error of one entry, every entry
      before it went through, and nothing after it was loaded. */
  lemma DirStops(docs: map<string, Value>, es: seq<Entry>, col: string, idfield: string, excl: seq<string>,
                 noWrite: set<string>, lib: JsonLib)
    requires DirLoaded(docs, es, col, idfield, excl, noWrite, lib).Stopped?
    ensures var p := DirLoaded(docs, es, col, idfield, excl, noWrite, lib);
            var f := Loads(col, idfield, excl, noWrite, lib);
            exists k :: 0 <= k < |es| && f(es[k]).Halt? && p.outcome == f(es[k]).outcome
                        && DirLoaded(docs, es[..k], col, idfield, excl, noWrite, lib) == Going(p.state)
  {
    var f := Loads(col, idfield, excl, noWrite, lib);
    RunStopsAt(es, docs, KeyedSteps(f));
    var k :| 0 <= k < |es| && Run(es[..k], docs, KeyedSteps(f)).Going?
             && Run(es, docs, KeyedSteps(f)) == KeyedSteps(f)(es[k], Run(es[..k], docs, KeyedSteps(f)).state);
    assert KeyedSteps(f)(es[k], Run(es[..k], docs, KeyedSteps(f)).state)
        == KeyedStep(f(es[k]), Run(es[..k], docs, KeyedSteps(f)).state);
  }

  // ================================================================ ingestFromFile

  /** ingestFromFile(DB, Col, fpath, idfield) as a step on the store: a path that is not
      `.json` is a no-op; the document is upserted even when its id is empty. */
  function FileLoaded(cols: Cols, file: Entry, col: string, idfield: string, noWrite: set<string>,
                      lib: JsonLib): Pass<Cols> {
    if !IsJsonName(file.name) then Going(cols)
    else match file.content
      case None => Stopped(cols, Failed(ReadFailed(file.name)))
      case Some(text) =>
        var id := lib.Get(text, [idfield]);
        if col in noWrite || !lib.valid(text) then Stopped(cols, Failed(UpsertFailed(col, id)))
        else Going(Filled(cols, col, Stored(cols, col)[id := lib.decode(text)]))
  }

  method IngestFromFile(db: Db, col: string, file: Entry, idfield: string, lib: JsonLib) returns (res: Outcome)
    modifies db
    ensures var p := FileLoaded(old(db.cols), file, col, idfield, db.noWrite, lib);
            res == OutcomeOf(p) && db.cols == p.state
  {
    if !IsJsonName(file.name) {
      return Done;
    }
    if file.content.None? {
      return Failed(ReadFailed(file.name));
    }
    var data := file.content.value;
    var id := lib.Get(data, [idfield]);
    var ok := db.Upsert(col, id, data, lib);
    if !ok {
      return Failed(UpsertFailed(col, id));
    }
    return Done;
  }

  /** A loaded file is stored under its id, the empty id included, and nothing else changes. */
  lemma FileStored(cols: Cols, file: Entry, col: string, idfield: string, noWrite: set<string>, lib: JsonLib)
    requires IsJsonName(file.name) && FileLoaded(cols, file, col, idfield, noWrite, lib).Going?
    ensures var c := FileLoaded(cols, file, col, idfield, noWrite, lib).state;
            var id := lib.Get(file.content.value, [idfield]);
            && id in Stored(c, col) && Stored(c, col)[id] == lib.decode(file.content.value)
            && (forall k :: k in Stored(cols, col) && k != id ==> k in Stored(c, col) && Stored(c, col)[k] == Stored(cols, col)[k])
            && (forall n :: n != col ==> Stored(c, n) == Stored(cols, n))
  {
  }

  // ================================================================ ingestAll

  /** One stage of ingestAll. */
  datatype Stage =
    | FromDir(col: string, listing: Option<seq<Entry>>, idfield: string, excl: seq<string>)
    | FromFile(col: string, file: Entry, idfield: string)

  function StageStep(s: Stage, cols: Cols, noWrite: set<string>, lib: JsonLib): Pass<Cols> {
    match s
    case FromDir(col, listing, idfield, excl) =>
      if listing.None? then Stopped(cols, Failed(ListFailed))
      else (match DirLoaded(Stored(cols, col), listing.value, col, idfield, excl, noWrite, lib)
        case Going(m) => Going(Filled(cols, col, m))
        case Stopped(m, o) => Stopped(Filled(cols, col, m), o))
    case FromFile(col, file, idfield) => FileLoaded(cols, file, col, idfield, noWrite, lib)
  }

  function StageSteps(noWrite: set<string>, lib: JsonLib): (Stage, Cols) -> Pass<Cols> {
    (s: Stage, cols: Cols) => StageStep(s, cols, noWrite, lib)
  }

  /** The output directory ./data/out as the loader finds it: the listings of its entity,
      path-value and collection directories and the contents of its two special files. */
  datatype OutDir = OutDir(
    entities: Option<seq<Entry>>,      // ./data/out
    classLink: Option<string>,         // ./data/out/class-link.json
    pathVal: Option<seq<Entry>>,       // ./data/out/path_val
    collections: Option<seq<Entry>>,   // ./data/out/collections
    colPathVal: Option<seq<Entry>>,    // ./data/out/collections/path_val
    colEntities: Option<string>)       // ./data/out/collection-entities.json

  /** The stages of ingestAll, in order. */
  function Stages(d: OutDir): seq<Stage> {
    [ FromDir("entities", d.entities, "Entity", [ClassLink, ColEntities]),
      FromFile("class", Entry(ClassLink, d.classLink), "RefName"),
      FromDir("pathval", d.pathVal, "Entity", []),
      FromDir("collections", d.collections, "Entity", [ClassLink, ColEntities]),
      FromDir("pathval", d.colPathVal, "Entity", []),
      FromFile("colentities", Entry(ColEntities, d.colEntities), "RefName") ]
  }

  /** What ingestAll does to a store `c0`, ending in `c` with `res`: the stages in order, the
      first error returned with no later stage run; after the last stage, the back-fill. */
  predicate AllLoaded(c0: Cols, d: OutDir, noRead: set<string>, noWrite: set<string>, lib: JsonLib, c: Cols, res: Outcome) {
    var p := Run(Stages(d), c0, StageSteps(noWrite, lib));
    && (p.Stopped? ==> res == p.outcome && c == p.state)
    && (p.Going? ==> BackFilled(p.state, noRead, noWrite, c, res))
  }

  /** No stage stops with success. */
  lemma StagesStopWithError(d: OutDir, c0: Cols, noWrite: set<string>, lib: JsonLib)
    ensures var p := Run(Stages(d), c0, StageSteps(noWrite, lib));
            p.Stopped? ==> p.outcome != Done
  {
    var step := StageSteps(noWrite, lib);
    forall s: Stage, t: Cols | step(s, t).Stopped?
      ensures step(s, t).outcome != Done
    {
      match s
      case FromDir(col, listing, idfield, excl) =>
        if listing.Some? {
          var f := Loads(col, idfield, excl, noWrite, lib);
          forall x: Entry, u: map<string, Value> | KeyedSteps(f)(x, u).Stopped?
            ensures KeyedSteps(f)(x, u).outcome != Done
          {
            assert KeyedSteps(f)(x, u) == KeyedStep(f(x), u);
          }
          RunStopsWithError(listing.value, Stored(t, col), KeyedSteps(f));
        }
      case FromFile(_, _, _) =>
    }
    RunStopsWithError(Stages(d), c0, step);
  }

  /** ingestAll(DB): the load stages, then the back-fill. */
  method IngestAll(db: Db, d: OutDir, lib: JsonLib) returns (res: Outcome)
    modifies db
    ensures AllLoaded(old(db.cols), d, db.noRead, db.noWrite, lib, db.cols, res)
  {
    StagesStopWithError(d, db.cols, db.noWrite, lib);
    res := LoadStages(db, d, lib);
    if res != Done {
      return;
    }
    res := ColEntitiesToCollections(db);
  }

  /** The six load stages of ingestAll, in order, each returning its error at once. The Go
      function spells out six calls of the same shape; here they run from the list `Stages(d)`. */
  method LoadStages(db: Db, d: OutDir, lib: JsonLib) returns (res: Outcome)
    modifies db
    ensures var p := Run(Stages(d), old(db.cols), StageSteps(db.noWrite, lib));
            res == OutcomeOf(p) && db.cols == p.state
  {
    var stages := Stages(d);
    ghost var step := StageSteps(db.noWrite, lib);
    ghost var c0 := db.cols;
    StagesStopWithError(d, c0, db.noWrite, lib);
    var i := 0;
    while i < |stages|
      invariant 0 <= i <= |stages|
      invariant Run(stages[..i], c0, step) == Going(db.cols)
    {
      ghost var c := db.cols;
      res := LoadStage(db, stages[i], lib);
      assert step(stages[i], c) == StageStep(stages[i], c, db.noWrite, lib);
      RunNext(stages, i, c0, step, c);
      if res != Done {
        return;
      }
      i := i + 1;
    }
    assert stages[..|stages|] == stages;
    return Done;
  }

  /** One stage: ingestFromDir or ingestFromFile. */
  method LoadStage(db: Db, s: Stage, lib: JsonLib) returns (res: Outcome)
    modifies db
    ensures var p := StageStep(s, old(db.cols), db.noWrite, lib);
            res == OutcomeOf(p) && db.cols == p.state
  {
    match s
    case FromDir(col, listing, idfield, excl) =>
      var nFile;
      res, nFile := IngestFromDir(db, col, listing, idfield, excl, lib);
    case FromFile(col, file, idfield) =>
      res := IngestFromFile(db, col, file, idfield, lib);
  }

  /** An output directory that cannot be listed ends ingestAll before anything is stored. */
  lemma NoOutputNoChange(d: OutDir, c0: Cols, noWrite: set<string>, lib: JsonLib)
    requires d.entities.None?
    ensures Run(Stages(d), c0, StageSteps(noWrite, lib)) == Stopped(c0, Failed(ListFailed))
  {
    var xs := Stages(d);
    assert xs[..0] == [];
    RunNext(xs, 0, c0, StageSteps(noWrite, lib), c0);
  }

  // ================================================================ clearDb

  /** The collections clearDb drops, in order. */
  const ClearOrder: seq<string> := ["pathval", "class", "colentities", "collections", "entities"]

  function DropStep(col: string, cols: Cols, noWrite: set<string>): Pass<Cols> {
    if col in noWrite then Stopped(cols, Failed(DropFailed(col))) else Going(cols - {col})
  }

  function DropSteps(noWrite: set<string>): (string, Cols) -> Pass<Cols> {
    (col: string, cols: Cols) => DropStep(col, cols, noWrite)
  }

  /** The store after dropping `names` in order. */
  function Dropped(cols: Cols, names: seq<string>, noWrite: set<string>): Pass<Cols> {
    Run(names, cols, DropSteps(noWrite))
  }

  /** clearDb(DB) */
  method ClearDb(db: Db) returns (res: Outcome)
    modifies db
    ensures var p := Dropped(old(db.cols), ClearOrder, db.noWrite);
            res == OutcomeOf(p) && db.cols == p.state
  {
    ghost var c0 := db.cols;
    assert ClearOrder[..0] == [];
    var ok := DropNext(db, "pathval", c0, 0);
    if !ok {
      return Failed(DropFailed("pathval"));
    }
    ok := DropNext(db, "class", c0, 1);
    if !ok {
      return Failed(DropFailed("class"));
    }
    ok := DropNext(db, "colentities", c0, 2);
    if !ok {
      return Failed(DropFailed("colentities"));
    }
    ok := DropNext(db, "collections", c0, 3);
    if !ok {
      return Failed(DropFailed("collections"));
    }
    ok := DropNext(db, "entities", c0, 4);
    if !ok {
      return Failed(DropFailed("entities"));
    }
    assert ClearOrder[..5] == ClearOrder;
    return Done;
  }

  /** One `DB.DropCol` of clearDb, the `i`-th, from a store `c0` that the earlier drops have
      turned into the current one. */
  method DropNext(db: Db, col: string, ghost c0: Cols, ghost i: nat) returns (ok: bool)
    requires i < |ClearOrder| && col == ClearOrder[i]
    requires Dropped(c0, ClearOrder[..i], db.noWrite) == Going(db.cols)
    modifies db
    ensures ok ==> Dropped(c0, ClearOrder[..i + 1], db.noWrite) == Going(db.cols)
    ensures !ok ==> Dropped(c0, ClearOrder, db.noWrite) == Stopped(db.cols, Failed(DropFailed(col)))
  {
    ghost var c := db.cols;
    ok := db.Drop(col);
    RunNext(ClearOrder, i, c0, DropSteps(db.noWrite), c);
  }

  /** Dropping in order completes exactly when no name is refused. */
  lemma {:induction false} DroppedGoing(cols: Cols, names: seq<string>, noWrite: set<string>)
    ensures Dropped(cols, names, noWrite).Going? <==> forall i :: 0 <= i < |names| ==> names[i] !in noWrite
    decreases |names|
  {
    if names != [] {
      var pre := names[..|names| - 1];
      DroppedGoing(cols, pre, noWrite);
      if Dropped(cols, pre, noWrite).Going? {
        assert Dropped(cols, names, noWrite) == DropStep(names[|names| - 1], Dropped(cols, pre, noWrite).state, noWrite);
      }
      assert forall i :: 0 <= i < |pre| ==> pre[i] == names[i];
    }
  }

  /** A completed drop leaves every named collection gone and the others untouched. */
  lemma {:induction false} DroppedState(cols: Cols, names: seq<string>, noWrite: set<string>)
    requires Dropped(cols, names, noWrite).Going?
    ensures Dropped(cols, names, noWrite).state == cols - (set n | n in names)
    decreases |names|
  {
    if names == [] {
      assert (set n | n in names) == {};
    } else {
      var pre := names[..|names| - 1];
      var last := names[|names| - 1];
      assert Dropped(cols, pre, noWrite).Going?;
      DroppedState(cols, pre, noWrite);
      assert Dropped(cols, names, noWrite) == DropStep(last, Dropped(cols, pre, noWrite).state, noWrite);
      assert names == pre + [last];
      assert (set n | n in names) == (set n | n in pre) + {last};
    }
  }

  /** A drop that fails stops at the first refused name, the names before it dropped. */
  lemma DroppedStops(cols: Cols, names: seq<string>, noWrite: set<string>)
    requires Dropped(cols, names, noWrite).Stopped?
    ensures exists k :: 0 <= k < |names| && names[k] in noWrite
                        && (forall j :: 0 <= j < k ==> names[j] !in noWrite)
                        && Dropped(cols, names, noWrite) == Stopped(cols - (set n | n in names[..k]), Failed(DropFailed(names[k])))
  {
    RunStopsAt(names, cols, DropSteps(noWrite));
    var k :| 0 <= k < |names| && Dropped(cols, names[..k], noWrite).Going?
             && Dropped(cols, names, noWrite) == DropSteps(noWrite)(names[k], Dropped(cols, names[..k], noWrite).state);
    DroppedGoing(cols, names[..k], noWrite);
    DroppedState(cols, names[..k], noWrite);
    assert forall j :: 0 <= j < k ==> names[..k][j] == names[j];
  }

  // ================================================================ colEntitiesToCollections

  /** The membership map: the CollectionEntities document of `colentities` without its `_id`
      and `RefName` members; None when there is no such object document. */
  function Membership(docs: map<string, Value>): Option<map<string, Value>> {
    if "CollectionEntities" in docs && docs["CollectionEntities"].Obj?
    then Some(docs["CollectionEntities"].fields - {"_id"} - {"RefName"})
    else None
  }

  /** `(*colEntities)[entity].(primitive.A)` and each element's `.(string)`: the member list of
      a collection, or None when either type assertion fails (a missing key included). */
  function MembersFor(f: map<string, Value>, entity: string): Option<seq<string>> {
    if entity in f && f[entity].Arr? && forall i :: 0 <= i < |f[entity].items| ==> f[entity].items[i].Str?
    then Some(seq(|f[entity].items|, i requires 0 <= i < |f[entity].items| && f[entity].items[i].Str? => f[entity].items[i].s))
    else None
  }

  /** The `Entities` a stored collection document already lists. */
  function EntitiesOf(doc: Value): seq<string> {
    if doc.Obj? && "Entities" in doc.fields then
      match MembersFor(doc.fields, "Entities")
      case Some(xs) => xs
      case None => []
    else []
  }

  /** The document with its `Entities` member set to `ents`. */
  function WithEntities(doc: Value, ents: seq<string>): Value {
    Obj((if doc.Obj? then doc.fields else map[])["Entities" := Arr(seq(|ents|, i requires 0 <= i < |ents| => Str(ents[i])))])
  }

  /** A collection document after the back-fill: its members appended after the existing
      ones, rewritten only when the list is non-empty. */
  function Spliced(doc: Value, members: seq<string>): Value {
    var ents := EntitiesOf(doc) + members;
    if |ents| > 0 then WithEntities(doc, ents) else doc
  }

  /** Every collection document back-filled from the membership map `f`. */
  function AllSpliced(docs: map<string, Value>, f: map<string, Value>): map<string, Value> {
    map k | k in docs :: Spliced(docs[k], if MembersFor(f, k).Some? then MembersFor(f, k).value else [])
  }

  /** Whether collection `k` has a document to rewrite. */
  predicate Rewrites(docs: map<string, Value>, f: map<string, Value>, k: string)
    requires k in docs && MembersFor(f, k).Some?
  {
    |EntitiesOf(docs[k]) + MembersFor(f, k).value| > 0
  }

  /** Each collection document of `c` is the one of `c0` before or after its back-fill, and
      nothing else differs. */
  predicate PartlySpliced(c0: Cols, c: Cols, f: map<string, Value>) {
    var docs := Stored(c0, "collections");
    && c == Filled(c0, "collections", Stored(c, "collections"))
    && Stored(c, "collections").Keys == docs.Keys
    && forall k :: k in docs ==>
         Stored(c, "collections")[k] == docs[k] || Stored(c, "collections")[k] == AllSpliced(docs, f)[k]
  }

  /** Every stored collection has a member list. */
  predicate AllHaveMembers(docs: map<string, Value>, f: map<string, Value>) {
    forall k :: k in docs ==> MembersFor(f, k).Some?
  }

  /** No stored collection document needs rewriting. */
  predicate NoneRewritten(docs: map<string, Value>, f: map<string, Value>) {
    forall k :: k in docs && MembersFor(f, k).Some? ==> !Rewrites(docs, f, k)
  }

  /** `res` is the failure of one stored collection: a failed type assertion on its members,
      or a refused rewrite of its document. */
  predicate FailedAt(docs: map<string, Value>, f: map<string, Value>, noWrite: set<string>, res: Outcome) {
    exists k :: k in docs &&
      ((MembersFor(f, k).None? && res == Aborted(BadMembers(k)))
       || (MembersFor(f, k).Some? && Rewrites(docs, f, k) && "collections" in noWrite
           && res == Aborted(ReplaceFailed("collections", k))))
  }

  /** The loop over the stored collections, from store `c0` with documents `docs` to store `c`. */
  predicate SplicedAll(docs: map<string, Value>, f: map<string, Value>, noWrite: set<string>, c0: Cols, c: Cols, res: Outcome) {
    && (res == Done <==> AllHaveMembers(docs, f) && ("collections" in noWrite ==> NoneRewritten(docs, f)))
    && (res == Done ==> c == Filled(c0, "collections", AllSpliced(docs, f)))
    && (res != Done ==> PartlySpliced(c0, c, f) && FailedAt(docs, f, noWrite, res))
  }

  /** What colEntitiesToCollections does to store `c0`, ending in `c` with `res`. Every
      failure terminates the process (Aborted). The stored collections are visited in an
      order the store chooses, so on a failure it is only known that the failing collection
      exists and that each document is either untouched or back-filled. */
  predicate BackFilled(c0: Cols, noRead: set<string>, noWrite: set<string>, c: Cols, res: Outcome) {
    if "colentities" in noRead then res == Aborted(FindFailed("colentities")) && c == c0
    else match Membership(Stored(c0, "colentities"))
      case None => res == Aborted(NoMembership) && c == c0
      case Some(f) =>
        if "collections" in noRead then res == Aborted(FindFailed("collections")) && c == c0
        else SplicedAll(Stored(c0, "collections"), f, noWrite, c0, c, res)
  }

  /** colEntitiesToCollections(DB) */
  method ColEntitiesToCollections(db: Db) returns (res: Outcome)
    modifies db
    ensures BackFilled(old(db.cols), db.noRead, db.noWrite, db.cols, res)
  {
    var ok, entDocs := db.Find("colentities");
    if !ok {
      return Aborted(FindFailed("colentities"));
    }
    if "CollectionEntities" !in entDocs || !entDocs["CollectionEntities"].Obj? {
      return Aborted(NoMembership);
    }
    var colEntities := entDocs["CollectionEntities"].fields;
    colEntities := colEntities - {"_id"};
    colEntities := colEntities - {"RefName"};
    assert Membership(entDocs) == Some(colEntities);

    var collections;
    ok, collections := db.Find("collections");
    if !ok {
      return Aborted(FindFailed("collections"));
    }
    res := SpliceAll(db, collections, colEntities);
  }

  /** The `for _, col := range collections` loop of colEntitiesToCollections. */
  method SpliceAll(db: Db, collections: map<string, Value>, colEntities: map<string, Value>) returns (res: Outcome)
    requires collections == Stored(db.cols, "collections")
    modifies db
    ensures SplicedAll(collections, colEntities, db.noWrite, old(db.cols), db.cols, res)
  {
    ghost var c0 := db.cols;
    ghost var cur := collections;
    var todo := collections.Keys;
    while todo != {}
      invariant todo <= collections.Keys
      invariant cur.Keys == collections.Keys
      invariant db.cols == Filled(c0, "collections", cur)
      invariant forall k :: k in todo ==> cur[k] == collections[k]
      invariant forall k :: k in collections && k !in todo ==>
                  && MembersFor(colEntities, k).Some?
                  && ("collections" in db.noWrite ==> !Rewrites(collections, colEntities, k))
                  && cur[k] == Spliced(collections[k], MembersFor(colEntities, k).value)
      decreases todo
    {
      var entity :| entity in todo;
      res := SpliceOne(db, entity, collections[entity], colEntities);
      if res != Done {
        SpliceFailed(c0, cur, collections, colEntities, db.noWrite, entity, res);
        return res;
      }
      ghost var next := cur[entity := Spliced(collections[entity], MembersFor(colEntities, entity).value)];
      assert entity in next;
      FilledTwice(c0, "collections", cur, next);
      cur := next;
      todo := todo - {entity};
    }
    SpliceDone(c0, cur, collections, colEntities, db.noWrite);
    return Done;
  }

  /** The body of that loop for one stored collection document `doc`. */
  method SpliceOne(db: Db, entity: string, doc: Value, f: map<string, Value>) returns (res: Outcome)
    requires entity in Stored(db.cols, "collections") && Stored(db.cols, "collections")[entity] == doc
    modifies db
    ensures res == Done <==> MembersFor(f, entity).Some?
                             && ("collections" in db.noWrite ==> |EntitiesOf(doc) + MembersFor(f, entity).value| == 0)
    ensures res == Done ==> db.cols == old(db.cols)["collections" := Stored(old(db.cols), "collections")[entity := Spliced(doc, MembersFor(f, entity).value)]]
    ensures res != Done ==> db.cols == old(db.cols)
    ensures MembersFor(f, entity).None? ==> res == Aborted(BadMembers(entity))
    ensures MembersFor(f, entity).Some? && res != Done ==> res == Aborted(ReplaceFailed("collections", entity))
  {
    var members := MembersOf(f, entity);
    if members.None? {
      return Aborted(BadMembers(entity));
    }
    var ents := EntitiesOf(doc) + members.value;
    if |ents| > 0 {
      var ok := db.Replace("collections", entity, WithEntities(doc, ents));
      if !ok {
        return Aborted(ReplaceFailed("collections", entity));
      }
    } else {
      ghost var docs := Stored(db.cols, "collections");
      assert "collections" in db.cols && db.cols["collections"] == docs;
      assert docs[entity := doc] == docs;
    }
    return Done;
  }

  /** The member list of one collection, built as the Go loop appends each element after its
      type assertion. */
  method MembersOf(f: map<string, Value>, entity: string) returns (r: Option<seq<string>>)
    ensures r == MembersFor(f, entity)
  {
    if entity !in f || !f[entity].Arr? {
      return None;
    }
    var items := f[entity].items;
    var xs: seq<string> := [];
    var i := 0;
    while i < |items|
      invariant 0 <= i <= |items|
      invariant |xs| == i && forall j :: 0 <= j < i ==> items[j].Str? && xs[j] == items[j].s
    {
      if !items[i].Str? {
        return None;
      }
      xs := xs + [items[i].s];
      i := i + 1;
    }
    assert xs == MembersFor(f, entity).value;
    return Some(xs);
  }

  lemma AllSplicedIs(cur: map<string, Value>, docs: map<string, Value>, f: map<string, Value>)
    requires cur.Keys == docs.Keys
    requires forall k :: k in docs ==> MembersFor(f, k).Some? && cur[k] == Spliced(docs[k], MembersFor(f, k).value)
    ensures cur == AllSpliced(docs, f)
  {
  }

  /** A loop that visited every collection without failing ends with what SplicedAll says of
      success. */
  lemma SpliceDone(c0: Cols, cur: map<string, Value>, docs: map<string, Value>, f: map<string, Value>, noWrite: set<string>)
    requires cur.Keys == docs.Keys
    requires forall k :: k in docs ==>
               && MembersFor(f, k).Some?
               && ("collections" in noWrite ==> !Rewrites(docs, f, k))
               && cur[k] == Spliced(docs[k], MembersFor(f, k).value)
    ensures SplicedAll(docs, f, noWrite, c0, Filled(c0, "collections", cur), Done)
  {
    AllSplicedIs(cur, docs, f);
  }

  /** A failure at collection `entity` ends the loop with what SplicedAll says of failures. */
  lemma SpliceFailed(c0: Cols, cur: map<string, Value>, docs: map<string, Value>, f: map<string, Value>,
                     noWrite: set<string>, entity: string, res: Outcome)
    requires docs == Stored(c0, "collections")
    requires cur.Keys == docs.Keys
    requires forall k :: k in docs ==> cur[k] == docs[k] || (MembersFor(f, k).Some? && cur[k] == Spliced(docs[k], MembersFor(f, k).value))
    requires entity in docs
    requires MembersFor(f, entity).None? ==> res == Aborted(BadMembers(entity))
    requires MembersFor(f, entity).Some? ==>
               && "collections" in noWrite && |EntitiesOf(docs[entity]) + MembersFor(f, entity).value| != 0
               && res == Aborted(ReplaceFailed("collections", entity))
    ensures SplicedAll(docs, f, noWrite, c0, Filled(c0, "collections", cur), res)
  {
    SplicedSoFar(c0, cur, docs, f);
    if MembersFor(f, entity).Some? {
      assert Rewrites(docs, f, entity);
    }
  }

  lemma SplicedSoFar(c0: Cols, cur: map<string, Value>, docs: map<string, Value>, f: map<string, Value>)
    requires docs == Stored(c0, "collections")
    requires cur.Keys == docs.Keys
    requires forall k :: k in docs ==> cur[k] == docs[k] || (MembersFor(f, k).Some? && cur[k] == Spliced(docs[k], MembersFor(f, k).value))
    ensures PartlySpliced(c0, Filled(c0, "collections", cur), f)
  {
  }

  /** The membership document DumpCollection writes (the gathered lists plus its RefName
      member) gives each collection that has members exactly its list, and every other
      collection none: for a stored collection that no entity names, the back-fill aborts. */
  lemma DumpedMembership(m: Collection.Lists, k: string)
    requires k != "_id" && k != "RefName"
    ensures var f := Collection.ListsDoc(m).fields["RefName" := Str("CollectionEntities")];
            MembersFor(f - {"_id"} - {"RefName"}, k) == if k in m then Some(m[k]) else None
  {
    Collection.ListsDocRoundTrip(m);
  }

  // ================================================================ IngestViaCmd

  /** How the `./process` command ended, as seen through the five-second select. */
  datatype Command = Finished | Errored | Late

  /** IngestViaCmd(clrdb): `d` is the output directory the command leaves behind. */
  method IngestViaCmd(clrdb: bool, cmd: Command, d: OutDir, db: Db, lib: JsonLib) returns (res: Outcome)
    modifies db
    ensures cmd.Late? ==> res == Failed(TimedOut) && db.cols == old(db.cols)
    ensures cmd.Errored? ==> res == Failed(CommandFailed) && db.cols == old(db.cols)
    ensures cmd.Finished? ==>
              var cleared := if clrdb then Dropped(old(db.cols), ClearOrder, db.noWrite) else Going(old(db.cols));
              && (cleared.Stopped? ==> res == cleared.outcome && db.cols == cleared.state)
              && (cleared.Going? ==> AllLoaded(cleared.state, d, db.noRead, db.noWrite, lib, db.cols, res))
  {
    match cmd
    case Late =>
      return Failed(TimedOut);
    case Errored =>
      return Failed(CommandFailed);
    case Finished =>
      if clrdb {
        res := ClearDb(db);
        if Dropped(old(db.cols), ClearOrder, db.noWrite).Stopped? {
          DroppedStops(old(db.cols), ClearOrder, db.noWrite);
        }
        if res != Done {
          return;
        }
      }
      res := IngestAll(db, d, lib);
  }
}
