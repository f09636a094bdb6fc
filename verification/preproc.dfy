/** The two directory passes of server/process/preproc.go: FixFileName copies every source
    file to `<Entity>.json`, and Preproc repairs every file and either writes it out or puts it
    in quarantine. Both walk the listing in order and return at the first failure. */
module Preprocess {
  import opened Common
  import opened Json
  import opened Repair
  import opened Identifier
  import opened Fold
  import opened Files

  // ================================================================ FixFileName

  /** Does FixFileName copy this entry (a `.json` name whose bytes can be read)? */
  predicate Copied(e: Entry) {
    IsJsonName(e.name) && e.content.Some?
  }

  /** The destination name of a document: its Entity value plus ".json" (preproc.go:41-42). */
  function DestName(data: string, lib: JsonLib): string {
    lib.Get(data, ["Entity"]) + ".json"
  }

  /** One iteration of FixFileName's loop over the destination directory's files. A read or
      write error ends the process (log.Fatalln); an existing destination is a collision error. */
  function RenameStep(e: Entry, files: map<string, string>, lib: JsonLib, rejects: set<string>): Pass<map<string, string>> {
    if !IsJsonName(e.name) then Going(files)
    else match e.content
      case None => Stopped(files, Aborted(ReadFailed(e.name)))
      case Some(data) =>
        var dest := DestName(data, lib);
        if dest in files then Stopped(files, Failed(Collision(dest)))
        else if dest in rejects then Stopped(files, Aborted(WriteFailed(dest)))
        else Going(files[dest := data])
  }

  function RenameSteps(lib: JsonLib, rejects: set<string>): (Entry, map<string, string>) -> Pass<map<string, string>> {
    (e: Entry, f: map<string, string>) => RenameStep(e, f, lib, rejects)
  }

  /** FixFileName over a listing (None: os.ReadDir failed, which ends the process). */
  function FixedFileNames(listing: Option<seq<Entry>>, files: map<string, string>, lib: JsonLib, rejects: set<string>): Pass<map<string, string>> {
    match listing
    case None => Stopped(files, Aborted(ListFailed))
    case Some(es) => Run(es, files, RenameSteps(lib, rejects))
  }

  /** FixFileName(datadir, odir): `listing` is datadir, `out` is odir. (With an empty odir the
      Go code writes into datadir itself; a caller models that by passing that folder.) */
  method FixFileName(listing: Option<seq<Entry>>, out: Folder, lib: JsonLib) returns (res: Outcome)
    modifies out
    ensures var p := FixedFileNames(listing, old(out.files), lib, out.rejects);
            res == OutcomeOf(p) && out.files == p.state
  {
    if listing.None? {
      return Aborted(ListFailed);
    }
    var es := listing.value;
    ghost var step := RenameSteps(lib, out.rejects);
    var i := 0;
    while i < |es|
      invariant 0 <= i <= |es|
      invariant Run(es[..i], old(out.files), step) == Going(out.files)
    {
      var e := es[i];
      RunExtend(es, i, old(out.files), step, out.files);
      assert step(e, out.files) == RenameStep(e, out.files, lib, out.rejects);
      if IsJsonName(e.name) {
        if e.content.None? {
          RunStopped(es, i + 1, old(out.files), step);
          return Aborted(ReadFailed(e.name));
        }
        var data := e.content.value;
        var dest := DestName(data, lib);
        if out.Exists(dest) {
          RunStopped(es, i + 1, old(out.files), step);
          return Failed(Collision(dest));
        }
        var ok := out.Write(dest, data);
        if !ok {
          RunStopped(es, i + 1, old(out.files), step);
          return Aborted(WriteFailed(dest));
        }
      }
      i := i + 1;
    }
    assert es[..|es|] == es;
    return Done;
  }

  /** Whatever happens, FixFileName never overwrites a file: every file already in the
      destination keeps its bytes, and every new file is a verbatim copy of a listed `.json`
      file whose Entity names it. */
  lemma {:induction false} RenameKeepsAndCopies(es: seq<Entry>, files: map<string, string>, lib: JsonLib, rejects: set<string>)
    ensures var f := Run(es, files, RenameSteps(lib, rejects)).state;
            && (forall k :: k in files ==> k in f && f[k] == files[k])
            && (forall k :: k in f && k !in files ==>
                  exists i :: 0 <= i < |es| && Copied(es[i]) && DestName(es[i].content.value, lib) == k
                              && f[k] == es[i].content.value)
    decreases |es|
  {
    var step := RenameSteps(lib, rejects);
    if es != [] {
      var pre := es[..|es| - 1];
      RenameKeepsAndCopies(pre, files, lib, rejects);
      match Run(pre, files, step)
      case Stopped(t, o) =>
        forall k | k in t && k !in files
          ensures exists i :: 0 <= i < |es| && Copied(es[i]) && DestName(es[i].content.value, lib) == k
                              && t[k] == es[i].content.value
        {
          var i :| 0 <= i < |pre| && Copied(pre[i]) && DestName(pre[i].content.value, lib) == k
                   && t[k] == pre[i].content.value;
          assert es[i] == pre[i];
        }
      case Going(t) =>
        var f := Run(es, files, step).state;
        assert Run(es, files, step) == RenameStep(es[|es| - 1], t, lib, rejects);
        forall k | k in f && k !in files
          ensures exists i :: 0 <= i < |es| && Copied(es[i]) && DestName(es[i].content.value, lib) == k
                              && f[k] == es[i].content.value
        {
          if k in t {
            var i :| 0 <= i < |pre| && Copied(pre[i]) && DestName(pre[i].content.value, lib) == k
                     && t[k] == pre[i].content.value;
            assert es[i] == pre[i];
          } else {
            assert Copied(es[|es| - 1]);
          }
        }
    }
  }

  /** The last step of a completed FixFileName pass. */
  lemma RenameLast(es: seq<Entry>, files: map<string, string>, lib: JsonLib, rejects: set<string>)
    requires es != [] && Run(es, files, RenameSteps(lib, rejects)).Going?
    ensures var pre := Run(es[..|es| - 1], files, RenameSteps(lib, rejects));
            var e := es[|es| - 1];
            && pre.Going?
            && (IsJsonName(e.name) ==>
                  && e.content.Some?
                  && DestName(e.content.value, lib) !in pre.state
                  && Run(es, files, RenameSteps(lib, rejects)).state == pre.state[DestName(e.content.value, lib) := e.content.value])
            && (!IsJsonName(e.name) ==> Run(es, files, RenameSteps(lib, rejects)).state == pre.state)
  {
    var pre := es[..|es| - 1];
    assert Run(pre, files, RenameSteps(lib, rejects)).Going?;
    assert Run(es, files, RenameSteps(lib, rejects))
        == RenameStep(es[|es| - 1], Run(pre, files, RenameSteps(lib, rejects)).state, lib, rejects);
  }

  /** A completed FixFileName pass met no collision: every `.json` file was read, its
      destination did not exist beforehand, and the destination holds its source's bytes. */
  lemma {:induction false} RenameDoneMeansNoCollision(es: seq<Entry>, files: map<string, string>, lib: JsonLib, rejects: set<string>)
    requires Run(es, files, RenameSteps(lib, rejects)).Going?
    ensures var f := Run(es, files, RenameSteps(lib, rejects)).state;
            forall i :: 0 <= i < |es| && IsJsonName(es[i].name) ==>
              && es[i].content.Some?
              && DestName(es[i].content.value, lib) !in files
              && DestName(es[i].content.value, lib) in f
              && f[DestName(es[i].content.value, lib)] == es[i].content.value
    decreases |es|
  {
    var step := RenameSteps(lib, rejects);
    if es != [] {
      var pre := es[..|es| - 1];
      var last := es[|es| - 1];
      RenameLast(es, files, lib, rejects);
      RenameDoneMeansNoCollision(pre, files, lib, rejects);
      RenameKeepsAndCopies(pre, files, lib, rejects);
      var t := Run(pre, files, step).state;
      var f := Run(es, files, step).state;
      forall i | 0 <= i < |es| && IsJsonName(es[i].name)
        ensures && es[i].content.Some?
                && DestName(es[i].content.value, lib) !in files
                && DestName(es[i].content.value, lib) in f
                && f[DestName(es[i].content.value, lib)] == es[i].content.value
      {
        if i < |pre| {
          assert es[i] == pre[i];
        } else {
          assert es[i] == last;
        }
      }
    }
  }

  /** In a completed FixFileName pass the destination names of the `.json` files are pairwise
      different. */
  lemma {:induction false} RenameDoneDistinct(es: seq<Entry>, files: map<string, string>, lib: JsonLib, rejects: set<string>)
    requires Run(es, files, RenameSteps(lib, rejects)).Going?
    ensures forall i, j :: 0 <= i < j < |es| && Copied(es[i]) && Copied(es[j]) ==>
              DestName(es[j].content.value, lib) != DestName(es[i].content.value, lib)
    decreases |es|
  {
    var step := RenameSteps(lib, rejects);
    if es != [] {
      var pre := es[..|es| - 1];
      var last := es[|es| - 1];
      assert Run(pre, files, step).Going?;
      RenameDoneDistinct(pre, files, lib, rejects);
      RenameDoneMeansNoCollision(pre, files, lib, rejects);
      var t := Run(pre, files, step).state;
      assert Run(es, files, step) == RenameStep(last, t, lib, rejects);
      forall i, j | 0 <= i < j < |es| && Copied(es[i]) && Copied(es[j])
        ensures DestName(es[j].content.value, lib) != DestName(es[i].content.value, lib)
      {
        assert es[i] == pre[i];
        if j < |pre| {
          assert es[j] == pre[j];
        }
      }
    }
  }

  /** A collision returns at once: the destination is not written, the copies made earlier in
      the pass stay, and no later file is looked at. */
  lemma RenameStopsAtCollision(pre: seq<Entry>, e: Entry, post: seq<Entry>, files: map<string, string>,
                               lib: JsonLib, rejects: set<string>, sofar: map<string, string>)
    requires Run(pre, files, RenameSteps(lib, rejects)) == Going(sofar)
    requires Copied(e) && DestName(e.content.value, lib) in sofar
    ensures FixedFileNames(Some(pre + [e] + post), files, lib, rejects)
            == Stopped(sofar, Failed(Collision(DestName(e.content.value, lib))))
  {
    var step := RenameSteps(lib, rejects);
    RunAppend(pre + [e], post, files, step);
    RunAppend(pre, [e], files, step);
    assert Run([e], sofar, step) == RenameStep(e, sofar, lib, rejects);
  }

  // ================================================================ Preproc

  /** The output directory and the quarantine (error) directory. */
  datatype Dirs = Dirs(out: map<string, string>, quarantine: map<string, string>)

  /** What Preproc decides for one directory entry (preproc.go:151-199). */
  datatype Verdict =
    | Skipped                   // not a `.json` name, or an empty file
    | Write(doc: string)        // the repaired document with the identifier padded
    | Quarantine(bytes: string) // the repaired bytes, still not valid JSON
    | Fail(err: Error)          // a read error or an identifier error

  function Judge(e: Entry, lib: JsonLib): Verdict {
    if !IsJsonName(e.name) then Skipped
    else match e.content
      case None => Fail(ReadFailed(e.name))
      case Some(data) =>
        if data == [] then Skipped
        else
          var fixed := Repaired(data);
          if !lib.valid(fixed) then Quarantine(fixed)
          else match PadIdentifier(fixed, IdWidth, lib)
            case Err(x) => Fail(x)
            case Ok(doc) => Write(doc)
  }

  /** One iteration of Preproc's loop. The Go code ignores the errors of os.WriteFile, so a
      refused write simply leaves that directory as it was. */
  function PreprocStep(e: Entry, d: Dirs, lib: JsonLib, outRejects: set<string>, qRejects: set<string>): Pass<Dirs> {
    match Judge(e, lib)
    case Skipped => Going(d)
    case Write(doc) => Going(d.(out := Written(d.out, outRejects, e.name, doc)))
    case Quarantine(bytes) =>
      Stopped(d.(quarantine := Written(d.quarantine, qRejects, e.name, bytes)), Failed(InvalidJson(e.name)))
    case Fail(x) => Stopped(d, Failed(x))
  }

  function PreprocSteps(lib: JsonLib, outRejects: set<string>, qRejects: set<string>): (Entry, Dirs) -> Pass<Dirs> {
    (e: Entry, d: Dirs) => PreprocStep(e, d, lib, outRejects, qRejects)
  }

  /** Preproc over a listing (None: os.ReadDir failed, returned as an error). */
  function Preprocessed(listing: Option<seq<Entry>>, d: Dirs, lib: JsonLib, outRejects: set<string>, qRejects: set<string>): Pass<Dirs> {
    match listing
    case None => Stopped(d, Failed(ListFailed))
    case Some(es) => Run(es, d, PreprocSteps(lib, outRejects, qRejects))
  }

  /** Preproc(datadir, odir, edir): `listing` is datadir, `out` is odir, `quarantine` is edir. */
  method Preproc(listing: Option<seq<Entry>>, out: Folder, quarantine: Folder, lib: JsonLib) returns (res: Outcome)
    requires out != quarantine
    modifies out, quarantine
    ensures var p := Preprocessed(listing, Dirs(old(out.files), old(quarantine.files)), lib, out.rejects, quarantine.rejects);
            res == OutcomeOf(p) && out.files == p.state.out && quarantine.files == p.state.quarantine
  {
    if listing.None? {
      return Failed(ListFailed);
    }
    var es := listing.value;
    ghost var d0 := Dirs(out.files, quarantine.files);
    ghost var step := PreprocSteps(lib, out.rejects, quarantine.rejects);
    var i := 0;
    while i < |es|
      invariant 0 <= i <= |es|
      invariant Run(es[..i], d0, step) == Going(Dirs(out.files, quarantine.files))
    {
      ghost var d := Dirs(out.files, quarantine.files);
      RunNext(es, i, d0, step, d);
      var stop, r := PreprocFile(es[i], out, quarantine, lib);
      if stop {
        return r;
      }
      i := i + 1;
    }
    assert es[..|es|] == es;
    return Done;
  }

  /** The body of Preproc's loop for one directory entry; `stop` is a `return` out of the loop. */
  method PreprocFile(e: Entry, out: Folder, quarantine: Folder, lib: JsonLib) returns (stop: bool, res: Outcome)
    requires out != quarantine
    modifies out, quarantine
    ensures var p := PreprocStep(e, Dirs(old(out.files), old(quarantine.files)), lib, out.rejects, quarantine.rejects);
            Dirs(out.files, quarantine.files) == p.state && stop == p.Stopped? && (stop ==> res == p.outcome)
  {
    if !IsJsonName(e.name) {
      assert Judge(e, lib) == Skipped;
      return false, Done;
    }
    if e.content.None? {
      assert Judge(e, lib) == Fail(ReadFailed(e.name));
      return true, Failed(ReadFailed(e.name));
    }
    var data := e.content.value;
    if data == [] {
      assert Judge(e, lib) == Skipped;
      return false, Done;
    }
    data := Repaired(data);  // rmLF, rmPtag, escQuInHTML, fixErrComma in turn
    if !lib.valid(data) {
      assert Judge(e, lib) == Quarantine(data);
      var _ := quarantine.Write(e.name, data);
      return true, Failed(InvalidJson(e.name));
    }
    var padded := PadIdentifier(data, IdWidth, lib);
    if padded.Err? {
      assert Judge(e, lib) == Fail(padded.err);
      return true, Failed(padded.err);
    }
    assert Judge(e, lib) == Write(padded.value);
    var _ := out.Write(e.name, padded.value);
    return false, Done;
  }

  /** Files without the `.json` suffix and empty `.json` files are skipped: taking such an
      entry out of the listing changes nothing. */
  lemma PreprocSkips(pre: seq<Entry>, e: Entry, post: seq<Entry>, d: Dirs, lib: JsonLib, outRejects: set<string>, qRejects: set<string>)
    requires !IsJsonName(e.name) || e.content == Some([])
    ensures Preprocessed(Some(pre + [e] + post), d, lib, outRejects, qRejects)
            == Preprocessed(Some(pre + post), d, lib, outRejects, qRejects)
  {
    var step := PreprocSteps(lib, outRejects, qRejects);
    RunAppend(pre + [e], post, d, step);
    RunAppend(pre, [e], d, step);
    RunAppend(pre, post, d, step);
    match Run(pre, d, step)
    case Stopped(t, o) =>
    case Going(t) =>
      assert Run([e], t, step) == PreprocStep(e, t, lib, outRejects, qRejects);
  }

  /** A file that is still invalid after the rewrites is written to the quarantine under its
      own name with its REWRITTEN bytes, the pass returns an error at once, nothing is written
      to the output for it, and no later file is processed. */
  lemma PreprocQuarantines(pre: seq<Entry>, e: Entry, post: seq<Entry>, d0: Dirs, d: Dirs,
                           lib: JsonLib, outRejects: set<string>, qRejects: set<string>)
    requires Run(pre, d0, PreprocSteps(lib, outRejects, qRejects)) == Going(d)
    requires IsJsonName(e.name) && e.content.Some? && e.content.value != []
    requires !lib.valid(Repaired(e.content.value))
    ensures Preprocessed(Some(pre + [e] + post), d0, lib, outRejects, qRejects)
            == Stopped(Dirs(d.out, Written(d.quarantine, qRejects, e.name, Repaired(e.content.value))),
                       Failed(InvalidJson(e.name)))
  {
    var step := PreprocSteps(lib, outRejects, qRejects);
    JudgeQuarantine(e, lib);
    assert step(e, d) == PreprocStep(e, d, lib, outRejects, qRejects);
    RunStopsHere(pre, e, post, d0, step, d);
  }

  /** An identifier that padIdentifier rejects ends the pass at once with that error; the file
      is neither written nor quarantined, and no later file is processed. */
  lemma PreprocStopsOnBadIdentifier(pre: seq<Entry>, e: Entry, post: seq<Entry>, d0: Dirs, d: Dirs,
                                    lib: JsonLib, outRejects: set<string>, qRejects: set<string>)
    requires Run(pre, d0, PreprocSteps(lib, outRejects, qRejects)) == Going(d)
    requires IsJsonName(e.name) && e.content.Some? && e.content.value != []
    requires lib.valid(Repaired(e.content.value))
    requires PadIdentifier(Repaired(e.content.value), IdWidth, lib).Err?
    ensures Preprocessed(Some(pre + [e] + post), d0, lib, outRejects, qRejects)
            == Stopped(d, Failed(PadIdentifier(Repaired(e.content.value), IdWidth, lib).err))
  {
    JudgeBadIdentifier(e, lib);
    PreprocFailsHere(pre, e, post, d0, d, lib, outRejects, qRejects, PadIdentifier(Repaired(e.content.value), IdWidth, lib).err);
  }

  /** An entry judged a failure ends a pass still going with that error. */
  lemma PreprocFailsHere(pre: seq<Entry>, e: Entry, post: seq<Entry>, d0: Dirs, d: Dirs,
                         lib: JsonLib, outRejects: set<string>, qRejects: set<string>, err: Error)
    requires Run(pre, d0, PreprocSteps(lib, outRejects, qRejects)) == Going(d)
    requires Judge(e, lib) == Fail(err)
    ensures Preprocessed(Some(pre + [e] + post), d0, lib, outRejects, qRejects) == Stopped(d, Failed(err))
  {
    var step := PreprocSteps(lib, outRejects, qRejects);
    assert step(e, d) == PreprocStep(e, d, lib, outRejects, qRejects);
    RunStopsHere(pre, e, post, d0, step, d);
  }

  lemma JudgeQuarantine(e: Entry, lib: JsonLib)
    requires IsJsonName(e.name) && e.content.Some? && e.content.value != []
    requires !lib.valid(Repaired(e.content.value))
    ensures Judge(e, lib) == Quarantine(Repaired(e.content.value))
  {
  }

  lemma JudgeBadIdentifier(e: Entry, lib: JsonLib)
    requires IsJsonName(e.name) && e.content.Some? && e.content.value != []
    requires lib.valid(Repaired(e.content.value))
    requires PadIdentifier(Repaired(e.content.value), IdWidth, lib).Err?
    ensures Judge(e, lib) == Fail(PadIdentifier(Repaired(e.content.value), IdWidth, lib).err)
  {
  }

  /** A written entry is a non-empty `.json` file whose rewritten bytes are valid, and what is
      written is those bytes with the identifier padded. */
  lemma JudgeWrite(e: Entry, lib: JsonLib)
    requires Judge(e, lib).Write?
    ensures IsJsonName(e.name) && e.content.Some? && e.content.value != []
    ensures lib.valid(Repaired(e.content.value))
    ensures PadIdentifier(Repaired(e.content.value), IdWidth, lib) == Ok(Judge(e, lib).doc)
  {
  }

  /** The effect of an entry on the output directory alone, as a map-filling pass. */
  function OutEffect(e: Entry, lib: JsonLib, outRejects: set<string>): Keyed<string> {
    match Judge(e, lib)
    case Skipped => Skip
    case Write(doc) => if e.name in outRejects then Skip else Put(e.name, doc)
    case Quarantine(_) => Halt(Failed(InvalidJson(e.name)))
    case Fail(x) => Halt(Failed(x))
  }

  function OutEffects(lib: JsonLib, outRejects: set<string>): Entry -> Keyed<string> {
    e => OutEffect(e, lib, outRejects)
  }

  /** A pass that completes leaves the quarantine alone and fills the output as the
      map-filling pass of OutEffect does. */
  lemma {:induction false} PreprocOutput(es: seq<Entry>, d0: Dirs, lib: JsonLib, outRejects: set<string>, qRejects: set<string>)
    ensures Run(es, d0, PreprocSteps(lib, outRejects, qRejects)).Going?
            <==> Run(es, d0.out, KeyedSteps(OutEffects(lib, outRejects))).Going?
    ensures Run(es, d0, PreprocSteps(lib, outRejects, qRejects)).Going? ==>
              && Run(es, d0, PreprocSteps(lib, outRejects, qRejects)).state.quarantine == d0.quarantine
              && Run(es, d0, PreprocSteps(lib, outRejects, qRejects)).state.out
                 == Run(es, d0.out, KeyedSteps(OutEffects(lib, outRejects))).state
    decreases |es|
  {
    if es != [] {
      var step := PreprocSteps(lib, outRejects, qRejects);
      var keyed := KeyedSteps(OutEffects(lib, outRejects));
      var pre := es[..|es| - 1];
      var last := es[|es| - 1];
      PreprocOutput(pre, d0, lib, outRejects, qRejects);
      RunLast(es, d0, step);
      RunLast(es, d0.out, keyed);
      var p := Run(pre, d0, step);
      var q := Run(pre, d0.out, keyed);
      if p.Going? {
        StepAgrees(last, p.state, lib, outRejects, qRejects);
        assert step(last, p.state) == PreprocStep(last, p.state, lib, outRejects, qRejects);
        assert keyed(last, q.state) == KeyedStep(OutEffect(last, lib, outRejects), q.state);
      }
    }
  }

  /** One entry of Preproc, compared with its effect on the output alone. */
  lemma StepAgrees(e: Entry, d: Dirs, lib: JsonLib, outRejects: set<string>, qRejects: set<string>)
    ensures var p := PreprocStep(e, d, lib, outRejects, qRejects);
            var k := KeyedStep(OutEffect(e, lib, outRejects), d.out);
            && (p.Going? <==> k.Going?)
            && (p.Going? ==> p.state.quarantine == d.quarantine && p.state.out == k.state)
  {
  }

  /** A completed Preproc pass quarantined nothing and met no read error, no file that stayed
      invalid and no bad identifier: every entry was skipped or written. */
  lemma PreprocDoneChecked(es: seq<Entry>, d0: Dirs, lib: JsonLib, outRejects: set<string>, qRejects: set<string>)
    requires Run(es, d0, PreprocSteps(lib, outRejects, qRejects)).Going?
    ensures Run(es, d0, PreprocSteps(lib, outRejects, qRejects)).state.quarantine == d0.quarantine
    ensures forall i :: 0 <= i < |es| ==> Judge(es[i], lib).Skipped? || Judge(es[i], lib).Write?
  {
    PreprocOutput(es, d0, lib, outRejects, qRejects);
    KeyedNoHalt(es, d0.out, OutEffects(lib, outRejects));
    forall i | 0 <= i < |es|
      ensures Judge(es[i], lib).Skipped? || Judge(es[i], lib).Write?
    {
      assert !OutEffects(lib, outRejects)(es[i]).Halt?;
    }
  }

  /** After a completed Preproc pass the output holds, under each written file's own name, its
      rewritten bytes with the identifier padded, unless the write was refused or a later file
      of the same name was written after it. */
  lemma PreprocDoneWrites(es: seq<Entry>, d0: Dirs, lib: JsonLib, outRejects: set<string>, qRejects: set<string>)
    requires Run(es, d0, PreprocSteps(lib, outRejects, qRejects)).Going?
    ensures var out := Run(es, d0, PreprocSteps(lib, outRejects, qRejects)).state.out;
            forall i ::
              (0 <= i < |es| && Judge(es[i], lib).Write? && es[i].name !in outRejects
               && forall j :: i < j < |es| && Judge(es[j], lib).Write? ==> es[j].name != es[i].name)
              ==> es[i].name in out && out[es[i].name] == Judge(es[i], lib).doc
  {
    var f := OutEffects(lib, outRejects);
    PreprocOutput(es, d0, lib, outRejects, qRejects);
    KeyedLastWins(es, d0.out, f);
    forall i | 0 <= i < |es| && Judge(es[i], lib).Write? && es[i].name !in outRejects
               && (forall j :: i < j < |es| && Judge(es[j], lib).Write? ==> es[j].name != es[i].name)
      ensures f(es[i]).Put? && f(es[i]).key == es[i].name && f(es[i]).value == Judge(es[i], lib).doc
      ensures forall j :: i < j < |es| && f(es[j]).Put? ==> f(es[j]).key != f(es[i]).key
    {
      EffectOfWrite(es[i], lib, outRejects);
      forall j | i < j < |es| && f(es[j]).Put?
        ensures f(es[j]).key != f(es[i]).key
      {
        EffectPut(es[j], lib, outRejects);
      }
    }
  }

  lemma EffectOfWrite(e: Entry, lib: JsonLib, outRejects: set<string>)
    requires Judge(e, lib).Write? && e.name !in outRejects
    ensures OutEffects(lib, outRejects)(e) == Put(e.name, Judge(e, lib).doc)
  {
  }

  lemma EffectPut(e: Entry, lib: JsonLib, outRejects: set<string>)
    requires OutEffects(lib, outRejects)(e).Put?
    ensures Judge(e, lib).Write? && OutEffects(lib, outRejects)(e).key == e.name
  {
  }

  /** A completed Preproc pass adds to the output only names of written files. */
  lemma PreprocDoneNames(es: seq<Entry>, d0: Dirs, lib: JsonLib, outRejects: set<string>, qRejects: set<string>)
    requires Run(es, d0, PreprocSteps(lib, outRejects, qRejects)).Going?
    ensures forall k :: k in Run(es, d0, PreprocSteps(lib, outRejects, qRejects)).state.out ==>
              k in d0.out || exists i :: 0 <= i < |es| && Judge(es[i], lib).Write? && es[i].name == k
  {
    var f := OutEffects(lib, outRejects);
    PreprocOutput(es, d0, lib, outRejects, qRejects);
    KeyedKeys(es, d0.out, f);
    forall k | k in Run(es, d0, PreprocSteps(lib, outRejects, qRejects)).state.out && k !in d0.out
      ensures exists i :: 0 <= i < |es| && Judge(es[i], lib).Write? && es[i].name == k
    {
      var i :| 0 <= i < |es| && f(es[i]).Put? && f(es[i]).key == k;
      EffectPut(es[i], lib, outRejects);
    }
  }
}
