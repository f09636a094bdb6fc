/** server/process/genstruct.go: every entity file is flattened to its leaf paths and values,
    which are reassembled into one flat JSON object, keyed by the file's Entity; DumpPathValue
    writes each object to `<Entity>.json`. */
module PathValue {
  import opened Common
  import opened Strings
  import opened Json
  import opened Repair
  import opened Fold
  import opened Files

  // ================================================================ escaping and assembly

  /** strs.HasAnySuffix(fpath, "class-link.json", "collection-entities.json"): derived files
      that are not entity documents. */
  predicate Reserved(path: string) {
    EndsWith(path, "class-link.json") || EndsWith(path, "collection-entities.json")
  }

  /** The object key of a flattened path: each `.` becomes `[dot]`. */
  function EscKey(path: string): (r: string)
    ensures '.' !in r
  {
    ReplaceAll(path, ".", "[dot]")
  }

  /** One `"key": "value"` member; the value's quotes are escaped as in escQuInHTML. */
  function Member(p: (string, string)): string {
    "\"" + EscKey(p.0) + "\": \"" + EscapeQuotes(p.1) + "\""
  }

  function Members(pairs: seq<(string, string)>): (ms: seq<string>)
    ensures |ms| == |pairs|
    ensures forall i :: 0 <= i < |pairs| ==> ms[i] == Member(pairs[i])
  {
    seq(|pairs|, i requires 0 <= i < |pairs| => Member(pairs[i]))
  }

  /** The parts separated by `sep`, with no separator before the first or after the last. */
  function Join(parts: seq<string>, sep: string): string
    decreases |parts|
  {
    if parts == [] then ""
    else if |parts| == 1 then parts[0]
    else parts[0] + sep + Join(parts[1..], sep)
  }

  /** The path-value object: its members in flatten order, separated by single commas. */
  function ObjectText(pairs: seq<(string, string)>): string {
    "{" + Join(Members(pairs), ",") + "}"
  }

  lemma {:induction false} JoinSnoc(parts: seq<string>, x: string, sep: string)
    requires parts != []
    ensures Join(parts + [x], sep) == Join(parts, sep) + sep + x
    decreases |parts|
  {
    if |parts| == 1 {
      assert (parts + [x])[1..] == [x];
    } else {
      assert (parts + [x])[1..] == parts[1..] + [x];
      JoinSnoc(parts[1..], x, sep);
    }
  }

  lemma TrimComma(x: string)
    ensures TrimSuffix(x + ",", ",") == x
  {
    assert EndsWith(x + ",", ",");
    assert (x + ",")[..|x|] == x;
  }

  /** One more member appended with its comma. */
  lemma AssembleStep(ms: seq<string>, i: nat, js: string)
    requires i < |ms|
    requires i == 0 ==> js == "{"
    requires i > 0 ==> js == "{" + Join(ms[..i], ",") + ","
    ensures js + ms[i] + "," == "{" + Join(ms[..i + 1], ",") + ","
  {
    assert ms[..i + 1] == ms[..i] + [ms[i]];
    if i > 0 {
      JoinSnoc(ms[..i], ms[i], ",");
    } else {
      assert ms[..i + 1] == [ms[i]];
    }
  }

  /** The trailing comma trimmed and the brace closed. */
  lemma AssembleEnd(ms: seq<string>, js: string)
    requires ms == [] ==> js == "{"
    requires ms != [] ==> js == "{" + Join(ms, ",") + ","
    ensures TrimSuffix(js, ",") + "}" == "{" + Join(ms, ",") + "}"
  {
    if ms != [] {
      TrimComma("{" + Join(ms, ","));
    } else {
      assert js[|js| - 1..] != ",";
    }
  }

  /** The `js += member + ","` loop of GenEntityPathVal, followed by strings.TrimSuffix(js, ",")
      and the closing brace. */
  method AssembleObject(pairs: seq<(string, string)>) returns (js: string)
    ensures js == ObjectText(pairs)
  {
    ghost var ms := Members(pairs);
    js := "{";
    var i := 0;
    while i < |pairs|
      invariant 0 <= i <= |pairs|
      invariant i == 0 ==> js == "{"
      invariant i > 0 ==> js == "{" + Join(ms[..i], ",") + ","
    {
      AssembleStep(ms, i, js);
      js := js + Member(pairs[i]) + ",";
      i := i + 1;
    }
    assert ms[..i] == ms;
    AssembleEnd(ms, js);
    js := TrimSuffix(js, ",");
    js := js + "}";
  }

  /** The assembled text is braced, and it has no trailing comma: with members, the byte before
      the closing brace is a member's closing quote. */
  lemma ObjectTextShape(pairs: seq<(string, string)>)
    ensures var r := ObjectText(pairs);
            && |r| >= 2 && r[0] == '{' && r[|r| - 1] == '}'
            && (pairs == [] ==> r == "{}")
            && (pairs != [] ==> r[1] == '"' && r[|r| - 2] == '"')
  {
    if pairs != [] {
      JoinEnds(Members(pairs));
    }
  }

  lemma {:induction false} JoinEnds(ms: seq<string>)
    requires ms != [] && forall i :: 0 <= i < |ms| ==> |ms[i]| >= 2 && ms[i][0] == '"' && ms[i][|ms[i]| - 1] == '"'
    ensures var j := Join(ms, ","); |j| >= 2 && j[0] == '"' && j[|j| - 1] == '"'
    decreases |ms|
  {
    if |ms| > 1 {
      JoinEnds(ms[1..]);
    }
  }

  // ================================================================ reading the object back

  /** A JSON string body up to its closing quote, decoding the escapes `\"` and `\\` (the only
      ones the assembly can produce); the text after the quote is returned with it. A raw
      control character (below U+0020), which JSON requires to be escaped, is refused. */
  function ReadString(t: string): (r: Option<(string, string)>)
    ensures r.Some? ==> |r.value.1| < |t|
    decreases |t|
  {
    if t == [] then None
    else if t[0] == '"' then Some(("", t[1..]))
    else if t[0] == '\\' then
      if |t| >= 2 && (t[1] == '"' || t[1] == '\\') then
        match ReadString(t[2..])
        case None => None
        case Some((s, rest)) => Some(([t[1]] + s, rest))
      else None
    else if t[0] < ' ' then None
    else
      match ReadString(t[1..])
      case None => None
      case Some((s, rest)) => Some(([t[0]] + s, rest))
  }

  /** The path a key spells: each `[dot]` read back as `.`. */
  function UnescKey(key: string): string {
    ReplaceAll(key, "[dot]", ".")
  }

  /** One member `"key": "value"` read back as (path, value), and the text after it. */
  function ReadMember(t: string): (r: Option<((string, string), string)>)
    ensures r.Some? ==> |r.value.1| < |t|
  {
    if !("\"" <= t) then None
    else match ReadString(t[1..])
      case None => None
      case Some((k, r1)) =>
        if !(": \"" <= r1) then None
        else match ReadString(r1[3..])
          case None => None
          case Some((v, r2)) => Some(((UnescKey(k), v), r2))
  }

  /** Members separated by single commas. */
  function ReadMembers(t: string): Option<seq<(string, string)>>
    decreases |t|
  {
    match ReadMember(t)
    case None => None
    case Some((p, rest)) =>
      if rest == [] then Some([p])
      else if rest[0] == ',' then
        match ReadMembers(rest[1..])
        case None => None
        case Some(ps) => Some([p] + ps)
      else None
  }

  /** A whole path-value object read back as its (path, value) pairs. */
  function ReadObject(t: string): Option<seq<(string, string)>> {
    if t == "{}" then Some([])
    else if |t| >= 2 && t[0] == '{' && t[|t| - 1] == '}' then ReadMembers(t[1..|t| - 1])
    else None
  }

  /** No control character: every byte is U+0020 or above. */
  predicate Printable(s: string) {
    forall c :: c in s ==> ' ' <= c
  }

  /** A value without backslashes or control characters reads back from its escaped form. */
  lemma {:induction false} ReadEscapedValue(v: string, rest: string)
    requires '\\' !in v && Printable(v)
    ensures ReadString(EscapeQuotes(v) + "\"" + rest) == Some((v, rest))
    decreases |v|
  {
    var t := EscapeQuotes(v) + "\"" + rest;
    if v == [] {
      assert t == "\"" + rest;
    } else {
      assert v[0] in v && forall c :: c in v[1..] ==> c in v;
      assert '\\' !in v[1..] && Printable(v[1..]) && ' ' <= v[0];
      ReadEscapedValue(v[1..], rest);
      var tail := EscapeQuotes(v[1..]) + "\"" + rest;
      if v[0] == '"' {
        ReadQuoteThen(v, tail, rest);
      } else {
        ReadByteThen(v, tail, rest);
      }
    }
  }

  /** An escaped quote, then the rest of the value read back. */
  lemma ReadQuoteThen(v: string, tail: string, rest: string)
    requires v != [] && v[0] == '"' && tail == EscapeQuotes(v[1..]) + "\"" + rest
    requires ReadString(tail) == Some((v[1..], rest))
    ensures ReadString(EscapeQuotes(v) + "\"" + rest) == Some((v, rest))
  {
    var t := EscapeQuotes(v) + "\"" + rest;
    assert "\"" <= v;
    assert t == "\\\"" + tail;
    assert t[2..] == tail;
    assert [t[1]] + v[1..] == v;
  }

  /** A byte other than a quote, a backslash or a control character, then the rest read back. */
  lemma ReadByteThen(v: string, tail: string, rest: string)
    requires v != [] && v[0] != '"' && v[0] != '\\' && ' ' <= v[0]
    requires tail == EscapeQuotes(v[1..]) + "\"" + rest
    requires ReadString(tail) == Some((v[1..], rest))
    ensures ReadString(EscapeQuotes(v) + "\"" + rest) == Some((v, rest))
  {
    var t := EscapeQuotes(v) + "\"" + rest;
    assert !("\"" <= v);
    assert t == [v[0]] + tail;
    assert t[1..] == tail;
    assert [t[0]] + v[1..] == v;
  }

  /** What the escaping misses: a value made of one backslash yields `"\"`, which as JSON text
      escapes the closing quote instead of ending the string. */
  lemma BackslashValueUnreadable()
    ensures EscapeQuotes("\\") == "\\"
    ensures ReadString(EscapeQuotes("\\") + "\"") == None
  {
    var b := "\\";
    assert b[0] != '"' && !("\"" <= b);
    assert b[1..] == [];
    assert EscapeQuotes(b) == [b[0]] + ReplaceAll(b[1..], "\"", "\\\"");
    var t := b + "\"";
    assert t[0] == '\\' && t[1] == '"' && t[2..] == [];
  }

  /** The other thing the escaping misses: a control character in a value (a tab, say, from a
      decoded `\t`) is emitted raw, and a JSON string cannot hold it raw. */
  lemma ControlValueUnreadable(c: char, rest: string)
    requires c < ' '
    ensures EscapeQuotes([c]) == [c]
    ensures ReadString(EscapeQuotes([c]) + "\"" + rest) == None
  {
    var b := [c];
    assert !("\"" <= b);
    assert b[1..] == [];
    assert EscapeQuotes(b) == [b[0]] + ReplaceAll(b[1..], "\"", "\\\"");
    var t := b + "\"" + rest;
    assert t[0] == c;
  }

  lemma EscKeyOfDot(q: string)
    requires "." <= q
    ensures |EscKey(q)| >= 1 && EscKey(q)[0] == '['
  {
    assert EscKey(q) == "[dot]" + EscKey(q[1..]);
  }

  /** If `w` has no `[` and starts the escaped form of `q`, it starts `q` itself: `[dot]` only
      ever begins with `[`. */
  lemma {:induction false} PrefixOfEscKey(w: string, q: string)
    requires '[' !in w && w <= EscKey(q)
    ensures w <= q
    decreases |w|
  {
    if w != [] && q != [] {
      if !("." <= q) {
        assert EscKey(q) == [q[0]] + EscKey(q[1..]);
        assert w[1..] <= EscKey(q[1..]);
        assert '[' !in w[1..];
        PrefixOfEscKey(w[1..], q[1..]);
      } else {
        EscKeyOfDot(q);
        assert false;
      }
    } else if w != [] {
      assert EscKey(q) == [];
    }
  }

  /** A path without `[dot]` reads back from its key, so distinct such paths get distinct keys. */
  lemma {:induction false} UnescEscKey(p: string)
    requires !Contains(p, "[dot]")
    ensures UnescKey(EscKey(p)) == p
    decreases |p|
  {
    if p != [] {
      assert !Contains(p[1..], "[dot]");
      UnescEscKey(p[1..]);
      var x := EscKey(p[1..]);
      if "." <= p {
        assert EscKey(p) == "[dot]" + x;
        assert ("[dot]" + x)[5..] == x;
        assert "[dot]" <= "[dot]" + x;
      } else {
        assert EscKey(p) == [p[0]] + x;
        if "[dot]" <= [p[0]] + x {
          assert x[..4] == ([p[0]] + x)[1..5] == "[dot]"[1..5] == "dot]";
          assert "dot]" <= x;
          PrefixOfEscKey("dot]", p[1..]);
          assert false;
        }
        assert ([p[0]] + x)[1..] == x;
      }
    }
  }

  /** A pair whose path has no quote, backslash or `[dot]`, whose value has no backslash, and
      neither of which has a control character, is written so that it reads back unchanged. */
  predicate Plain(p: (string, string)) {
    '"' !in p.0 && '\\' !in p.0 && !Contains(p.0, "[dot]") && '\\' !in p.1
    && Printable(p.0) && Printable(p.1)
  }

  lemma KeyReadsBack(path: string, rest: string)
    requires '"' !in path && '\\' !in path && Printable(path)
    ensures ReadString(EscKey(path) + "\"" + rest) == Some((EscKey(path), rest))
  {
    var k := EscKey(path);
    assert '"' !in k && '\\' !in k && Printable(k);
    AbsentCharNotContained(k, '"');
    assert EscapeQuotes(k) == k;
    ReadEscapedValue(k, rest);
  }

  /** ReadMember on a text whose two strings have been read. */
  lemma ReadMemberOf(t: string, k: string, r1: string, v: string, r2: string)
    requires "\"" <= t && ReadString(t[1..]) == Some((k, r1))
    requires ": \"" <= r1 && ReadString(r1[3..]) == Some((v, r2))
    ensures ReadMember(t) == Some(((UnescKey(k), v), r2))
  {
  }

  lemma ReadMemberBack(p: (string, string), rest: string)
    requires Plain(p)
    ensures ReadMember(Member(p) + rest) == Some((p, rest))
  {
    var k := EscKey(p.0);
    var v := EscapeQuotes(p.1);
    var r1 := ": \"" + v + "\"" + rest;
    var t := Member(p) + rest;
    MemberShape(k, v, rest);
    assert t == "\"" + k + "\": \"" + v + "\"" + rest;
    KeyReadsBack(p.0, r1);
    ReadEscapedValue(p.1, rest);
    UnescEscKey(p.0);
    ReadMemberOf(t, k, r1, p.1, rest);
  }

  /** Where the key and the value of a written member start. */
  lemma MemberShape(k: string, v: string, rest: string)
    ensures var t := "\"" + k + "\": \"" + v + "\"" + rest;
            var r1 := ": \"" + v + "\"" + rest;
            "\"" <= t && t[1..] == k + "\"" + r1 && ": \"" <= r1 && r1[3..] == v + "\"" + rest
  {
    var t := "\"" + k + "\": \"" + v + "\"" + rest;
    var r1 := ": \"" + v + "\"" + rest;
    assert t == "\"" + (k + "\"" + r1);
    assert r1 == ": \"" + (v + "\"" + rest);
  }

  lemma ReadMembersLast(t: string, p: (string, string))
    requires ReadMember(t) == Some((p, ""))
    ensures ReadMembers(t) == Some([p])
  {
  }

  lemma ReadMembersMore(t: string, p: (string, string), tail: string, ps: seq<(string, string)>)
    requires ReadMember(t) == Some((p, "," + tail))
    requires ReadMembers(tail) == Some(ps)
    ensures ReadMembers(t) == Some([p] + ps)
  {
    assert ("," + tail)[1..] == tail;
  }

  lemma JoinFirst(ms: seq<string>, sep: string)
    requires |ms| > 1
    ensures Join(ms, sep) == ms[0] + (sep + Join(ms[1..], sep))
  {
  }

  lemma {:induction false} ReadMembersBack(pairs: seq<(string, string)>)
    requires pairs != [] && forall i :: 0 <= i < |pairs| ==> Plain(pairs[i])
    ensures ReadMembers(Join(Members(pairs), ",")) == Some(pairs)
    decreases |pairs|
  {
    var ms := Members(pairs);
    if |pairs| == 1 {
      ReadMemberBack(pairs[0], "");
      assert Member(pairs[0]) + "" == Member(pairs[0]);
      assert Join(ms, ",") == Member(pairs[0]);
      ReadMembersLast(Join(ms, ","), pairs[0]);
      assert pairs == [pairs[0]];
    } else {
      assert ms[1..] == Members(pairs[1..]);
      ReadMembersBack(pairs[1..]);
      var tail := Join(ms[1..], ",");
      ReadMemberBack(pairs[0], "," + tail);
      JoinFirst(ms, ",");
      ReadMembersMore(Join(ms, ","), pairs[0], tail, pairs[1..]);
      assert [pairs[0]] + pairs[1..] == pairs;
    }
  }

  /** The assembled object lists exactly the flattened pairs, in order, when they are plain. */
  lemma ObjectTextReadsBack(pairs: seq<(string, string)>)
    requires forall i :: 0 <= i < |pairs| ==> Plain(pairs[i])
    ensures ReadObject(ObjectText(pairs)) == Some(pairs)
  {
    if pairs != [] {
      ObjectTextShape(pairs);
      ReadMembersBack(pairs);
      var t := ObjectText(pairs);
      assert t[1..|t| - 1] == Join(Members(pairs), ",");
    }
  }

  // ================================================================ GenEntityPathVal

  /** mPathVal[key]: the leaf stored under a path, if any. */
  function Find<T>(leaves: seq<(string, T)>, path: string): (r: Option<T>)
    ensures r.Some? ==> exists i :: 0 <= i < |leaves| && leaves[i] == (path, r.value)
    ensures r.None? ==> forall i :: 0 <= i < |leaves| ==> leaves[i].0 != path
    decreases |leaves|
  {
    if leaves == [] then None
    else if leaves[0].0 == path then Some(leaves[0].1)
    else
      var r := Find(leaves[1..], path);
      assert forall i :: 1 <= i < |leaves| ==> leaves[i] == leaves[1..][i - 1];
      r
  }

  /** The leaves as text; None when one is not a string (the `val.(string)` assertion fails). */
  function AsText(leaves: seq<(string, Value)>): (r: Option<seq<(string, string)>>)
    ensures r.Some? <==> forall i :: 0 <= i < |leaves| ==> leaves[i].1.Str?
    ensures r.Some? ==> |r.value| == |leaves| && forall i :: 0 <= i < |leaves| ==> r.value[i] == (leaves[i].0, leaves[i].1.s)
  {
    if forall i :: 0 <= i < |leaves| ==> leaves[i].1.Str? then
      Some(seq(|leaves|, i requires 0 <= i < |leaves| && leaves[i].1.Str? => (leaves[i].0, leaves[i].1.s)))
    else None
  }

  /** What one input file does to the result map: reserved files are skipped; otherwise the
      file is put under its Entity, or the whole call ends on it. */
  function ContributionOf(e: Entry, lib: JsonLib): Keyed<string> {
    if Reserved(e.name) then Skip
    else match e.content
      case None => Halt(Failed(ReadFailed(e.name)))
      case Some(data) =>
        match lib.flatten(data)
        case None => Halt(Failed(FlattenFailed(e.name)))
        case Some(leaves) =>
          match Find(leaves, "Entity")
          case None => Halt(Failed(EntityMissing(e.name)))
          case Some(key) =>
            match AsText(leaves)
            case None => Halt(Aborted(NotText(e.name)))
            case Some(pairs) =>
              var js := ObjectText(pairs);
              if !lib.valid(js) then Halt(Failed(InvalidPathValue(e.name)))
              else Put(key.s, js)
  }

  function Contributions(lib: JsonLib): Entry -> Keyed<string> {
    e => ContributionOf(e, lib)
  }

  /** GenEntityPathVal over a list of files, from an empty map. */
  function EntityPathValues(files: seq<Entry>, lib: JsonLib): Pass<map<string, string>> {
    Run(files, map[], KeyedSteps(Contributions(lib)))
  }

  /** GenEntityPathVal(fpaths...): on an error the Go code returns a nil map with it. */
  method GenEntityPathVal(files: seq<Entry>, lib: JsonLib) returns (res: Outcome, m: map<string, string>)
    ensures var p := EntityPathValues(files, lib);
            res == OutcomeOf(p) && m == (if p.Going? then p.state else map[])
  {
    ghost var step := KeyedSteps(Contributions(lib));
    m := map[];
    var i := 0;
    while i < |files|
      invariant 0 <= i <= |files|
      invariant Run(files[..i], map[], step) == Going(m)
    {
      var c := Contribute(files[i], lib);
      RunNext(files, i, map[], step, m);
      assert step(files[i], m) == KeyedStep(c, m);
      if c.Halt? {
        return c.outcome, map[];
      }
      if c.Put? {
        m := m[c.key := c.value];
      }
      i := i + 1;
    }
    assert files[..|files|] == files;
    return Done, m;
  }

  /** The body of GenEntityPathVal's loop for one file: skip it, put its object under its
      Entity, or end the call with an error. */
  method Contribute(e: Entry, lib: JsonLib) returns (c: Keyed<string>)
    ensures c == ContributionOf(e, lib)
  {
    if Reserved(e.name) {
      return Skip;
    }
    if e.content.None? {
      return Halt(Failed(ReadFailed(e.name)));
    }
    var leaves := lib.flatten(e.content.value);
    if leaves.None? {
      return Halt(Failed(FlattenFailed(e.name)));
    }
    var key := Find(leaves.value, "Entity");
    if key.None? {
      return Halt(Failed(EntityMissing(e.name)));
    }
    var pairs := AsText(leaves.value);
    if pairs.None? {
      return Halt(Aborted(NotText(e.name)));
    }
    var js := AssembleObject(pairs.value);
    if !lib.valid(js) {
      return Halt(Failed(InvalidPathValue(e.name)));
    }
    return Put(key.value.s, js);
  }

  /** Paths ending in `class-link.json` or `collection-entities.json` contribute nothing. */
  lemma GenSkipsReserved(pre: seq<Entry>, e: Entry, post: seq<Entry>, lib: JsonLib)
    requires Reserved(e.name)
    ensures EntityPathValues(pre + [e] + post, lib) == EntityPathValues(pre + post, lib)
  {
    var step := KeyedSteps(Contributions(lib));
    RunAppend(pre + [e], post, map[], step);
    RunAppend(pre, [e], map[], step);
    RunAppend(pre, post, map[], step);
    match Run(pre, map[], step)
    case Stopped(t, o) =>
    case Going(t) =>
      assert Run([e], t, step) == KeyedStep(ContributionOf(e, lib), t);
  }

  /** A read or flatten error, a missing Entity, a non-string leaf or an invalid assembled
      object ends the whole call with that outcome, and no later file is looked at. */
  lemma GenStopsOnError(pre: seq<Entry>, e: Entry, post: seq<Entry>, lib: JsonLib, m: map<string, string>)
    requires EntityPathValues(pre, lib) == Going(m)
    requires ContributionOf(e, lib).Halt?
    ensures EntityPathValues(pre + [e] + post, lib) == Stopped(m, ContributionOf(e, lib).outcome)
    ensures ContributionOf(e, lib).outcome != Done
  {
    var step := KeyedSteps(Contributions(lib));
    RunAppend(pre + [e], post, map[], step);
    RunAppend(pre, [e], map[], step);
    assert Run([e], m, step) == KeyedStep(ContributionOf(e, lib), m);
  }

  /** A file is put exactly when it is not reserved, is read and flattened, has an Entity, has
      only string leaves, and its assembled object is valid; it is then keyed by its Entity, and
      the object has no `.` in any key and every quote of a value escaped. */
  lemma ContributionMeaning(e: Entry, lib: JsonLib)
    ensures ContributionOf(e, lib).Put? <==>
              && !Reserved(e.name)
              && e.content.Some?
              && lib.flatten(e.content.value).Some?
              && Find(lib.flatten(e.content.value).value, "Entity").Some?
              && AsText(lib.flatten(e.content.value).value).Some?
              && lib.valid(ObjectText(AsText(lib.flatten(e.content.value).value).value))
    ensures ContributionOf(e, lib).Put? ==>
              var leaves := lib.flatten(e.content.value).value;
              var pairs := AsText(leaves).value;
              && Find(leaves, "Entity") == Some(Str(ContributionOf(e, lib).key))
              && ContributionOf(e, lib).value == ObjectText(pairs)
              && (forall i :: 0 <= i < |pairs| ==> '.' !in EscKey(pairs[i].0) && QuotesEscaped(EscapeQuotes(pairs[i].1), false))
  {
    if ContributionOf(e, lib).Put? {
      var pairs := AsText(lib.flatten(e.content.value).value).value;
      forall i | 0 <= i < |pairs|
        ensures QuotesEscaped(EscapeQuotes(pairs[i].1), false)
      {
        EscapeQuotesEscapes(pairs[i].1, false);
      }
    }
  }

  /** A completed call: every non-reserved file was put; the map's keys are exactly their
      entities; and each entity holds the object of the LAST file with that entity, a later file
      replacing an earlier one. */
  lemma GenDone(files: seq<Entry>, lib: JsonLib)
    requires EntityPathValues(files, lib).Going?
    ensures var m := EntityPathValues(files, lib).state;
            var c := Contributions(lib);
            && (forall i :: 0 <= i < |files| && !Reserved(files[i].name) ==> c(files[i]).Put?)
            && (forall k :: k in m <==> exists i :: 0 <= i < |files| && c(files[i]).Put? && c(files[i]).key == k)
            && (forall i ::
                  (0 <= i < |files| && c(files[i]).Put?
                   && forall j :: i < j < |files| && c(files[j]).Put? ==> c(files[j]).key != c(files[i]).key)
                  ==> m[c(files[i]).key] == c(files[i]).value)
  {
    var c := Contributions(lib);
    KeyedNoHalt(files, map[], c);
    KeyedKeys(files, map[], c);
    KeyedLastWins(files, map[], c);
  }

  // ================================================================ DumpPathValue

  /** Is `n` the file some entry of `m` is written to? */
  predicate IsTarget(n: string, m: map<string, string>) {
    EndsWith(n, ".json") && TrimSuffix(n, ".json") in m
  }

  lemma TargetOf(k: string)
    ensures EndsWith(k + ".json", ".json") && TrimSuffix(k + ".json", ".json") == k
  {
    assert (k + ".json")[|k|..] == ".json";
    assert (k + ".json")[..|k|] == k;
  }

  /** `files` is `before` with each entry of `m` written to `<entity>.json`, and nothing else
      changed. */
  predicate DumpedAll(before: map<string, string>, m: map<string, string>, files: map<string, string>) {
    && (forall k :: k in m ==> k + ".json" in files && files[k + ".json"] == m[k])
    && (forall n :: n in files && !IsTarget(n, m) ==> n in before && files[n] == before[n])
    && (forall n :: n in before && !IsTarget(n, m) ==> n in files)
  }

  /** Writing one more entry keeps DumpedAll. */
  lemma DumpedOneMore(before: map<string, string>, m: map<string, string>, todo: set<string>,
                      files: map<string, string>, k: string)
    requires DumpedAll(before, m - todo, files)
    requires k in m && k in todo
    ensures DumpedAll(before, m - (todo - {k}), files[k + ".json" := m[k]])
  {
    var m0 := m - todo;
    var m1 := m - (todo - {k});
    var f1 := files[k + ".json" := m[k]];
    TargetOf(k);
    forall k' | k' in m1
      ensures k' + ".json" in f1 && f1[k' + ".json"] == m1[k']
    {
      if k' != k {
        TargetOf(k');
        assert k' + ".json" != k + ".json";
      }
    }
    forall n | n in f1 && !IsTarget(n, m1)
      ensures n in before && f1[n] == before[n]
    {
      assert n != k + ".json";
      assert !IsTarget(n, m0);
    }
    forall n | n in before && !IsTarget(n, m1)
      ensures n in f1
    {
      assert !IsTarget(n, m0);
    }
  }

  /** The `for entity, js := range mEntPathVal` loop of DumpPathValue, in Go's map order. It
      stops at the first refused write. */
  method WriteAll(m: map<string, string>, out: Folder) returns (res: Outcome)
    modifies out
    ensures res.Done? <==> forall k :: k in m ==> k + ".json" !in out.rejects
    ensures res.Done? ==> DumpedAll(old(out.files), m, out.files)
    ensures !res.Done? ==>
              && (exists k :: k in m && k + ".json" in out.rejects && res == Failed(WriteFailed(k + ".json")))
              && (exists unwritten :: unwritten <= m.Keys && DumpedAll(old(out.files), m - unwritten, out.files))
  {
    var todo := m.Keys;
    assert m - todo == map[];
    while todo != {}
      invariant todo <= m.Keys
      invariant forall k :: k in m && k !in todo ==> k + ".json" !in out.rejects
      invariant DumpedAll(old(out.files), m - todo, out.files)
      decreases |todo|
    {
      var k :| k in todo;
      ghost var before := out.files;
      var ok := out.Write(k + ".json", m[k]);
      if !ok {
        return Failed(WriteFailed(k + ".json"));
      }
      DumpedOneMore(old(out.files), m, todo, before, k);
      todo := todo - {k};
    }
    assert m - todo == m;
    return Done;
  }

  /** DumpPathValue(idir, odname): `listing` is idir's files, `out` is idir/odname. */
  method DumpPathValue(listing: Option<seq<Entry>>, lib: JsonLib, out: Folder) returns (res: Outcome)
    modifies out
    ensures listing.None? ==> res == Failed(ListFailed) && out.files == old(out.files)
    ensures listing.Some? && EntityPathValues(listing.value, lib).Stopped? ==>
              res == EntityPathValues(listing.value, lib).outcome && out.files == old(out.files)
    ensures listing.Some? && EntityPathValues(listing.value, lib).Going? ==>
              var m := EntityPathValues(listing.value, lib).state;
              && (res.Done? <==> forall k :: k in m ==> k + ".json" !in out.rejects)
              && (res.Done? ==> DumpedAll(old(out.files), m, out.files))
              && (!res.Done? ==> exists k :: k in m && k + ".json" in out.rejects && res == Failed(WriteFailed(k + ".json")))
  {
    if listing.None? {
      return Failed(ListFailed);
    }
    var r, m := GenEntityPathVal(listing.value, lib);
    if r != Done {
      return r;
    }
    res := WriteAll(m, out);
  }
}
