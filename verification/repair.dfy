/** The four text rewrites that Preproc applies to every non-empty JSON file, in the order
    rmLF, rmPtag, escQuInHTML, fixErrComma (server/process/preproc.go). Each regular expression
    is written out as a left-to-right scanner: at each position a helper says whether, and how
    long, a match starts there; a match is replaced and scanning resumes after it, otherwise one
    byte is copied. This is Go's leftmost-first, non-overlapping ReplaceAll. */
module Repair {
  import opened Common
  import opened Strings

  // ---------------------------------------------------------------- rmLF

  /** rmLF: every '\n' byte removed, then every '\r' byte removed. */
  function RmLF(data: string): (r: string)
    ensures '\n' !in r && '\r' !in r
    ensures |r| <= |data|
  {
    ReplaceAll(ReplaceAll(data, "\n", ""), "\r", "")
  }

  /** Independent reference for rmLF: a single pass keeping every byte that is not a line break. */
  function KeepNonBreaks(s: string): string
    decreases |s|
  {
    if s == [] then []
    else (if s[0] == '\n' || s[0] == '\r' then [] else [s[0]]) + KeepNonBreaks(s[1..])
  }

  lemma {:induction false} WithoutTwice(s: string)
    ensures Without(Without(s, '\n'), '\r') == KeepNonBreaks(s)
    decreases |s|
  {
    if s != [] {
      WithoutTwice(s[1..]);
      var w := Without(s, '\n');
      if s[0] != '\n' {
        assert w == [s[0]] + Without(s[1..], '\n');
        assert w[1..] == Without(s[1..], '\n');
        assert Without(w, '\r') == (if s[0] == '\r' then [] else [s[0]]) + Without(w[1..], '\r');
      } else {
        assert w == Without(s[1..], '\n');
      }
    }
  }

  /** rmLF keeps every other byte, in order: it is exactly the line-break filter. */
  lemma RmLFKeepsOtherBytes(data: string)
    ensures RmLF(data) == KeepNonBreaks(data)
  {
    ReplaceCharByNothing(data, '\n');
    ReplaceCharByNothing(Without(data, '\n'), '\r');
    WithoutTwice(data);
  }

  /** rmLF is idempotent. */
  lemma RmLFIdempotent(data: string)
    ensures RmLF(RmLF(data)) == RmLF(data)
  {
    var once := RmLF(data);
    AbsentCharNotContained(once, '\n');
    AbsentCharNotContained(ReplaceAll(once, "\n", ""), '\r');
  }

  // ---------------------------------------------------------------- rmPtag

  /** Length of the run of RE2 whitespace that starts `s` (greedy `\s*`). */
  function SpaceRun(s: string): (k: nat)
    ensures k <= |s|
    ensures forall i :: 0 <= i < k ==> IsSpace(s[i])
    ensures k < |s| ==> !IsSpace(s[k])
    decreases |s|
  {
    if s != [] && IsSpace(s[0]) then 1 + SpaceRun(s[1..]) else 0
  }

  /** Length of a match of `</p>\s*<p>` starting at the head of `s`, if there is one. */
  function ParaBreakAt(s: string): (m: Option<nat>)
    ensures m.Some? ==> 7 <= m.value <= |s| && "</p>" <= s
  {
    if "</p>" <= s then
      var k := SpaceRun(s[4..]);
      if "<p>" <= s[4 + k..] then Some(7 + k) else None
    else None
  }

  /** First pass of rmPtag: each `</p>\s*<p>` becomes `<br>`. */
  function CollapseParaBreaks(s: string): (r: string)
    ensures |r| <= |s|
    ensures !Contains(s, "</p>") ==> r == s
    ensures forall c :: c in r ==> c in s || c in "<br>"
    decreases |s|
  {
    if s == [] then []
    else match ParaBreakAt(s)
      case Some(n) =>
        var rest := CollapseParaBreaks(s[n..]);
        assert forall c :: c in s[n..] ==> c in s;
        "<br>" + rest
      case None =>
        var rest := CollapseParaBreaks(s[1..]);
        assert forall c :: c in s[1..] ==> c in s;
        [s[0]] + rest
  }

  /** rmPtag: collapse paragraph breaks, then delete `<p>`, then delete `</p>`
      (three single passes, as three regexp ReplaceAll calls). */
  function RmPtag(s: string): (r: string)
    ensures |r| <= |s|
    ensures forall c :: c in r ==> c in s || c in "<br>"
  {
    ReplaceAll(ReplaceAll(CollapseParaBreaks(s), "<p>", ""), "</p>", "")
  }

  /** Text without paragraph tags passes through rmPtag unchanged. */
  lemma RmPtagWithoutTags(s: string)
    requires !Contains(s, "<p>") && !Contains(s, "</p>")
    ensures RmPtag(s) == s
  {
  }

  /** Each deletion is a single pass, so a `<p>` put together by deleting an inner one survives. */
  lemma RmPtagSinglePass()
    ensures RmPtag("<<p>p>") == "<p>"
  {
    var s := "<<p>p>";
    AbsentPartNotContained(s, "</p>", 1);
    InnerParagraphDeleted();
    AbsentPartNotContained("<p>", "</p>", 1);
  }

  lemma InnerParagraphDeleted()
    ensures ReplaceAll("<<p>p>", "<p>", "") == "<p>"
  {
    var s := "<<p>p>";
    assert s[1] != "<p>"[1];
    ReplaceSkipAt(s, "<p>", "");
    assert s[1..] == "<p>" + "p>";
    ReplaceHere("<p>", "p>", "<p>", "");
    AbsentPartNotContained("p>", "<p>", 0);
  }

  /** A prefix without `<` starts no paragraph break: it is copied and the scan goes on. */
  lemma {:induction false} CollapseKeepsPrefix(x: string, t: string)
    requires '<' !in x
    ensures CollapseParaBreaks(x + t) == x + CollapseParaBreaks(t)
    decreases |x|
  {
    if x == [] {
      assert x + t == t;
    } else {
      var y := x + t;
      assert y[0] == x[0] && y[1..] == x[1..] + t;
      CollapseByte(y);
      CollapseKeepsPrefix(x[1..], t);
      ConsRegroup(x, CollapseParaBreaks(t));
    }
  }

  /** Away from a `<`, the first pass copies the byte and goes on. */
  lemma CollapseByte(s: string)
    requires s != [] && s[0] != '<'
    ensures CollapseParaBreaks(s) == [s[0]] + CollapseParaBreaks(s[1..])
  {
    assert ParaBreakAt(s).None?;
  }

  lemma ConsRegroup(x: string, r: string)
    requires x != []
    ensures x + r == [x[0]] + (x[1..] + r)
  {
  }

  /** One paragraph break between text without tags becomes a single `<br>`. */
  lemma RmPtagParaBreak(a: string, w: string, b: string)
    requires '<' !in a && '<' !in b
    requires forall i :: 0 <= i < |w| ==> IsSpace(w[i])
    ensures RmPtag(a + "</p>" + w + "<p>" + b) == a + "<br>" + b
  {
    CollapseBreakBetween(a, w, b);
    NoParagraphTagIn(a, b);
    DeletionsKeep(a + "<br>" + b);
  }

  lemma CollapseBreakBetween(a: string, w: string, b: string)
    requires '<' !in a && '<' !in b
    requires forall i :: 0 <= i < |w| ==> IsSpace(w[i])
    ensures CollapseParaBreaks(a + "</p>" + w + "<p>" + b) == a + "<br>" + b
  {
    var m := "</p>" + w + "<p>" + b;
    Regroup4(a, "</p>", w, "<p>", b);
    CollapseKeepsPrefix(a, m);
    CollapseOneBreak(w, b);
    Regroup3(a, "<br>", b);
  }

  lemma Regroup4(a: string, x: string, y: string, z: string, b: string)
    ensures a + x + y + z + b == a + (x + y + z + b)
  {
  }

  lemma Regroup3(a: string, x: string, b: string)
    ensures a + (x + b) == a + x + b
  {
  }

  /** Text without paragraph tags is left alone by both deletions. */
  lemma DeletionsKeep(c: string)
    requires !Contains(c, "<p>") && !Contains(c, "</p>")
    ensures ReplaceAll(ReplaceAll(c, "<p>", ""), "</p>", "") == c
  {
  }

  lemma CollapseOneBreak(w: string, b: string)
    requires '<' !in b
    requires forall i :: 0 <= i < |w| ==> IsSpace(w[i])
    ensures CollapseParaBreaks("</p>" + w + "<p>" + b) == "<br>" + b
  {
    var m := "</p>" + w + "<p>" + b;
    ParaBreakHere(w, b);
    CollapseAtBreak(m, 7 + |w|);
    assert m[7 + |w|..] == b;
    AbsentPartNotContained(b, "</p>", 0);
  }

  lemma ParaBreakHere(w: string, b: string)
    requires forall i :: 0 <= i < |w| ==> IsSpace(w[i])
    ensures ParaBreakAt("</p>" + w + "<p>" + b) == Some(7 + |w|)
  {
    var m := "</p>" + w + "<p>" + b;
    assert m[4..] == w + ['<'] + ("p>" + b);
    SpaceRunOf(w, '<', "p>" + b);
    assert m[4 + |w|..] == "<p>" + b;
  }

  /** Text without `<` around one `<br>` holds no paragraph tag. */
  lemma NoParagraphTagIn(a: string, b: string)
    requires '<' !in a && '<' !in b
    ensures !Contains(a + "<br>" + b, "<p>") && !Contains(a + "<br>" + b, "</p>")
  {
    var t := "<br>" + b;
    assert a + "<br>" + b == a + t;
    assert t[1..] == "br>" + b;
    assert '<' !in "br>" + b;
    ContainsAfterPrefix(a, t, "<p>");
    AbsentPartNotContained("br>" + b, "<p>", 0);
    ContainsAfterPrefix(a, t, "</p>");
    AbsentPartNotContained("br>" + b, "</p>", 0);
  }

  /** Every `<` in `s` begins an allowed tag: `<p>` when `p`, `</p>` when `cp`, `<br>` when
      `br`. */
  predicate OpensOnly(s: string, p: bool, cp: bool, br: bool)
    decreases |s|
  {
    s == [] ||
    ((s[0] == '<' ==> (p && "<p>" <= s) || (cp && "</p>" <= s) || (br && "<br>" <= s)) &&
     OpensOnly(s[1..], p, cp, br))
  }

  lemma {:induction false} OpensOnlyDrop(s: string, k: nat, p: bool, cp: bool, br: bool)
    requires OpensOnly(s, p, cp, br) && k <= |s|
    ensures OpensOnly(s[k..], p, cp, br)
    decreases k
  {
    if k == 0 {
      assert s[0..] == s;
    } else {
      OpensOnlyDrop(s[1..], k - 1, p, cp, br);
      assert s[1..][k - 1..] == s[k..];
    }
  }

  lemma {:induction false} OpensNoLt(x: string, r: string, p: bool, cp: bool, br: bool)
    requires '<' !in x && OpensOnly(r, p, cp, br)
    ensures OpensOnly(x + r, p, cp, br)
    decreases |x|
  {
    if x == [] {
      assert x + r == r;
    } else {
      assert (x + r)[0] == x[0] && '<' !in x[1..];
      assert (x + r)[1..] == x[1..] + r;
      OpensNoLt(x[1..], r, p, cp, br);
    }
  }

  /** A tag at the head of `s` is still at the head after a pass that copies the byte and
      then rewrites the rest as `rest`, provided that pass copies a `<`-free prefix. */
  lemma TagStaysAtHead(s: string, tag: string, rest: string, after: string)
    requires |tag| >= 1 && tag <= s && '<' !in tag[1..]
    requires rest == tag[1..] + after
    ensures tag <= [s[0]] + rest
  {
    assert tag == [s[0]] + tag[1..];
  }

  lemma ConsOpens(c: char, r: string, p: bool, cp: bool, br: bool)
    requires OpensOnly(r, p, cp, br)
    requires c == '<' ==> (p && "<p>" <= [c] + r) || (cp && "</p>" <= [c] + r) || (br && "<br>" <= [c] + r)
    ensures OpensOnly([c] + r, p, cp, br)
  {
    assert ([c] + r)[1..] == r;
  }

  /** Collapsing paragraph breaks keeps every `<` at the head of an allowed tag. */
  lemma {:induction false} CollapseOpens(s: string)
    requires OpensOnly(s, true, true, true)
    ensures OpensOnly(CollapseParaBreaks(s), true, true, true)
    decreases |s|
  {
    if s != [] {
      match ParaBreakAt(s)
      case Some(n) =>
        OpensOnlyDrop(s, n, true, true, true);
        CollapseOpens(s[n..]);
        BreakOpens(s, n);
      case None =>
        CollapseOpens(s[1..]);
        CollapseKeepsHead(s);
    }
  }

  /** A paragraph break becomes `<br>`, an allowed tag. */
  lemma BreakOpens(s: string, n: nat)
    requires ParaBreakAt(s) == Some(n)
    requires OpensOnly(CollapseParaBreaks(s[n..]), true, true, true)
    ensures OpensOnly(CollapseParaBreaks(s), true, true, true)
  {
    CollapseAtBreak(s, n);
    BrOpens(CollapseParaBreaks(s[n..]));
  }

  lemma BrOpens(r: string)
    requires OpensOnly(r, true, true, true)
    ensures OpensOnly("<br>" + r, true, true, true)
  {
    var t := "br>" + r;
    assert t[0] == 'b' && t[1] == 'r' && t[2] == '>';
    OpensNoLt("br>", r, true, true, true);
    var x := "<br>" + r;
    assert x[1..] == t && "<br>" <= x;
  }

  lemma CollapseAtBreak(s: string, n: nat)
    requires ParaBreakAt(s) == Some(n)
    ensures CollapseParaBreaks(s) == "<br>" + CollapseParaBreaks(s[n..])
  {
  }

  /** A byte that starts no paragraph break keeps its allowed tag, if it opens one. */
  lemma CollapseKeepsHead(s: string)
    requires s != [] && ParaBreakAt(s).None? && OpensOnly(s, true, true, true)
    requires OpensOnly(CollapseParaBreaks(s[1..]), true, true, true)
    ensures OpensOnly(CollapseParaBreaks(s), true, true, true)
  {
    var r := CollapseParaBreaks(s[1..]);
    CollapseAtByte(s);
    if s[0] == '<' {
      if "<p>" <= s {
        CollapseKeepsTag(s, "<p>");
      } else if "</p>" <= s {
        CollapseKeepsTag(s, "</p>");
      } else {
        CollapseKeepsTag(s, "<br>");
      }
    }
    ConsOpens(s[0], r, true, true, true);
  }

  lemma CollapseAtByte(s: string)
    requires s != [] && ParaBreakAt(s).None?
    ensures CollapseParaBreaks(s) == [s[0]] + CollapseParaBreaks(s[1..])
  {
  }

  /** A tag that starts no paragraph break is still there after the first pass. */
  lemma CollapseKeepsTag(s: string, tag: string)
    requires s != [] && ParaBreakAt(s).None?
    requires tag == "<p>" || tag == "</p>" || tag == "<br>"
    requires tag <= s
    ensures tag <= [s[0]] + CollapseParaBreaks(s[1..])
  {
    assert s[1..] == tag[1..] + s[|tag|..];
    CollapseKeepsPrefix(tag[1..], s[|tag|..]);
    TagStaysAtHead(s, tag, CollapseParaBreaks(s[1..]), CollapseParaBreaks(s[|tag|..]));
  }

  /** Deleting one paragraph tag keeps every other `<` at the head of an allowed tag, and the
      deleted tag is no longer allowed. */
  lemma {:induction false} DeleteTagOpens(s: string, pat: string, p: bool, cp: bool, br: bool)
    requires pat == "<p>" || pat == "</p>"
    requires OpensOnly(s, p, cp, br)
    ensures OpensOnly(ReplaceAll(s, pat, ""), p && pat != "<p>", cp && pat != "</p>", br)
    decreases |s|
  {
    if s != [] {
      if pat <= s {
        OpensOnlyDrop(s, |pat|, p, cp, br);
        DeleteTagOpens(s[|pat|..], pat, p, cp, br);
        ReplaceHere(pat, s[|pat|..], pat, "");
        assert s == pat + s[|pat|..];
        assert "" + ReplaceAll(s[|pat|..], pat, "") == ReplaceAll(s[|pat|..], pat, "");
      } else {
        DeleteTagOpens(s[1..], pat, p, cp, br);
        DeleteKeepsHead(s, pat, p, cp, br);
      }
    }
  }

  /** A byte where the deleted tag does not start keeps its allowed tag, if it opens one. */
  lemma DeleteKeepsHead(s: string, pat: string, p: bool, cp: bool, br: bool)
    requires pat == "<p>" || pat == "</p>"
    requires s != [] && !(pat <= s) && OpensOnly(s, p, cp, br)
    requires OpensOnly(ReplaceAll(s[1..], pat, ""), p && pat != "<p>", cp && pat != "</p>", br)
    ensures OpensOnly(ReplaceAll(s, pat, ""), p && pat != "<p>", cp && pat != "</p>", br)
  {
    var r := ReplaceAll(s[1..], pat, "");
    ReplaceSkipAt(s, pat, "");
    if s[0] == '<' {
      if p && "<p>" <= s {
        DeleteKeepsTag(s, "<p>", pat);
      } else if cp && "</p>" <= s {
        DeleteKeepsTag(s, "</p>", pat);
      } else {
        DeleteKeepsTag(s, "<br>", pat);
      }
    }
    ConsOpens(s[0], r, p && pat != "<p>", cp && pat != "</p>", br);
  }

  /** A tag that is not the deleted one is still there after the deletion pass. */
  lemma DeleteKeepsTag(s: string, tag: string, pat: string)
    requires pat == "<p>" || pat == "</p>"
    requires tag == "<p>" || tag == "</p>" || tag == "<br>"
    requires s != [] && tag <= s
    ensures tag <= [s[0]] + ReplaceAll(s[1..], pat, "")
  {
    assert s[1..] == tag[1..] + s[|tag|..];
    ReplaceKeepsPrefix(tag[1..], s[|tag|..], pat, "");
    TagStaysAtHead(s, tag, ReplaceAll(s[1..], pat, ""), ReplaceAll(s[|tag|..], pat, ""));
  }

  /** When every `<` begins `<br>`, no paragraph tag occurs. */
  lemma {:induction false} OnlyBreaksNoParagraphs(s: string)
    requires OpensOnly(s, false, false, true)
    ensures !Contains(s, "<p>") && !Contains(s, "</p>")
    decreases |s|
  {
    if s != [] {
      OnlyBreaksNoParagraphs(s[1..]);
      if s[0] == '<' {
        assert s[1] == 'b';
      }
    }
  }

  /** When every `<` in the text begins `<p>`, `</p>` or `<br>`, rmPtag leaves no paragraph tag:
      every `<` that is left begins `<br>`. */
  lemma RmPtagRemovesTags(s: string)
    requires OpensOnly(s, true, true, true)
    ensures OpensOnly(RmPtag(s), false, false, true)
    ensures !Contains(RmPtag(s), "<p>") && !Contains(RmPtag(s), "</p>")
  {
    var c := CollapseParaBreaks(s);
    CollapseOpens(s);
    DeleteTagOpens(c, "<p>", true, true, true);
    DeleteTagOpens(ReplaceAll(c, "<p>", ""), "</p>", false, true, true);
    OnlyBreaksNoParagraphs(RmPtag(s));
  }

  // ---------------------------------------------------------------- escQuInHTML

  /** Length of the run of `[\w\d]` bytes that starts `s` (greedy). */
  function WordRun(s: string): (k: nat)
    ensures k <= |s|
    ensures forall i :: 0 <= i < k ==> IsWord(s[i])
    ensures k < |s| ==> !IsWord(s[k])
    decreases |s|
  {
    if s != [] && IsWord(s[0]) then 1 + WordRun(s[1..]) else 0
  }

  /** Length of the run of bytes other than '>' that starts `s` (greedy `[^>]*`). */
  function NonGtRun(s: string): (k: nat)
    ensures k <= |s|
    ensures forall i :: 0 <= i < k ==> s[i] != '>'
    ensures k < |s| ==> s[k] == '>'
    decreases |s|
  {
    if s != [] && s[0] != '>' then 1 + NonGtRun(s[1..]) else 0
  }

  /** Length of a match of `<[\w\d]+\s[^>]+>` (a tag with attributes) at the head of `s`.
      The name run and the `[^>]+` run are greedy and cannot give back, so the match is unique. */
  function AttrTagAt(s: string): (m: Option<nat>)
    ensures m.Some? ==> 4 <= m.value <= |s| && s[0] == '<' && s[m.value - 1] == '>'
  {
    if s != [] && s[0] == '<' then
      var w := WordRun(s[1..]);
      if 1 <= w && 1 + w < |s| && IsSpace(s[1 + w]) then
        var n := NonGtRun(s[2 + w..]);
        if 1 <= n && 2 + w + n < |s| then Some(3 + w + n) else None
      else None
    else None
  }

  /** Does a tag with attributes start anywhere in `s`? */
  predicate HasAttrTag(s: string)
    decreases |s|
  {
    s != [] && (AttrTagAt(s).Some? || HasAttrTag(s[1..]))
  }

  /** First step inside a tag: each `"` becomes `\"`. */
  function EscapeQuotes(t: string): string {
    ReplaceAll(t, "\"", "\\\"")
  }

  /** Second step inside a tag: each `\\` pair, left to right, becomes `\`. */
  function CollapseBackslashes(t: string): string {
    ReplaceAll(t, "\\\\", "\\")
  }

  /** The rewrite applied to one matched tag. */
  function EscTag(t: string): (r: string)
    ensures forall c :: c in r ==> c in t || c == '\\' || c == '"'
  {
    CollapseBackslashes(EscapeQuotes(t))
  }

  /** escQuInHTML: every tag with attributes is rewritten by EscTag; everything else is kept. */
  function EscQuInHTML(s: string): (r: string)
    ensures !HasAttrTag(s) ==> r == s
    ensures forall c :: c in r ==> c in s || c == '\\' || c == '"'
    decreases |s|
  {
    if s == [] then []
    else match AttrTagAt(s)
      case Some(n) =>
        var rest := EscQuInHTML(s[n..]);
        assert forall c :: c in s[..n] ==> c in s;
        assert forall c :: c in s[n..] ==> c in s;
        EscTag(s[..n]) + rest
      case None =>
        var rest := EscQuInHTML(s[1..]);
        assert forall c :: c in s[1..] ==> c in s;
        [s[0]] + rest
  }

  /** Every `"` in `s` is immediately preceded by a backslash; `afterBackslash` says whether the
      byte just before `s` is one. */
  predicate QuotesEscaped(s: string, afterBackslash: bool)
    decreases |s|
  {
    s == [] || ((s[0] == '"' ==> afterBackslash) && QuotesEscaped(s[1..], s[0] == '\\'))
  }

  lemma {:induction false} EscapeQuotesEscapes(t: string, after: bool)
    ensures QuotesEscaped(EscapeQuotes(t), after)
    decreases |t|
  {
    if t != [] {
      EscapeQuotesEscapes(t[1..], false);
      EscapeQuotesEscapes(t[1..], t[0] == '\\');
      var rest := EscapeQuotes(t[1..]);
      if "\"" <= t {
        var r := "\\\"" + rest;
        assert EscapeQuotes(t) == r;
        assert r[1..][1..] == rest;
      } else {
        assert EscapeQuotes(t) == [t[0]] + rest;
        assert ([t[0]] + rest)[1..] == rest;
      }
    }
  }

  lemma {:induction false} CollapseKeepsEscaped(x: string, after: bool)
    requires QuotesEscaped(x, after)
    ensures QuotesEscaped(CollapseBackslashes(x), after)
    decreases |x|
  {
    if x != [] {
      if "\\\\" <= x {
        assert x[1..][1..] == x[2..];
        CollapseKeepsEscaped(x[2..], true);
        var r := "\\" + CollapseBackslashes(x[2..]);
        assert CollapseBackslashes(x) == r;
        assert r[1..] == CollapseBackslashes(x[2..]);
      } else {
        CollapseKeepsEscaped(x[1..], x[0] == '\\');
        var r := [x[0]] + CollapseBackslashes(x[1..]);
        assert CollapseBackslashes(x) == r;
        assert r[1..] == CollapseBackslashes(x[1..]);
      }
    }
  }

  /** Inside a rewritten tag every double quote is preceded by a backslash. */
  lemma EscTagEscapesEveryQuote(t: string)
    ensures QuotesEscaped(EscTag(t), false)
  {
    EscapeQuotesEscapes(t, false);
    CollapseKeepsEscaped(EscapeQuotes(t), false);
  }

  /** The rewrite of a tag neither adds nor drops double quotes. */
  lemma EscTagKeepsQuoteCount(t: string)
    ensures Count(EscTag(t), '"') == Count(t, '"')
  {
    CountReplaceAll(t, "\"", "\\\"", '"');
    CountReplaceAll(EscapeQuotes(t), "\\\\", "\\", '"');
  }

  /** escQuInHTML at a tag: the tag rewritten, then the rest of the document. */
  lemma EscQuInHTMLAtTag(s: string, n: nat)
    requires AttrTagAt(s) == Some(n)
    ensures EscQuInHTML(s) == EscTag(s[..n]) + EscQuInHTML(s[n..])
  {
  }

  /** Text before the first tag with attributes comes out as it went in. */
  lemma {:induction false} EscQuInHTMLKeepsPrefix(s: string, i: nat)
    requires i <= |s|
    requires forall j :: 0 <= j < i ==> AttrTagAt(s[j..]).None?
    ensures EscQuInHTML(s) == s[..i] + EscQuInHTML(s[i..])
    decreases i
  {
    if i == 0 {
      assert s[..0] + s[0..] == s;
    } else {
      var t := s[1..];
      NoTagShift(s, i);
      EscQuInHTMLKeepsPrefix(t, i - 1);
      assert s[0..] == s;
      EscQuInHTMLByte(s);
      PrefixStep(s, i, EscQuInHTML(s[i..]));
    }
  }

  lemma NoTagShift(s: string, i: nat)
    requires 0 < i <= |s|
    requires forall j :: 0 <= j < i ==> AttrTagAt(s[j..]).None?
    ensures forall j :: 0 <= j < i - 1 ==> AttrTagAt(s[1..][j..]).None?
  {
    forall j | 0 <= j < i - 1
      ensures AttrTagAt(s[1..][j..]).None?
    {
      assert s[1..][j..] == s[j + 1..];
    }
  }

  /** One byte moved from the front of a prefix. */
  lemma PrefixStep(s: string, i: nat, r: string)
    requires 0 < i <= |s|
    ensures [s[0]] + (s[1..][..i - 1] + r) == s[..i] + r && s[1..][i - 1..] == s[i..]
  {
    assert [s[0]] + s[1..][..i - 1] == s[..i];
  }

  /** escQuInHTML away from a tag: the byte kept, then the rest of the document. */
  lemma EscQuInHTMLByte(s: string)
    requires s != [] && AttrTagAt(s).None?
    ensures EscQuInHTML(s) == [s[0]] + EscQuInHTML(s[1..])
  {
  }

  /** escQuInHTML at its first tag: the text before it kept, the tag rewritten, then the rest
      of the document. */
  lemma EscQuInHTMLFirstTag(s: string, i: nat, n: nat)
    requires i <= |s|
    requires forall j :: 0 <= j < i ==> AttrTagAt(s[j..]).None?
    requires AttrTagAt(s[i..]) == Some(n)
    ensures i + n <= |s|
    ensures EscQuInHTML(s) == s[..i] + EscTag(s[i..i + n]) + EscQuInHTML(s[i + n..])
  {
    var t := s[i..];
    EscQuInHTMLKeepsPrefix(s, i);
    EscQuInHTMLAtTag(t, n);
    SuffixSlices(s, i, n);
  }

  /** Slices of a suffix are slices of the whole. */
  lemma SuffixSlices(s: string, i: nat, n: nat)
    requires i + n <= |s|
    ensures s[i..][..n] == s[i..i + n] && s[i..][n..] == s[i + n..]
  {
  }

  /** The quote count is kept across a rewritten tag at the front. */
  lemma QuoteCountTag(s: string, n: nat, rest: string)
    requires n <= |s|
    requires Count(rest, '"') == Count(s[n..], '"')
    ensures Count(EscTag(s[..n]) + rest, '"') == Count(s, '"')
  {
    EscTagKeepsQuoteCount(s[..n]);
    CountConcat(EscTag(s[..n]), rest, '"');
    CountSplit(s, n, '"');
  }

  /** The quote count is kept across a byte kept at the front. */
  lemma QuoteCountByte(s: string)
    requires s != [] && AttrTagAt(s).None?
    requires Count(EscQuInHTML(s[1..]), '"') == Count(s[1..], '"')
    ensures Count(EscQuInHTML(s), '"') == Count(s, '"')
  {
    var rest := EscQuInHTML(s[1..]);
    assert EscQuInHTML(s) == [s[0]] + rest;
    assert ([s[0]] + rest)[1..] == rest;
  }

  /** escQuInHTML never adds or drops a double quote anywhere in the document. */
  lemma {:induction false} EscQuInHTMLKeepsQuoteCount(s: string)
    ensures Count(EscQuInHTML(s), '"') == Count(s, '"')
    decreases |s|
  {
    if s != [] {
      match AttrTagAt(s)
      case Some(n) =>
        EscQuInHTMLKeepsQuoteCount(s[n..]);
        EscQuInHTMLAtTag(s, n);
        QuoteCountTag(s, n, EscQuInHTML(s[n..]));
      case None =>
        EscQuInHTMLKeepsQuoteCount(s[1..]);
        QuoteCountByte(s);
    }
  }

  lemma {:induction false} EscapeQuotesHasNoPairs(t: string)
    requires '\\' !in t
    ensures !Contains(EscapeQuotes(t), "\\\\")
    decreases |t|
  {
    if t != [] {
      assert '\\' !in t[1..];
      EscapeQuotesHasNoPairs(t[1..]);
      var rest := EscapeQuotes(t[1..]);
      if "\"" <= t {
        var r := "\\\"" + rest;
        assert EscapeQuotes(t) == r;
        assert r[1..] == "\"" + rest && r[1..][1..] == rest;
        assert !("\\\\" <= r[1..]);
      } else {
        var r := [t[0]] + rest;
        assert EscapeQuotes(t) == r;
        assert r[1..] == rest;
        assert t[0] != '\\' && r[0] == t[0];
        assert r[0] != "\\\\"[0];
      }
    }
  }

  lemma {:induction false} EscapeTwiceCollapses(t: string)
    requires '\\' !in t
    ensures CollapseBackslashes(EscapeQuotes(EscapeQuotes(t))) == EscapeQuotes(t)
    decreases |t|
  {
    if t != [] {
      var rest := t[1..];
      assert t == [t[0]] + rest;
      assert '\\' !in rest;
      EscapeTwiceCollapses(rest);
      var e2 := EscapeQuotes(EscapeQuotes(rest));
      if t[0] == '"' {
        // `"` becomes `\"`, then `\\"`, and the leading `\\` pair collapses back to `\`
        EscapeQuoteHead(rest);
        QuoteEscapedTwice(EscapeQuotes(rest));
        CollapsePairHead(e2);
      } else {
        EscapeQuoteOther(t[0], rest);
        EscapeQuoteOther(t[0], EscapeQuotes(rest));
        CollapseOther(t[0], e2);
      }
    }
  }

  lemma EscapeQuoteHead(r: string)
    ensures EscapeQuotes("\"" + r) == "\\\"" + EscapeQuotes(r)
  {
    ReplaceHere("\"", r, "\"", "\\\"");
  }

  lemma EscapeQuoteOther(c: char, r: string)
    requires c != '"'
    ensures EscapeQuotes([c] + r) == [c] + EscapeQuotes(r)
  {
    ReplaceSkip(c, r, "\"", "\\\"");
  }

  lemma QuoteEscapedTwice(e: string)
    ensures EscapeQuotes("\\\"" + e) == "\\\\\"" + EscapeQuotes(e)
  {
    var x := "\"" + e;
    assert "\\\"" + e == ['\\'] + x;
    EscapeQuoteOther('\\', x);
    EscapeQuoteHead(e);
    assert ['\\'] + ("\\\"" + EscapeQuotes(e)) == "\\\\\"" + EscapeQuotes(e);
  }

  lemma CollapsePairHead(r: string)
    ensures CollapseBackslashes("\\\\\"" + r) == "\\\"" + CollapseBackslashes(r)
  {
    assert "\\\\\"" + r == "\\\\" + ("\"" + r);
    ReplaceHere("\\\\", "\"" + r, "\\\\", "\\");
    ReplaceSkip('"', r, "\\\\", "\\");
  }

  lemma CollapseOther(c: char, r: string)
    requires c != '\\'
    ensures CollapseBackslashes([c] + r) == [c] + CollapseBackslashes(r)
  {
    ReplaceSkip(c, r, "\\\\", "\\");
  }

  /** In a tag with no backslash the rewrite just escapes each quote, and rewriting an
      already-rewritten tag changes nothing: an escaped `\"` stays `\"`. */
  lemma EscTagOnCleanTag(t: string)
    requires '\\' !in t
    ensures EscTag(t) == EscapeQuotes(t)
    ensures EscTag(EscTag(t)) == EscTag(t)
  {
    EscapeQuotesHasNoPairs(t);
    EscapeTwiceCollapses(t);
  }

  /** No `<` in `s` opens a tag with attributes: its name run is empty, or runs to the end,
      or is not followed by white space (`<b>`, `</p>`, `<br/>`, `a < b`). */
  predicate NoAttrOpening(s: string) {
    forall i :: 0 <= i < |s| && s[i] == '<' ==>
      WordRun(s[i + 1..]) == 0 || i + 1 + WordRun(s[i + 1..]) >= |s| || !IsSpace(s[i + 1 + WordRun(s[i + 1..])])
  }

  /** Tags without attributes pass through escQuInHTML unchanged, quotes and all. */
  lemma PlainTagsUntouched(s: string)
    requires NoAttrOpening(s)
    ensures EscQuInHTML(s) == s
  {
    forall i | 0 <= i < |s|
      ensures AttrTagAt(s[i..]) == None
    {
      assert s[i..][1..] == s[i + 1..];
    }
    NoTagFromHere(s, 0);
    assert s[0..] == s;
  }

  lemma {:induction false} NoTagFromHere(s: string, j: nat)
    requires j <= |s|
    requires forall i :: j <= i < |s| ==> AttrTagAt(s[i..]) == None
    ensures !HasAttrTag(s[j..])
    decreases |s| - j
  {
    if j < |s| {
      NoTagFromHere(s, j + 1);
      assert s[j..][1..] == s[j + 1..];
    }
  }

  // ---------------------------------------------------------------- fixErrComma

  /** Length of a match of `,\s*[\}\]]` at the head of `s`, if there is one. */
  function CommaCloseAt(s: string): (m: Option<nat>)
    ensures m.Some? ==> 2 <= m.value <= |s| && s[0] == ','
    ensures m.Some? ==> s[m.value - 1] == '}' || s[m.value - 1] == ']'
    ensures m.Some? ==> forall i :: 1 <= i < m.value - 1 ==> IsSpace(s[i])
  {
    if s != [] && s[0] == ',' then
      var k := SpaceRun(s[1..]);
      if 1 + k < |s| && (s[1 + k] == '}' || s[1 + k] == ']') then Some(2 + k) else None
    else None
  }

  /** Does a comma followed by optional whitespace and a closing bracket occur in `s`? */
  predicate HasTrailingComma(s: string)
    decreases |s|
  {
    s != [] && (CommaCloseAt(s).Some? || HasTrailingComma(s[1..]))
  }

  /** fixErrComma: in each match the comma and the whitespace become one space; the bracket stays. */
  function FixErrComma(s: string): (r: string)
    ensures |r| <= |s|
    ensures !HasTrailingComma(s) ==> r == s
    ensures forall c :: c in r ==> c in s || c == ' '
    decreases |s|
  {
    if s == [] then []
    else match CommaCloseAt(s)
      case Some(n) =>
        var rest := FixErrComma(s[n..]);
        assert forall c :: c in s[n..] ==> c in s;
        [' ', s[n - 1]] + rest
      case None =>
        var rest := FixErrComma(s[1..]);
        assert forall c :: c in s[1..] ==> c in s;
        [s[0]] + rest
  }

  /** `s` with every comma and every whitespace byte removed. */
  function Significant(s: string): string
    decreases |s|
  {
    if s == [] then []
    else (if s[0] == ',' || IsSpace(s[0]) then [] else [s[0]]) + Significant(s[1..])
  }

  lemma {:induction false} SignificantSkips(s: string, k: nat)
    requires k <= |s|
    requires forall i :: 0 <= i < k ==> s[i] == ',' || IsSpace(s[i])
    ensures Significant(s) == Significant(s[k..])
    decreases k
  {
    if k > 0 {
      SignificantSkips(s[1..], k - 1);
      assert s[1..][k - 1..] == s[k..];
    }
  }

  /** fixErrComma only ever touches commas and whitespace: with those removed, input and output
      are the same text. */
  lemma {:induction false} FixErrCommaOnlyTouchesCommas(s: string)
    ensures Significant(FixErrComma(s)) == Significant(s)
    decreases |s|
  {
    if s != [] {
      match CommaCloseAt(s)
      case Some(n) =>
        FixErrCommaOnlyTouchesCommas(s[n..]);
        SignificantSkips(s, n - 1);
        var r := [' ', s[n - 1]] + FixErrComma(s[n..]);
        assert r[1..][1..] == FixErrComma(s[n..]);
        assert s[n - 1..][1..] == s[n..];
      case None =>
        FixErrCommaOnlyTouchesCommas(s[1..]);
        assert ([s[0]] + FixErrComma(s[1..]))[1..] == FixErrComma(s[1..]);
    }
  }

  /** fixErrComma away from a match: the byte kept, then the rest. */
  lemma FixErrCommaByte(s: string)
    requires s != [] && CommaCloseAt(s).None?
    ensures FixErrComma(s) == [s[0]] + FixErrComma(s[1..])
  {
  }

  /** fixErrComma at a match: one space and the bracket, then the rest. */
  lemma FixErrCommaAtMatch(s: string, n: nat)
    requires CommaCloseAt(s) == Some(n)
    ensures FixErrComma(s) == " " + [s[n - 1]] + FixErrComma(s[n..])
  {
  }

  /** Text before the first trailing comma comes out as it went in, commas included. */
  lemma {:induction false} FixErrCommaKeepsPrefix(s: string, i: nat)
    requires i <= |s|
    requires forall j :: 0 <= j < i ==> CommaCloseAt(s[j..]).None?
    ensures FixErrComma(s) == s[..i] + FixErrComma(s[i..])
    decreases i
  {
    if i == 0 {
      assert s[..0] + s[0..] == s;
    } else {
      NoCommaCloseShift(s, i);
      FixErrCommaKeepsPrefix(s[1..], i - 1);
      assert s[0..] == s;
      FixErrCommaByte(s);
      PrefixStep(s, i, FixErrComma(s[i..]));
    }
  }

  lemma NoCommaCloseShift(s: string, i: nat)
    requires 0 < i <= |s|
    requires forall j :: 0 <= j < i ==> CommaCloseAt(s[j..]).None?
    ensures forall j :: 0 <= j < i - 1 ==> CommaCloseAt(s[1..][j..]).None?
  {
    forall j | 0 <= j < i - 1
      ensures CommaCloseAt(s[1..][j..]).None?
    {
      assert s[1..][j..] == s[j + 1..];
    }
  }

  /** fixErrComma at its first match: the text before it kept (every comma there stays), the
      comma and whitespace turned into one space before the bracket, then the rest. */
  lemma FixErrCommaFirstMatch(s: string, i: nat, n: nat)
    requires i <= |s|
    requires forall j :: 0 <= j < i ==> CommaCloseAt(s[j..]).None?
    requires CommaCloseAt(s[i..]) == Some(n)
    ensures i + n <= |s| && (s[i + n - 1] == '}' || s[i + n - 1] == ']')
    ensures FixErrComma(s) == s[..i] + " " + [s[i + n - 1]] + FixErrComma(s[i + n..])
  {
    FixErrCommaKeepsPrefix(s, i);
    FixErrCommaAfterPrefix(s, i, n);
  }

  lemma FixErrCommaAfterPrefix(s: string, i: nat, n: nat)
    requires i <= |s| && CommaCloseAt(s[i..]) == Some(n)
    ensures i + n <= |s| && (s[i + n - 1] == '}' || s[i + n - 1] == ']')
    ensures s[..i] + FixErrComma(s[i..]) == s[..i] + " " + [s[i + n - 1]] + FixErrComma(s[i + n..])
  {
    var t := s[i..];
    FixErrCommaAtMatch(t, n);
    SuffixSlices(s, i, n);
    var x := t[n - 1];
    assert x == s[i + n - 1];
    var r := FixErrComma(s[i + n..]);
    assert s[..i] + (" " + [x] + r) == s[..i] + " " + [x] + r;
  }

  /** No comma is followed, after optional whitespace, by another comma (`,,` or `, ,`). */
  predicate NoDoubledComma(s: string) {
    forall i :: 0 <= i < |s| && s[i] == ',' ==>
      i + 1 + SpaceRun(s[i + 1..]) < |s| ==> s[i + 1 + SpaceRun(s[i + 1..])] != ','
  }

  lemma NoDoubledCommaDrop(s: string, k: nat)
    requires NoDoubledComma(s) && k <= |s|
    ensures NoDoubledComma(s[k..])
  {
    var t := s[k..];
    forall i | 0 <= i < |t| && t[i] == ','
      ensures i + 1 + SpaceRun(t[i + 1..]) < |t| ==> t[i + 1 + SpaceRun(t[i + 1..])] != ','
    {
      assert t[i] == s[k + i];
      assert t[i + 1..] == s[k + i + 1..];
    }
  }

  /** A comma-free prefix holds no trailing comma. */
  lemma {:induction false} TrailingCommaAfter(w: string, r: string)
    requires ',' !in w
    ensures HasTrailingComma(w + r) == HasTrailingComma(r)
    decreases |w|
  {
    if w == [] {
      assert w + r == r;
    } else {
      assert (w + r)[0] == w[0] && ',' !in w[1..];
      assert (w + r)[1..] == w[1..] + r;
      TrailingCommaAfter(w[1..], r);
    }
  }

  /** White space followed by a byte that is not white space: the run is the white space. */
  lemma {:induction false} SpaceRunOf(w: string, x: char, r: string)
    requires forall i :: 0 <= i < |w| ==> IsSpace(w[i])
    requires !IsSpace(x)
    ensures SpaceRun(w + [x] + r) == |w|
    decreases |w|
  {
    if w == [] {
      assert (w + [x] + r)[0] == x;
    } else {
      assert (w + [x] + r)[1..] == w[1..] + [x] + r;
      SpaceRunOf(w[1..], x, r);
    }
  }

  /** The white-space run `w` after a comma, and the comma and run removed from what follows. */
  lemma FixErrCommaSpaces(s: string, k: nat, w: string)
    requires |s| > 1 + k && k == SpaceRun(s[1..]) && w == s[1..1 + k]
    ensures FixErrComma(s[1..]) == w + FixErrComma(s[1 + k..])
    ensures forall i :: 0 <= i < |w| ==> IsSpace(w[i])
  {
    var t := s[1..];
    forall j | 0 <= j < k
      ensures CommaCloseAt(t[j..]).None?
    {
      assert t[j..][0] == t[j];
    }
    FixErrCommaKeepsPrefix(t, k);
    assert t[..k] == w && t[k..] == s[1 + k..];
    forall i | 0 <= i < |w|
      ensures IsSpace(w[i])
    {
      assert w[i] == t[i];
    }
  }

  /** A comma before white space and a byte other than a bracket, a comma or white space. */
  lemma NoTrailingCommaAt(w: string, x: char, r: string)
    requires forall i :: 0 <= i < |w| ==> IsSpace(w[i])
    requires !IsSpace(x) && x != ',' && x != '}' && x != ']'
    requires !HasTrailingComma(r)
    ensures !HasTrailingComma([','] + (w + [x] + r))
  {
    var out := [','] + (w + [x] + r);
    SpaceRunOf(w, x, r);
    assert out[1..] == w + [x] + r;
    assert out[1 + |w|] == x;
    assert CommaCloseAt(out).None?;
    assert ',' !in w + [x];
    TrailingCommaAfter(w + [x], r);
    assert w + [x] + r == (w + [x]) + r;
  }

  /** A comma before white space that runs to the end. */
  lemma NoTrailingCommaAtEnd(w: string)
    requires forall i :: 0 <= i < |w| ==> IsSpace(w[i])
    ensures !HasTrailingComma([','] + w)
  {
    var out := [','] + w;
    assert out[1..] == w;
    assert SpaceRun(w) == |w|;
    assert CommaCloseAt(out).None?;
    assert ',' !in w;
    TrailingCommaAfter(w, []);
    assert w + [] == w;
  }

  /** When no comma is followed, after optional whitespace, by another comma, one pass of
      fixErrComma leaves no trailing comma behind. */
  lemma {:induction false} FixErrCommaRemovesTrailingCommas(s: string)
    requires NoDoubledComma(s)
    ensures !HasTrailingComma(FixErrComma(s))
    decreases |s|
  {
    if s != [] {
      match CommaCloseAt(s)
      case Some(n) =>
        NoDoubledCommaDrop(s, n);
        FixErrCommaRemovesTrailingCommas(s[n..]);
        CleanAfterMatch(s, n);
      case None =>
        if s[0] != ',' {
          NoDoubledCommaDrop(s, 1);
          FixErrCommaRemovesTrailingCommas(s[1..]);
          CleanAfterByte(s);
        } else {
          var k := SpaceRun(s[1..]);
          if 1 + k < |s| {
            assert s[0 + 1..] == s[1..];
            NoDoubledCommaDrop(s, 2 + k);
            FixErrCommaRemovesTrailingCommas(s[2 + k..]);
            CleanAfterComma(s, k);
          } else {
            CleanAfterFinalComma(s, k);
          }
        }
    }
  }

  lemma CleanAfterMatch(s: string, n: nat)
    requires CommaCloseAt(s) == Some(n)
    requires !HasTrailingComma(FixErrComma(s[n..]))
    ensures !HasTrailingComma(FixErrComma(s))
  {
    FixErrCommaAtMatch(s, n);
    TrailingCommaAfter(" " + [s[n - 1]], FixErrComma(s[n..]));
  }

  lemma CleanAfterByte(s: string)
    requires s != [] && s[0] != ','
    requires !HasTrailingComma(FixErrComma(s[1..]))
    ensures !HasTrailingComma(FixErrComma(s))
  {
    FixErrCommaByte(s);
    TrailingCommaAfter([s[0]], FixErrComma(s[1..]));
  }

  /** A comma, its white-space run, then a byte that is no bracket and no comma. */
  lemma CleanAfterComma(s: string, k: nat)
    requires |s| > 1 + k && s[0] == ',' && k == SpaceRun(s[1..])
    requires CommaCloseAt(s).None? && s[1 + k] != ','
    requires !HasTrailingComma(FixErrComma(s[2 + k..]))
    ensures !HasTrailingComma(FixErrComma(s))
  {
    var x := s[1 + k];
    var w := s[1..1 + k];
    assert s[1..][k] == x;
    assert !IsSpace(x) && x != '}' && x != ']';
    var u := s[1 + k..];
    var r := FixErrComma(s[2 + k..]);
    FixErrCommaSpaces(s, k, w);
    UnfoldAfterComma(s, u, x, r);
    NoTrailingCommaAt(w, x, r);
    Regroup(FixErrComma(s), FixErrComma(s[1..]), FixErrComma(u), w, x, r);
  }

  lemma Regroup(a: string, b: string, c: string, w: string, x: char, r: string)
    requires a == [','] + b && b == w + c && c == [x] + r
    ensures a == [','] + (w + [x] + r)
  {
  }

  lemma UnfoldAfterComma(s: string, u: string, x: char, r: string)
    requires s != [] && s[0] == ',' && CommaCloseAt(s).None?
    requires u != [] && u[0] == x && x != ',' && r == FixErrComma(u[1..])
    ensures FixErrComma(u) == [x] + r
    ensures FixErrComma(s) == [','] + FixErrComma(s[1..])
  {
    FixErrCommaByte(s);
    FixErrCommaByte(u);
  }

  /** A comma followed by white space up to the end. */
  lemma CleanAfterFinalComma(s: string, k: nat)
    requires s != [] && s[0] == ',' && k == SpaceRun(s[1..]) && 1 + k >= |s|
    ensures !HasTrailingComma(FixErrComma(s))
  {
    var t := s[1..];
    forall j | 0 <= j < k
      ensures CommaCloseAt(t[j..]).None?
    {
      assert t[j..][0] == t[j];
    }
    FixErrCommaKeepsPrefix(t, k);
    assert t[..k] == t && t[k..] == [];
    assert CommaCloseAt(s).None?;
    FixErrCommaByte(s);
    NoTrailingCommaAtEnd(t);
  }

  // ---------------------------------------------------------------- the whole repair

  /** The rewrites in Preproc's fixed order (preproc.go:168-171). */
  function Repaired(data: string): string {
    FixErrComma(EscQuInHTML(RmPtag(RmLF(data))))
  }

  /** No line break survives the repair: the later passes only ever add `<br>`, `\` and ' '. */
  lemma RepairedHasNoLineBreaks(data: string)
    ensures '\n' !in Repaired(data) && '\r' !in Repaired(data)
  {
    var a := RmLF(data);
    var b := RmPtag(a);
    var c := EscQuInHTML(b);
    assert '\n' !in a && '\r' !in a;
    assert '\n' !in "<br>" && '\r' !in "<br>";
    assert '\n' !in b && '\r' !in b;
    assert '\n' !in c && '\r' !in c;
  }

  /** Running the repair twice is not the same as running it once: fixErrComma is a single pass
      and can expose a new trailing comma. */
  lemma FixErrCommaNotIdempotent()
    ensures FixErrComma(",,}") == ", }"
    ensures FixErrComma(", }") == " }"
  {
    var s := ",,}";
    assert SpaceRun(s[1..]) == 0;
    assert CommaCloseAt(s) == None;
    assert s[1..] == ",}";
    assert SpaceRun(s[1..][1..]) == 0;
    assert CommaCloseAt(s[1..]) == Some(2);
    assert s[1..][2..] == [];
    var t := ", }";
    assert SpaceRun(t[1..]) == 1;
    assert CommaCloseAt(t) == Some(3);
    assert t[3..] == [];
  }
}
