/** Byte-string helpers: the character classes of Go's RE2 engine and strings.ReplaceAll.
    A Go string is a sequence of bytes; here each byte is one `char`. */
module Strings {

  /** RE2 `\s`: tab, newline, form feed, carriage return and space. */
  predicate IsSpace(c: char) {
    c == ' ' || c == '\t' || c == '\n' || c == '\U{000C}' || c == '\r'
  }

  /** RE2 `[\w\d]`: ASCII letters, digits and underscore. */
  predicate IsWord(c: char) {
    'a' <= c <= 'z' || 'A' <= c <= 'Z' || '0' <= c <= '9' || c == '_'
  }

  /** Does `pat` occur somewhere in `s`? */
  predicate Contains(s: string, pat: string)
    decreases |s|
  {
    pat <= s || (s != [] && Contains(s[1..], pat))
  }

  /** Number of occurrences of `c` in `s`. */
  function Count(s: string, c: char): nat
    decreases |s|
  {
    if s == [] then 0 else (if s[0] == c then 1 else 0) + Count(s[1..], c)
  }

  /** `s` with every `c` removed. */
  function Without(s: string, c: char): (r: string)
    decreases |s|
  {
    if s == [] then [] else (if s[0] == c then [] else [s[0]]) + Without(s[1..], c)
  }

  /** strings.ReplaceAll (and a regexp ReplaceAll over a literal pattern): the leftmost
      occurrences of `pat`, taken left to right without overlap, each become `rep`. */
  function ReplaceAll(s: string, pat: string, rep: string): (r: string)
    requires pat != []
    ensures !Contains(s, pat) ==> r == s
    ensures |rep| <= |pat| ==> |r| <= |s|
    ensures forall c :: c in r ==> c in s || c in rep
    ensures |pat| == 1 && pat[0] !in rep ==> pat[0] !in r
    decreases |s|
  {
    if s == [] then []
    else if pat <= s then
      var rest := ReplaceAll(s[|pat|..], pat, rep);
      assert forall c :: c in s[|pat|..] ==> c in s;
      rep + rest
    else
      var rest := ReplaceAll(s[1..], pat, rep);
      assert forall c :: c in s[1..] ==> c in s;
      [s[0]] + rest
  }

  /** A match at the head is replaced and the scan resumes after it. */
  lemma ReplaceHere(p: string, tail: string, pat: string, rep: string)
    requires pat != [] && pat <= p + tail && |pat| == |p|
    ensures ReplaceAll(p + tail, pat, rep) == rep + ReplaceAll(tail, pat, rep)
  {
    assert (p + tail)[|pat|..] == tail;
  }

  /** A byte that starts no match is kept and the scan moves one byte on. */
  lemma ReplaceSkip(c: char, tail: string, pat: string, rep: string)
    requires pat != [] && pat[0] != c
    ensures ReplaceAll([c] + tail, pat, rep) == [c] + ReplaceAll(tail, pat, rep)
  {
    assert ([c] + tail)[0] == c;
    assert ([c] + tail)[1..] == tail;
  }

  /** Counting in two pieces. */
  lemma CountSplit(s: string, n: nat, c: char)
    requires n <= |s|
    ensures Count(s, c) == Count(s[..n], c) + Count(s[n..], c)
  {
    assert s == s[..n] + s[n..];
    CountConcat(s[..n], s[n..], c);
  }

  lemma {:induction false} CountConcat(a: string, b: string, c: char)
    ensures Count(a + b, c) == Count(a, c) + Count(b, c)
    decreases |a|
  {
    if a == [] {
      assert a + b == b;
    } else {
      assert (a + b)[1..] == a[1..] + b;
      CountConcat(a[1..], b, c);
    }
  }

  /** Replacing a pattern by text holding as many `c` as the pattern keeps the number of `c`. */
  lemma {:induction false} CountReplaceAll(s: string, pat: string, rep: string, c: char)
    requires pat != []
    requires Count(pat, c) == Count(rep, c)
    ensures Count(ReplaceAll(s, pat, rep), c) == Count(s, c)
    decreases |s|
  {
    if s == [] {
    } else if pat <= s {
      CountReplaceAll(s[|pat|..], pat, rep, c);
      CountConcat(rep, ReplaceAll(s[|pat|..], pat, rep), c);
      assert s == pat + s[|pat|..];
      CountConcat(pat, s[|pat|..], c);
    } else {
      CountReplaceAll(s[1..], pat, rep, c);
      CountConcat([s[0]], ReplaceAll(s[1..], pat, rep), c);
    }
  }

  /** Replacing a one-character pattern by nothing is the filter that drops that character. */
  lemma {:induction false} ReplaceCharByNothing(s: string, c: char)
    ensures ReplaceAll(s, [c], "") == Without(s, c)
    decreases |s|
  {
    if s != [] {
      ReplaceCharByNothing(s[1..], c);
      if [c] <= s {
        assert s[0] == c;
      } else {
        assert s[0] != c;
      }
    }
  }

  /** A character that is absent is not an occurring one-character pattern. */
  lemma {:induction false} AbsentCharNotContained(s: string, c: char)
    requires c !in s
    ensures !Contains(s, [c])
    decreases |s|
  {
    if s != [] {
      assert s[0] != c;
      assert c !in s[1..];
      AbsentCharNotContained(s[1..], c);
    }
  }

  /** A pattern with a character that `s` lacks does not occur in `s`. */
  lemma {:induction false} AbsentPartNotContained(s: string, pat: string, i: nat)
    requires i < |pat| && pat[i] !in s
    ensures !Contains(s, pat)
    decreases |s|
  {
    if s != [] {
      assert pat[i] !in s[1..];
      AbsentPartNotContained(s[1..], pat, i);
    }
  }

  /** A prefix without the pattern's first byte is kept and the scan resumes after it. */
  lemma {:induction false} ReplaceKeepsPrefix(x: string, t: string, pat: string, rep: string)
    requires pat != [] && pat[0] !in x
    ensures ReplaceAll(x + t, pat, rep) == x + ReplaceAll(t, pat, rep)
    decreases |x|
  {
    if x != [] {
      var c, y := x[0], x[1..];
      assert x == [c] + y && pat[0] != c && pat[0] !in y;
      ReplaceKeepsPrefix(y, t, pat, rep);
      ReplaceSkip(c, y + t, pat, rep);
      Cons(c, y, t);
      Cons(c, y, ReplaceAll(t, pat, rep));
    } else {
      assert x + t == t && x + ReplaceAll(t, pat, rep) == ReplaceAll(t, pat, rep);
    }
  }

  lemma Cons(c: char, y: string, r: string)
    ensures [c] + y + r == [c] + (y + r)
  {
  }

  /** A prefix without the pattern's first byte holds no occurrence of it. */
  lemma {:induction false} ContainsAfterPrefix(x: string, t: string, pat: string)
    requires pat != [] && pat[0] !in x
    ensures Contains(x + t, pat) == Contains(t, pat)
    decreases |x|
  {
    if x != [] {
      assert pat[0] != x[0] && pat[0] !in x[1..];
      assert (x + t)[1..] == x[1..] + t;
      ContainsAfterPrefix(x[1..], t, pat);
    } else {
      assert x + t == t;
    }
  }

  /** A position where no match starts: its byte is kept and the scan moves on. */
  lemma ReplaceSkipAt(s: string, pat: string, rep: string)
    requires pat != [] && s != [] && !(pat <= s)
    ensures ReplaceAll(s, pat, rep) == [s[0]] + ReplaceAll(s[1..], pat, rep)
  {
  }
}
