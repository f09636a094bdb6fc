/** The shape shared by every directory pass of the pipeline: entries are handled one by one
    in listing order, and the first entry that fails ends the pass (a `return err` inside the
    Go `for` loop). */
module Fold {
  import opened Common

  /** The state of a pass: still going, or stopped with the outcome it returns. */
  datatype Pass<S> = Going(state: S) | Stopped(state: S, outcome: Outcome)

  /** What the Go function returns at the end of the pass. */
  function OutcomeOf<S>(p: Pass<S>): Outcome {
    if p.Going? then Done else p.outcome
  }

  /** Run `step` over `xs` from state `s`, stopping at the first step that stops. */
  function Run<X, S>(xs: seq<X>, s: S, step: (X, S) -> Pass<S>): Pass<S>
    decreases |xs|
  {
    if xs == [] then Going(s)
    else match Run(xs[..|xs| - 1], s, step)
      case Stopped(t, o) => Stopped(t, o)
      case Going(t) => step(xs[|xs| - 1], t)
  }

  /** Continue a pass that may already have stopped. */
  function Then<X, S>(p: Pass<S>, ys: seq<X>, step: (X, S) -> Pass<S>): Pass<S> {
    match p
    case Stopped(t, o) => Stopped(t, o)
    case Going(t) => Run(ys, t, step)
  }

  /** A pass over `xs + ys` is the pass over `xs` continued over `ys`. */
  lemma {:induction false} RunAppend<X, S>(xs: seq<X>, ys: seq<X>, s: S, step: (X, S) -> Pass<S>)
    ensures Run(xs + ys, s, step) == Then(Run(xs, s, step), ys, step)
    decreases |ys|
  {
    if ys == [] {
      assert xs + ys == xs;
      match Run(xs, s, step)
      case Stopped(t, o) =>
      case Going(t) =>
    } else {
      var ys' := ys[..|ys| - 1];
      assert (xs + ys)[..|xs + ys| - 1] == xs + ys';
      RunAppend(xs, ys', s, step);
      match Run(xs, s, step)
      case Stopped(t, o) =>
      case Going(t) =>
        assert ys[..|ys| - 1] == ys';
    }
  }

  /** Once a pass has stopped, no later entry is looked at. */
  lemma RunStopped<X, S>(xs: seq<X>, i: nat, s: S, step: (X, S) -> Pass<S>)
    requires i <= |xs|
    requires Run(xs[..i], s, step).Stopped?
    ensures Run(xs, s, step) == Run(xs[..i], s, step)
  {
    assert xs == xs[..i] + xs[i..];
    RunAppend(xs[..i], xs[i..], s, step);
  }

  /** The last entry of a pass: looked at only when the pass over the others is still going. */
  lemma RunLast<X, S>(xs: seq<X>, s: S, step: (X, S) -> Pass<S>)
    requires xs != []
    ensures var pre := Run(xs[..|xs| - 1], s, step);
            Run(xs, s, step) == if pre.Going? then step(xs[|xs| - 1], pre.state) else pre
  {
  }

  /** One step further along a pass that is still going. */
  lemma RunExtend<X, S>(xs: seq<X>, i: nat, s: S, step: (X, S) -> Pass<S>, t: S)
    requires i < |xs|
    requires Run(xs[..i], s, step) == Going(t)
    ensures Run(xs[..i + 1], s, step) == step(xs[i], t)
  {
    assert xs[..i + 1][..i] == xs[..i];
  }

  /** One step further, and the whole pass when that step stops it. */
  lemma RunNext<X, S>(xs: seq<X>, i: nat, s: S, step: (X, S) -> Pass<S>, t: S)
    requires i < |xs|
    requires Run(xs[..i], s, step) == Going(t)
    ensures Run(xs[..i + 1], s, step) == step(xs[i], t)
    ensures step(xs[i], t).Stopped? ==> Run(xs, s, step) == step(xs[i], t)
  {
    RunExtend(xs, i, s, step, t);
    if step(xs[i], t).Stopped? {
      RunStopped(xs, i + 1, s, step);
    }
  }

  /** An entry that stops a pass still going ends the whole pass there. */
  lemma RunStopsHere<X, S>(pre: seq<X>, x: X, post: seq<X>, s: S, step: (X, S) -> Pass<S>, t: S)
    requires Run(pre, s, step) == Going(t) && step(x, t).Stopped?
    ensures Run(pre + [x] + post, s, step) == step(x, t)
  {
    RunAppend(pre + [x], post, s, step);
    RunAppend(pre, [x], s, step);
    assert Run([x], t, step) == step(x, t);
  }

  /** A pass that stopped was stopped by one entry, every entry before it having gone through,
      and the entries after it were not looked at. */
  lemma {:induction false} RunStopsAt<X, S>(xs: seq<X>, s: S, step: (X, S) -> Pass<S>)
    requires Run(xs, s, step).Stopped?
    ensures exists k :: 0 <= k < |xs| && Run(xs[..k], s, step).Going?
                        && Run(xs, s, step) == step(xs[k], Run(xs[..k], s, step).state)
    decreases |xs|
  {
    var pre := xs[..|xs| - 1];
    if Run(pre, s, step).Stopped? {
      RunStopsAt(pre, s, step);
      var k :| 0 <= k < |pre| && Run(pre[..k], s, step).Going?
               && Run(pre, s, step) == step(pre[k], Run(pre[..k], s, step).state);
      assert pre[..k] == xs[..k] && pre[k] == xs[k];
    } else {
      assert xs[..|xs| - 1] == pre;
    }
  }

  /** A pass whose steps only stop with an error stops with an error. */
  lemma {:induction false} RunStopsWithError<X, S>(xs: seq<X>, s: S, step: (X, S) -> Pass<S>)
    requires forall x, t :: step(x, t).Stopped? ==> step(x, t).outcome != Done
    ensures Run(xs, s, step).Stopped? ==> Run(xs, s, step).outcome != Done
    decreases |xs|
  {
    if xs != [] {
      RunStopsWithError(xs[..|xs| - 1], s, step);
    }
  }

  // ---------------------------------------------------------------- passes that fill a map

  /** What one entry does to a map being filled: nothing, a put (replacing any earlier value
      under that key), or the end of the pass. */
  datatype Keyed<V> = Skip | Put(key: string, value: V) | Halt(outcome: Outcome)

  function KeyedStep<V>(c: Keyed<V>, m: map<string, V>): Pass<map<string, V>> {
    match c
    case Skip => Going(m)
    case Put(k, v) => Going(m[k := v])
    case Halt(o) => Stopped(m, o)
  }

  function KeyedSteps<X, V>(f: X -> Keyed<V>): (X, map<string, V>) -> Pass<map<string, V>> {
    (x: X, m: map<string, V>) => KeyedStep(f(x), m)
  }

  /** How many entries put a value. */
  function Puts<X, V>(xs: seq<X>, f: X -> Keyed<V>): nat
    decreases |xs|
  {
    if xs == [] then 0 else Puts(xs[..|xs| - 1], f) + (if f(xs[|xs| - 1]).Put? then 1 else 0)
  }

  lemma KeyedLast<X, V>(xs: seq<X>, m0: map<string, V>, f: X -> Keyed<V>)
    requires xs != [] && Run(xs, m0, KeyedSteps(f)).Going?
    ensures var pre := Run(xs[..|xs| - 1], m0, KeyedSteps(f));
            && pre.Going?
            && Run(xs, m0, KeyedSteps(f)) == KeyedStep(f(xs[|xs| - 1]), pre.state)
  {
  }

  /** A completed pass met no entry that ends it. */
  lemma {:induction false} KeyedNoHalt<X, V>(xs: seq<X>, m0: map<string, V>, f: X -> Keyed<V>)
    requires Run(xs, m0, KeyedSteps(f)).Going?
    ensures forall i :: 0 <= i < |xs| ==> !f(xs[i]).Halt?
    decreases |xs|
  {
    if xs != [] {
      var pre := xs[..|xs| - 1];
      KeyedLast(xs, m0, f);
      KeyedNoHalt(pre, m0, f);
      assert forall i :: 0 <= i < |pre| ==> xs[i] == pre[i];
    }
  }

  /** The keys after a pass (completed or not): the initial ones and those put. */
  lemma {:induction false} KeyedKeys<X, V>(xs: seq<X>, m0: map<string, V>, f: X -> Keyed<V>)
    ensures forall k :: k in Run(xs, m0, KeyedSteps(f)).state ==>
              k in m0 || exists i :: 0 <= i < |xs| && f(xs[i]).Put? && f(xs[i]).key == k
    ensures Run(xs, m0, KeyedSteps(f)).Going? ==>
              (forall k :: k in m0 ==> k in Run(xs, m0, KeyedSteps(f)).state)
              && (forall i :: 0 <= i < |xs| && f(xs[i]).Put? ==> f(xs[i]).key in Run(xs, m0, KeyedSteps(f)).state)
    decreases |xs|
  {
    if xs != [] {
      var pre := xs[..|xs| - 1];
      var last := xs[|xs| - 1];
      KeyedKeys(pre, m0, f);
      var p := Run(pre, m0, KeyedSteps(f));
      var m := Run(xs, m0, KeyedSteps(f)).state;
      if p.Going? {
        assert Run(xs, m0, KeyedSteps(f)) == KeyedStep(f(last), p.state);
      }
      forall k | k in m && k !in m0
        ensures exists i :: 0 <= i < |xs| && f(xs[i]).Put? && f(xs[i]).key == k
      {
        if k in p.state {
          var i :| 0 <= i < |pre| && f(pre[i]).Put? && f(pre[i]).key == k;
          assert xs[i] == pre[i];
        } else {
          assert f(xs[|xs| - 1]).Put?;
        }
      }
      if Run(xs, m0, KeyedSteps(f)).Going? {
        forall i | 0 <= i < |xs| && f(xs[i]).Put?
          ensures f(xs[i]).key in m
        {
          if i < |pre| {
            assert xs[i] == pre[i];
          }
        }
      }
    }
  }

  /** After a completed pass each key put holds the value of the LAST entry that put it. */
  lemma {:induction false} KeyedLastWins<X, V>(xs: seq<X>, m0: map<string, V>, f: X -> Keyed<V>)
    requires Run(xs, m0, KeyedSteps(f)).Going?
    ensures var m := Run(xs, m0, KeyedSteps(f)).state;
            forall i :: 0 <= i < |xs| && f(xs[i]).Put?
                        && (forall j :: i < j < |xs| && f(xs[j]).Put? ==> f(xs[j]).key != f(xs[i]).key) ==>
              f(xs[i]).key in m && m[f(xs[i]).key] == f(xs[i]).value
    decreases |xs|
  {
    if xs != [] {
      var pre := xs[..|xs| - 1];
      KeyedLast(xs, m0, f);
      KeyedLastWins(pre, m0, f);
      var m := Run(xs, m0, KeyedSteps(f)).state;
      forall i | 0 <= i < |xs| && f(xs[i]).Put?
                 && (forall j :: i < j < |xs| && f(xs[j]).Put? ==> f(xs[j]).key != f(xs[i]).key)
        ensures f(xs[i]).key in m && m[f(xs[i]).key] == f(xs[i]).value
      {
        if i < |pre| {
          assert xs[i] == pre[i];
          assert forall j :: i < j < |pre| ==> pre[j] == xs[j];
        }
      }
    }
  }

  /** After a completed pass a key put by no entry keeps its initial value. */
  lemma {:induction false} KeyedUntouched<X, V>(xs: seq<X>, m0: map<string, V>, f: X -> Keyed<V>)
    requires Run(xs, m0, KeyedSteps(f)).Going?
    ensures var m := Run(xs, m0, KeyedSteps(f)).state;
            forall k :: k in m0 && (forall i :: 0 <= i < |xs| && f(xs[i]).Put? ==> f(xs[i]).key != k) ==>
              k in m && m[k] == m0[k]
    decreases |xs|
  {
    if xs != [] {
      var pre := xs[..|xs| - 1];
      KeyedLast(xs, m0, f);
      KeyedUntouched(pre, m0, f);
      assert forall i :: 0 <= i < |pre| ==> pre[i] == xs[i];
    }
  }
}
