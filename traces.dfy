/**
 * The scoping discipline, stated over the event log alone.
 *
 * Reading a log from left to right, `Enter(v)` opens a scope binding `v` and
 * `Exit` closes the innermost open one.  The value a read should see is that of
 * the innermost open scope, or the cell's value before the log began when no
 * scope is open.  The theorems below say that every log `Exec` produces obeys
 * this discipline, that its scopes are well bracketed, and that the cell always
 * equals the innermost open binding.
 */
module ScopeTraces {
  import opened Wrappers
  import opened ScopeSemantics

  /** The stack of open bindings after one more event. */
  function Step<T>(open: seq<T>, e: Event<T>): seq<T>
  {
    match e
    case Enter(v) => open + [v]
    case Exit => if open == [] then [] else open[..|open| - 1]
    case _ => open
  }

  /** The stack of open bindings after the events of `log`, starting from `open`. */
  function OpenAfter<T>(open: seq<T>, log: seq<Event<T>>): seq<T>
    decreases |log|
  {
    if log == [] then open else OpenAfter(Step(open, log[0]), log[1..])
  }

  /** The binding visible to a reader: the innermost open scope's, else the value before any scope opened. */
  function Innermost<T>(outer: Option<T>, open: seq<T>): Option<T>
  {
    if open == [] then outer else Some(open[|open| - 1])
  }

  /**
   * An event is coherent with the open scopes when a read sees the innermost
   * binding, a query answers whether there is one, and an exit has a scope to close.
   */
  ghost predicate Agrees<T>(outer: Option<T>, open: seq<T>, e: Event<T>)
  {
    match e
    case Saw(x) => Innermost(outer, open) == Some(x)
    case Asked(b) => b == Innermost(outer, open).Some?
    case Exit => open != []
    case Enter(_) => true
  }

  /** Every event of `log` is coherent with the scopes open just before it. */
  ghost predicate Coherent<T>(outer: Option<T>, open: seq<T>, log: seq<Event<T>>)
    decreases |log|
  {
    log == [] || (Agrees(outer, open, log[0]) && Coherent(outer, Step(open, log[0]), log[1..]))
  }

  lemma {:induction false} OpenAfterAppend<T>(open: seq<T>, a: seq<Event<T>>, b: seq<Event<T>>)
    ensures OpenAfter(open, a + b) == OpenAfter(OpenAfter(open, a), b)
    decreases |a|
  {
    if a == [] {
      assert a + b == b;
    } else {
      assert (a + b)[0] == a[0];
      assert (a + b)[1..] == a[1..] + b;
      OpenAfterAppend(Step(open, a[0]), a[1..], b);
    }
  }

  lemma {:induction false} CoherentAppend<T>(outer: Option<T>, open: seq<T>, a: seq<Event<T>>, b: seq<Event<T>>)
    requires Coherent(outer, open, a)
    requires Coherent(outer, OpenAfter(open, a), b)
    ensures Coherent(outer, open, a + b)
    decreases |a|
  {
    if a == [] {
      assert a + b == b;
    } else {
      assert (a + b)[0] == a[0];
      assert (a + b)[1..] == a[1..] + b;
      CoherentAppend(outer, Step(open, a[0]), a[1..], b);
    }
  }

  /** A coherent log's event at index `i` agrees with the scopes its prefix left open. */
  lemma {:induction false} CoherentAt<T>(outer: Option<T>, open: seq<T>, log: seq<Event<T>>, i: nat)
    requires Coherent(outer, open, log)
    requires i < |log|
    ensures Agrees(outer, OpenAfter(open, log[..i]), log[i])
    decreases i
  {
    if i == 0 {
      assert log[..0] == [];
    } else {
      assert log[..i][0] == log[0];
      assert log[..i][1..] == log[1..][..i - 1];
      CoherentAt(outer, Step(open, log[0]), log[1..], i - 1);
    }
  }

  /**
   * Running a body while the scopes `open` are active: its log is coherent, the
   * cell it leaves equals the innermost binding still open, and unless the
   * process aborted it closes every scope it opened.
   */
  lemma {:induction false} ExecCoherent<T>(outer: Option<T>, open: seq<T>, body: seq<Stmt<T>>)
    ensures var r := Exec(Innermost(outer, open), body);
      && Coherent(outer, open, r.log)
      && r.cell == Innermost(outer, OpenAfter(open, r.log))
      && (!r.outcome.Aborted? ==> OpenAfter(open, r.log) == open)
    decreases body, 1
  {
    var cell := Innermost(outer, open);
    if body == [] {
    } else {
      var rest := body[1..];
      match body[0]
      case Read =>
        if cell.Some? {
          ExecCoherent(outer, open, rest);
          PrefixOne(outer, open, Saw(cell.value), Exec(cell, rest).log);
        }
      case Query =>
        ExecCoherent(outer, open, rest);
        PrefixOne(outer, open, Asked(cell.Some?), Exec(cell, rest).log);
      case Panic(_) =>
      case Set(v, b) =>
        var s := ExecSet(cell, v, b);
        ExecSetCoherent(outer, open, v, b);
        if s.outcome.Returned? {
          ExecCoherent(outer, open, rest);
          var t := Exec(cell, rest);
          OpenAfterAppend(open, s.log, t.log);
          CoherentAppend(outer, open, s.log, t.log);
        }
      case Defer(c) =>
        var r := Exec(cell, rest);
        ExecCoherent(outer, open, rest);
        if !r.outcome.Aborted? {
          ExecCoherent(outer, open, c);
          var d := Exec(cell, c);
          OpenAfterAppend(open, r.log, d.log);
          CoherentAppend(outer, open, r.log, d.log);
        }
    }
  }

  /** The same for `set(&v, || body)`: its own scope is the innermost one while the body runs. */
  lemma {:induction false} ExecSetCoherent<T>(outer: Option<T>, open: seq<T>, v: T, body: seq<Stmt<T>>)
    ensures var r := ExecSet(Innermost(outer, open), v, body);
      && Coherent(outer, open, r.log)
      && r.cell == Innermost(outer, OpenAfter(open, r.log))
      && (!r.outcome.Aborted? ==> OpenAfter(open, r.log) == open)
    decreases body, 2
  {
    var inner := open + [v];
    var b := Exec(Some(v), body);
    assert Innermost(outer, inner) == Some(v);
    ExecCoherent(outer, inner, body);
    var r := ExecSet(Innermost(outer, open), v, body);
    assert OpenAfter(open, [Enter(v)]) == inner by {
      assert [Enter(v)][1..] == [];
    }
    assert Coherent(outer, open, [Enter(v)]) by {
      assert [Enter(v)][1..] == [];
    }
    OpenAfterAppend(open, [Enter(v)], b.log);
    CoherentAppend(outer, open, [Enter(v)], b.log);
    if !b.outcome.Aborted? {
      var exit: seq<Event<T>> := [Exit];
      assert OpenAfter(inner, exit) == open by {
        assert exit[1..] == [];
        assert inner[..|inner| - 1] == open;
      }
      assert Coherent(outer, inner, exit) by {
        assert exit[1..] == [];
      }
      OpenAfterAppend(open, [Enter(v)] + b.log, [Exit]);
      CoherentAppend(outer, open, [Enter(v)] + b.log, [Exit]);
    }
  }

  lemma PrefixOne<T>(outer: Option<T>, open: seq<T>, e: Event<T>, log: seq<Event<T>>)
    requires !e.Enter? && !e.Exit?
    requires Agrees(outer, open, e)
    requires Coherent(outer, open, log)
    ensures Coherent(outer, open, [e] + log)
    ensures OpenAfter(open, [e] + log) == OpenAfter(open, log)
  {
    assert ([e] + log)[1..] == log;
  }

  /**
   * The invariant of a scoped key: starting from cell state `prior` with no
   * scope of this run open, every event of the log is coherent with the
   * scopes open before it, the final cell is the innermost binding left open,
   * and a run that returns or unwinds closes all its scopes, in last-in
   * first-out order, and leaves `prior` in the cell.
   */
  lemma ScopedKeyInvariant<T>(prior: Option<T>, body: seq<Stmt<T>>)
    ensures var r := Exec(prior, body);
      && Coherent(prior, [], r.log)
      && r.cell == Innermost(prior, OpenAfter([], r.log))
      && (!r.outcome.Aborted? ==> OpenAfter([], r.log) == [] && r.cell == prior)
  {
    ExecCoherent(prior, [], body);
  }

  /**
   * Every read in the log of a run observes the value of the innermost `set`
   * still open at that point, or the prior cell value if none is; every query
   * answers whether such a value exists; and every exit closes a scope of this run.
   */
  lemma ReadsSeeInnermost<T>(prior: Option<T>, body: seq<Stmt<T>>, i: nat)
    requires i < |Exec(prior, body).log|
    ensures var log := Exec(prior, body).log;
      var open := OpenAfter([], log[..i]);
      && (log[i].Saw? ==> Innermost(prior, open) == Some(log[i].v))
      && (log[i].Asked? ==> (log[i].isSet <==> Innermost(prior, open).Some?))
      && (log[i].Exit? ==> open != [])
  {
    ExecCoherent(prior, [], body);
    CoherentAt(prior, [], Exec(prior, body).log, i);
  }

  lemma {:induction false} OpenAfterReadsOnly<T>(open: seq<T>, log: seq<Event<T>>)
    requires forall k :: 0 <= k < |log| ==> log[k].Saw? || log[k].Asked?
    ensures OpenAfter(open, log) == open
    decreases |log|
  {
    if log != [] {
      OpenAfterReadsOnly(open, log[1..]);
    }
  }

  /**
   * Repeated reads with no `set` entered or left between them observe the same value.
   */
  lemma RepeatedReadsAgree<T>(prior: Option<T>, body: seq<Stmt<T>>, i: nat, j: nat)
    requires i < j < |Exec(prior, body).log|
    requires Exec(prior, body).log[i].Saw? && Exec(prior, body).log[j].Saw?
    requires forall k :: i < k < j ==> Exec(prior, body).log[k].Saw? || Exec(prior, body).log[k].Asked?
    ensures Exec(prior, body).log[i].v == Exec(prior, body).log[j].v
  {
    var log := Exec(prior, body).log;
    ReadsSeeInnermost(prior, body, i);
    ReadsSeeInnermost(prior, body, j);
    assert log[..j] == log[..i] + log[i..j];
    OpenAfterAppend([], log[..i], log[i..j]);
    OpenAfterReadsOnly(OpenAfter([], log[..i]), log[i..j]);
  }
}
