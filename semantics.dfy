/**
 * The meaning of code that runs on one thread against one scoped key.
 *
 * `set(t, f)` runs a closure `f` that the key cannot see into; what matters to
 * the key is only what `f` does with it.  A closure is therefore modelled as a
 * sequence of statements over the key: reads through `with`, presence queries
 * through `is_set`, explicit panics, nested `set` calls, and locals whose
 * `Drop` implementation runs more such code when the closure's scope ends
 * (on return or while unwinding).
 *
 * `Exec` runs a body from a given cell state and reports how it ended, the cell
 * state it left behind and the log of events the key saw.
 */
module ScopeSemantics {
  import opened Wrappers

  /** The fixed message of the panic that `with` raises on an unset key. */
  const UnsetMessage: string :=
    "cannot access a scoped thread local variable without calling `set` first"

  datatype Stmt<T> =
    | Read                            // key.with(|x| ..): observe the bound value
    | Query                           // key.is_set()
    | Panic(msg: string)              // panic!(msg)
    | Set(v: T, body: seq<Stmt<T>>)   // key.set(&v, || body)
    | Defer(cleanup: seq<Stmt<T>>)    // a local whose drop runs `cleanup` when the enclosing body ends

  /** What the key sees: a binding installed, a binding restored, a read and its value, a query and its answer. */
  datatype Event<T> = Enter(v: T) | Exit | Saw(v: T) | Asked(isSet: bool)

  /**
   * How a body ends: it returns, it unwinds with a panic message, or the
   * process aborts (a drop that panics while the thread is already unwinding).
   */
  datatype Outcome = Returned | Panicked(msg: string) | Aborted

  datatype Run<T> = Run(outcome: Outcome, cell: Option<T>, log: seq<Event<T>>)

  /** The outcome once a local's drop, itself ending in `d`, has run after a body that ended in `o`. */
  function AfterDrop(o: Outcome, d: Outcome): (r: Outcome)
    requires !o.Aborted?
    ensures r.Aborted? <==> d.Aborted? || (o.Panicked? && d.Panicked?)
    ensures r.Returned? <==> o.Returned? && d.Returned?
    ensures r.Panicked? ==> r == o || r == d
  {
    if o.Returned? then d
    else if d.Returned? then o
    else Aborted
  }

  /** Runs `r` after the events in `log` have already been seen. */
  function After<T>(log: seq<Event<T>>, r: Run<T>): Run<T>
  {
    r.(log := log + r.log)
  }

  /**
   * Runs `body` from cell state `cell`.  Whenever the body returns or unwinds
   * (anything but an abort), it leaves the cell exactly as it found it: every
   * `set` it performs restores on the way out.
   */
  function Exec<T>(cell: Option<T>, body: seq<Stmt<T>>): (r: Run<T>)
    ensures !r.outcome.Aborted? ==> r.cell == cell
    decreases body, 1
  {
    if body == [] then Run(Returned, cell, [])
    else
      var rest := body[1..];
      match body[0]
      case Read =>
        if cell.None? then Run(Panicked(UnsetMessage), cell, [])
        else After([Saw(cell.value)], Exec(cell, rest))
      case Query =>
        After([Asked(cell.Some?)], Exec(cell, rest))
      case Panic(m) =>
        Run(Panicked(m), cell, [])
      case Set(v, b) =>
        var s := ExecSet(cell, v, b);
        if s.outcome.Returned? then After(s.log, Exec(s.cell, rest)) else s
      case Defer(c) =>
        var r := Exec(cell, rest);
        if r.outcome.Aborted? then r
        else
          var d := Exec(r.cell, c);
          Run(AfterDrop(r.outcome, d.outcome), d.cell, r.log + d.log)
  }

  /**
   * `set(&v, || body)` from cell state `prior`: save `prior`, install `Some(v)`,
   * run the body, and write `prior` back on return and on unwind alike.  The
   * outcome is the body's own: `set` neither swallows a panic nor adds one.
   */
  function ExecSet<T>(prior: Option<T>, v: T, body: seq<Stmt<T>>): (r: Run<T>)
    ensures r.outcome == Exec(Some(v), body).outcome
    ensures !r.outcome.Aborted? ==> r.cell == prior
    ensures |r.log| >= 1 && r.log[0] == Enter(v)
    ensures !r.outcome.Aborted? ==> |r.log| >= 2 && r.log[|r.log| - 1] == Exit
    decreases body, 2
  {
    var r := Exec(Some(v), body);
    if r.outcome.Aborted? then Run(Aborted, r.cell, [Enter(v)] + r.log)
    else Run(r.outcome, prior, [Enter(v)] + r.log + [Exit])
  }
}
