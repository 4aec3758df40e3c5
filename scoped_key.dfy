/**
 * A scoped thread-local key, as seen from one thread: a cell that is empty or
 * holds the value bound by the innermost active `set`.
 *
 * `set` is split at its guard: `SetEnter` saves the prior cell state and
 * installs the new binding, `SetExit` is the guard's drop, which writes the saved
 * state back.  `Set` runs a body between the two, through `RunBody`, and is
 * proved to behave as `ExecSet` says; the properties of that semantics are
 * proved in `ScopeTraces`.
 */
module ScopedTls {
  import opened Wrappers
  import opened ScopeSemantics

  /** What `with` does: pass the bound value to the reader, or panic with the fixed message. */
  datatype WithResult<R> = Passed(value: R) | Failed(msg: string)

  class ScopedKey<T> {
    var cell: Option<T>

    /** A freshly declared key: its cell starts empty. */
    constructor ()
      ensures cell == None
    {
      cell := None;
    }

    /** Whether the cell is occupied; reads the cell and changes nothing. */
    method IsSet() returns (b: bool)
      ensures b <==> cell.Some?
    {
      b := cell.Some?;
    }

    /** `with(f)` as the source runs it: panics when the key is unset, else returns `f` of the bound value. */
    method TryWith<R>(f: T -> R) returns (r: WithResult<R>)
      ensures r.Failed? <==> cell.None?
      ensures r.Failed? ==> r.msg == UnsetMessage
      ensures r.Passed? ==> cell.Some? && r.value == f(cell.value)
    {
      match cell
      case None =>
        r := Failed(UnsetMessage);
      case Some(v) =>
        r := Passed(f(v));
    }

    /** `with(f)` for a caller that knows the key is set: returns `f` of the bound value. */
    method With<R>(f: T -> R) returns (r: R)
      requires cell.Some?
      ensures r == f(cell.value)
    {
      var res := TryWith(f);
      r := res.value;
    }

    /** Entry to `set(t, ..)`: remember the prior cell state and bind `t`. */
    method SetEnter(t: T) returns (prev: Option<T>)
      modifies this
      ensures prev == old(cell)
      ensures cell == Some(t)
    {
      prev := cell;
      cell := Some(t);
    }

    /** The restore guard's drop: write the remembered state back. */
    method SetExit(prev: Option<T>)
      modifies this
      ensures cell == prev
    {
      cell := prev;
    }

    /**
     * `set(&t, || body)`: bind `t`, run the body, and restore the prior state
     * whether the body returns or unwinds.  Only an abort, after which nothing
     * runs, skips the restore.
     */
    method Set(t: T, body: seq<Stmt<T>>) returns (out: Outcome, log: seq<Event<T>>)
      modifies this
      ensures Run(out, cell, log) == ExecSet(old(cell), t, body)
      ensures out == Exec(Some(t), body).outcome
      ensures !out.Aborted? ==> cell == old(cell)
      decreases body, 2
    {
      var prev := SetEnter(t);
      var o, l := RunBody(body);
      out := o;
      if o.Aborted? {
        log := [Enter(t)] + l;
      } else {
        SetExit(prev);
        log := [Enter(t)] + l + [Exit];
      }
    }

    /**
     * Runs the caller code `body` against this key.  A local with a drop
     * (`Defer`) is dropped after the rest of its body has run, whether that
     * returned or unwound.
     */
    method RunBody(body: seq<Stmt<T>>) returns (out: Outcome, log: seq<Event<T>>)
      modifies this
      ensures Run(out, cell, log) == Exec(old(cell), body)
      decreases body, 1
    {
      if body == [] {
        return Returned, [];
      }
      var rest := body[1..];
      match body[0]
      case Read =>
        var seen := TryWith(x => x);
        if seen.Failed? {
          out, log := Panicked(seen.msg), [];
        } else {
          out, log := RunBody(rest);
          log := [Saw(seen.value)] + log;
        }
      case Query =>
        var b := IsSet();
        out, log := RunBody(rest);
        log := [Asked(b)] + log;
      case Panic(m) =>
        out, log := Panicked(m), [];
      case Set(v, b) =>
        var o, l := Set(v, b);
        if o.Returned? {
          out, log := RunBody(rest);
          log := l + log;
        } else {
          out, log := o, l;
        }
      case Defer(c) =>
        var o, l := RunBody(rest);
        if o.Aborted? {
          out, log := o, l;
        } else {
          var d, dl := RunBody(c);
          out, log := AfterDrop(o, d), l + dl;
        }
    }
  }

  /** A key nobody has set is unset. */
  method FreshKeyIsUnset<T>() returns (b: bool)
    ensures !b
  {
    var key := new ScopedKey<T>();
    b := key.IsSet();
  }
}
