/**
 * Concrete runs of the scoped-key semantics: the usage shown in the
 * documentation of `set` and the behaviour the unit tests check.
 */
module ScopeScenarios {
  import opened Wrappers
  import opened ScopeSemantics

  /**
   * An unset key reports unset; inside `set(&v, ..)` it reports set and reads
   * give `v`; afterwards it is unset again.
   */
  lemma SetThenUnset<T>(v: T)
    ensures Exec(None, [Query, Set(v, [Query, Read]), Query])
         == Run(Returned, None, [Asked(false), Enter(v), Asked(true), Saw(v), Exit, Asked(false)])
  {
    var read: seq<Stmt<T>> := [Read];
    var query: seq<Stmt<T>> := [Query];
    assert read[1..] == [] && query[1..] == [];
    var inner := [Query, Read];
    assert inner[1..] == read;
    assert Exec(Some(v), read) == Run(Returned, Some(v), [Saw(v)]);
    assert Exec(Some(v), inner) == Run(Returned, Some(v), [Asked(true), Saw(v)]);
    assert Exec(None, query) == Run(Returned, None, [Asked(false)]);
    var body := [Query, Set(v, inner), Query];
    assert body[1..] == [Set(v, inner), Query];
    assert body[1..][1..] == query;
    assert Exec(None, body[1..]) == Run(Returned, None, [Enter(v), Asked(true), Saw(v), Exit, Asked(false)]);
  }

  /**
   * Nesting restores the outer binding: within `set(&a, ..)`, a read before and
   * a read after an inner `set(&b, ..)` both give `a`, and the cell returns to
   * whatever it held before.
   */
  lemma NestedSetRestoresOuter<T>(prior: Option<T>, a: T, b: T)
    ensures Exec(prior, [Set(a, [Read, Set(b, []), Read])])
         == Run(Returned, prior, [Enter(a), Saw(a), Enter(b), Exit, Saw(a), Exit])
  {
    var read: seq<Stmt<T>> := [Read];
    assert read[1..] == [];
    var inner := [Read, Set(b, []), Read];
    assert inner[1..] == [Set(b, []), Read];
    assert inner[1..][1..] == read;
    assert Exec(Some(a), read) == Run(Returned, Some(a), [Saw(a)]);
    assert ExecSet(Some(a), b, []) == Run(Returned, Some(a), [Enter(b), Exit]);
    assert Exec(Some(a), inner[1..]) == Run(Returned, Some(a), [Enter(b), Exit, Saw(a)]);
    assert Exec(Some(a), inner) == Run(Returned, Some(a), [Saw(a), Enter(b), Exit, Saw(a)]);
    assert [Set(a, inner)][1..] == [];
  }

  /**
   * The restore also happens on unwind: inside `set(&a, ..)` a local whose drop
   * reads the key is declared, then `set(&b, || panic!(m))` runs.  The drop runs
   * after the inner restore and before the outer one, so it reads `a`; the panic
   * propagates out of both calls and the key ends unset.
   */
  lemma PanicRestoresBeforeDrop<T>(a: T, b: T, m: string)
    ensures Exec(None, [Set(a, [Defer([Read]), Set(b, [Panic(m)])])])
         == Run(Panicked(m), None, [Enter(a), Enter(b), Exit, Saw(a), Exit])
  {
    var inner := [Defer([Read]), Set(b, [Panic(m)])];
    assert inner[1..] == [Set(b, [Panic(m)])];
    assert [Set(b, [Panic(m)])][1..] == [];
    assert Exec(Some(a), inner[1..]) == Run(Panicked(m), Some(a), [Enter(b), Exit]);
    assert Exec(Some(a), [Read]) == Run(Returned, Some(a), [Saw(a)]);
    assert Exec(Some(a), inner) == Run(Panicked(m), Some(a), [Enter(b), Exit, Saw(a)]);
    assert [Set(a, inner)][1..] == [];
  }

  /** A read of a key no `set` is active on panics with the fixed message and logs nothing. */
  lemma UnsetReadPanics<T>(rest: seq<Stmt<T>>)
    ensures Exec(None, [Read] + rest) == Run(Panicked(UnsetMessage), None, [])
  {
  }
}
