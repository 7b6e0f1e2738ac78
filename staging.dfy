/**
 The abstract state of a `HeldSyncCell<T>`: the committed value that readers
 see and an optional pending value staged by `set`. Each operation of the cell
 is a function from state to state here, and the class in held_sync_cell.dfy
 is proved to follow these functions.
 */
module Staging {
  import opened Wrappers

  datatype Held<T> = Held(current: T, pending: Option<T>)

  /** What `get` and `borrow` observe: the committed value only. */
  function Get<T>(h: Held<T>): T
  {
    h.current
  }

  /** What `has_update` reports: a value is staged. */
  predicate HasUpdate<T>(h: Held<T>)
  {
    h.pending.Some?
  }

  /** What `into_inner` returns: the staged value if there is one, else the committed one. */
  function IntoInner<T>(h: Held<T>): (r: T)
    ensures HasUpdate(h) ==> r == h.pending.value
    ensures !HasUpdate(h) ==> r == Get(h)
  {
    h.pending.UnwrapOr(h.current)
  }

  /** `new`: the initial value is committed and nothing is staged. */
  function New<T>(data: T): (h: Held<T>)
    ensures Get(h) == data && !HasUpdate(h) && IntoInner(h) == data
  {
    Held(data, None)
  }

  /** `set`: stage `v`, discarding any earlier staged value; readers still see the old value. */
  function Set<T>(h: Held<T>, v: T): (r: Held<T>)
    ensures HasUpdate(r) && IntoInner(r) == v
    ensures Get(r) == Get(h)
  {
    h.(pending := Some(v))
  }

  /** `update`: commit the staged value, if any, and empty the staging slot. */
  function Update<T>(h: Held<T>): (r: Held<T>)
    ensures !HasUpdate(r)
    ensures Get(r) == IntoInner(h)
    ensures !HasUpdate(h) ==> r == h
  {
    match h.pending
    case Some(next) => Held(next, None)
    case None => h
  }

  /** `borrow_mut`: an edit of the committed value that bypasses staging. */
  function BorrowMut<T>(h: Held<T>, edit: T -> T): (r: Held<T>)
    ensures Get(r) == edit(Get(h))
    ensures r.pending == h.pending
  {
    h.(current := edit(h.current))
  }

  /** `clone`: a new cell built from `get`, so the staged value is not copied. */
  function Clone<T>(h: Held<T>): (r: Held<T>)
    ensures Get(r) == Get(h) && !HasUpdate(r)
    ensures IntoInner(r) == Get(h)
  {
    New(Get(h))
  }

  /** A second `update` right after a first changes nothing. */
  lemma UpdateIdempotent<T>(h: Held<T>)
    ensures Update(Update(h)) == Update(h)
  {
  }

  /** Of two `set` calls before a commit, only the later one is kept. */
  lemma LastSetWins<T>(h: Held<T>, v: T, w: T)
    ensures Set(Set(h, v), w) == Set(h, w)
  {
  }

  /** `update` does not change the value `into_inner` would return. */
  lemma UpdateKeepsIntoInner<T>(h: Held<T>)
    ensures IntoInner(Update(h)) == IntoInner(h)
  {
  }

  /** A clone drops the staged value: it agrees with `into_inner` only when nothing is staged. */
  lemma CloneIntoInner<T>(h: Held<T>)
    ensures IntoInner(Clone(h)) == IntoInner(h) <==> (!HasUpdate(h) || h.pending.value == Get(h))
  {
  }

  /** A call made on a held cell by one thread, in the order the calls are made. */
  datatype Op<!T> = Stage(value: T) | Commit | Edit(edit: T -> T)

  function Step<T>(h: Held<T>, op: Op<T>): Held<T>
  {
    match op
    case Stage(v) => Set(h, v)
    case Commit => Update(h)
    case Edit(f) => BorrowMut(h, f)
  }

  /** The state after the calls `ops`, made one after another from `h`. */
  function Run<T>(h: Held<T>, ops: seq<Op<T>>): Held<T>
    decreases |ops|
  {
    if ops == [] then h else Run(Step(h, ops[0]), ops[1..])
  }

  /**
   The staging slot after `ops`, read backwards: the most recent `set` or
   `update` decides it, and edits through `borrow_mut` never touch it.
   */
  function PendingAfter<T>(p: Option<T>, ops: seq<Op<T>>): Option<T>
    decreases |ops|
  {
    if ops == [] then p
    else match ops[|ops| - 1]
      case Stage(v) => Some(v)
      case Commit => None
      case Edit(_) => PendingAfter(p, ops[..|ops| - 1])
  }

  /** The committed value after only the edits among `ops` are applied in order. */
  function ApplyEdits<T>(c: T, ops: seq<Op<T>>): T
    decreases |ops|
  {
    if ops == [] then c
    else ApplyEdits(if ops[0].Edit? then ops[0].edit(c) else c, ops[1..])
  }

  /** Running `ops` and then one more call is that call applied to the result. */
  lemma {:induction false} RunSnoc<T>(h: Held<T>, ops: seq<Op<T>>, op: Op<T>)
    ensures Run(h, ops + [op]) == Step(Run(h, ops), op)
    decreases |ops|
  {
    if ops == [] {
      assert [op][1..] == [];
    } else {
      assert (ops + [op])[1..] == ops[1..] + [op];
      RunSnoc(Step(h, ops[0]), ops[1..], op);
    }
  }

  /** The staging slot after any sequence of calls is the one `PendingAfter` describes. */
  lemma {:induction false} PendingIsLastStage<T>(h: Held<T>, ops: seq<Op<T>>)
    ensures Run(h, ops).pending == PendingAfter(h.pending, ops)
    ensures HasUpdate(Run(h, ops)) <==> PendingAfter(h.pending, ops).Some?
    decreases |ops|
  {
    if ops != [] {
      var prefix := ops[..|ops| - 1];
      assert ops == prefix + [ops[|ops| - 1]];
      RunSnoc(h, prefix, ops[|ops| - 1]);
      PendingIsLastStage(h, prefix);
    }
  }

  /**
   Staged values stay invisible until a commit: without an `update` among
   `ops`, `get` sees exactly the initial value with the `borrow_mut` edits
   applied, whatever was staged.
   */
  lemma {:induction false} NoCommitShowsOnlyEdits<T>(h: Held<T>, ops: seq<Op<T>>)
    requires forall i :: 0 <= i < |ops| ==> !ops[i].Commit?
    ensures Get(Run(h, ops)) == ApplyEdits(Get(h), ops)
    decreases |ops|
  {
    if ops != [] {
      NoCommitShowsOnlyEdits(Step(h, ops[0]), ops[1..]);
    }
  }

  /** After an `update`, `get` returns what `into_inner` would have returned just before it. */
  lemma CommitPublishesIntoInner<T>(h: Held<T>, ops: seq<Op<T>>)
    ensures Get(Run(h, ops + [Commit])) == IntoInner(Run(h, ops))
    ensures !HasUpdate(Run(h, ops + [Commit]))
  {
    RunSnoc(h, ops, Commit);
  }

  /**
   An edit through `borrow_mut` followed by `set(x)` and `update` ends with `x`
   committed: staging overrides the direct write once committed.
   */
  lemma EditThenStageThenCommit<T>(h: Held<T>, edit: T -> T, x: T)
    ensures Get(Run(h, [Edit(edit), Stage(x), Commit])) == x
    ensures Get(Run(h, [Edit(edit), Stage(x)])) == edit(Get(h))
  {
    var edited := BorrowMut(h, edit);
    var staged := Set(edited, x);
    assert [Edit(edit), Stage(x), Commit][1..] == [Stage(x), Commit];
    assert [Stage(x), Commit][1..] == [Commit];
    assert Run(h, [Edit(edit), Stage(x), Commit]) == Run(edited, [Stage(x), Commit]);
    assert Run(edited, [Stage(x), Commit]) == Run(staged, [Commit]);
    assert Run(staged, [Commit]) == Update(staged);
    assert [Edit(edit), Stage(x)][1..] == [Stage(x)];
    assert Run(h, [Edit(edit), Stage(x)]) == Run(staged, []);
  }
}
