/**
 A sequential model of `HeldSyncCell<T>`, built as the source builds it: a
 `SyncCell<T>` holding the committed value and a `SyncCell<Option<T>>`
 holding the staged one. Every method is proved to move the pair of slots
 exactly as the matching function of `Staging` moves the abstract state, and
 its `modifies` clause names the only slot it may write.
 */
module HeldCell {
  import opened Wrappers
  import opened Cell
  import Staging

  class HeldSyncCell<T> {
    /** The value made available to readers. */
    const current: SyncCell<T>
    /** The value to use at the next `update`. */
    const next: SyncCell<Option<T>>

    /** The two slots are separate cells, so writing one never disturbs the other. */
    ghost predicate Valid()
    {
      current as object != next as object
    }

    /** The abstract state: the committed value and the staged one. */
    ghost function State(): Staging.Held<T>
      reads current, next
    {
      Staging.Held(current.value, next.value)
    }

    /** `HeldSyncCell::new`: `data` is committed and nothing is staged. */
    constructor (data: T)
      ensures Valid() && fresh(current) && fresh(next)
      ensures State() == Staging.New(data)
    {
      current := new SyncCell(data);
      next := new SyncCell(None);
    }

    /** `HeldSyncCell::set`: stage `v`; the committed slot is not written. */
    method Set(v: T)
      requires Valid()
      modifies next
      ensures State() == Staging.Set(old(State()), v)
    {
      next.Set(Some(v));
    }

    /** `HeldSyncCell::has_update`: whether a value is staged. */
    method HasUpdate() returns (b: bool)
      ensures b <==> Staging.HasUpdate(State())
    {
      b := next.Borrow().Some?;
    }

    /**
     `HeldSyncCell::update`: take the staged value out of its slot, leaving it
     empty, and, if there was one, write it into the committed slot.
     */
    method Update()
      requires Valid()
      modifies current, next
      ensures State() == Staging.Update(old(State()))
    {
      var staged := next.Replace(None);
      if staged.Some? {
        current.Set(staged.value);
      }
    }

    /** `HeldSyncCell::get`: a copy of the committed value, never the staged one. */
    method Get() returns (v: T)
      ensures v == Staging.Get(State())
    {
      v := current.Get();
    }

    /** `HeldSyncCell::borrow`: read access to the committed value. */
    function Borrow(): (r: T)
      reads current, next
      ensures r == Staging.Get(State())
    {
      current.Borrow()
    }

    /** `HeldSyncCell::borrow_mut`: an edit of the committed value that bypasses staging. */
    method BorrowMut(edit: T -> T)
      requires Valid()
      modifies current
      ensures State() == Staging.BorrowMut(old(State()), edit)
    {
      current.BorrowMut(edit);
    }

    /** `HeldSyncCell::into_inner`: the staged value if there is one, else the committed one. */
    method IntoInner() returns (v: T)
      ensures v == Staging.IntoInner(State())
    {
      var staged := next.IntoInner();
      var committed := current.IntoInner();
      v := staged.UnwrapOr(committed);
    }

    /** `Clone for HeldSyncCell`: a new cell built from `get`, with nothing staged. */
    method Clone() returns (c: HeldSyncCell<T>)
      ensures fresh(c) && fresh(c.current) && fresh(c.next) && c.Valid()
      ensures c.State() == Staging.Clone(State())
    {
      var v := Get();
      c := new HeldSyncCell(v);
    }
  }

  /** A fresh cell has nothing staged and shows its initial value. */
  method NewThenRead<T>(data: T) returns (pending: bool, got: T, inner: T)
    ensures !pending && got == data && inner == data
  {
    var cell := new HeldSyncCell(data);
    pending := cell.HasUpdate();
    got := cell.Get();
    inner := cell.IntoInner();
  }

  /** A staged value is reported by `has_update` but not seen by `get`. */
  method SetWithoutUpdate<T>(data: T, w: T) returns (pending: bool, got: T)
    ensures pending && got == data
  {
    var cell := new HeldSyncCell(data);
    cell.Set(w);
    pending := cell.HasUpdate();
    got := cell.Get();
  }

  /** `update` commits the staged value; a second `update` is a no-op. */
  method SetThenUpdateTwice<T>(data: T, w: T) returns (pendingOnce: bool, gotOnce: T, pendingTwice: bool, gotTwice: T)
    ensures !pendingOnce && gotOnce == w
    ensures !pendingTwice && gotTwice == w
  {
    var cell := new HeldSyncCell(data);
    cell.Set(w);
    cell.Update();
    pendingOnce := cell.HasUpdate();
    gotOnce := cell.Get();
    cell.Update();
    pendingTwice := cell.HasUpdate();
    gotTwice := cell.Get();
  }

  /** `update` with nothing staged leaves the cell as it was. */
  method UpdateWithoutSet<T>(data: T) returns (pending: bool, got: T)
    ensures !pending && got == data
  {
    var cell := new HeldSyncCell(data);
    cell.Update();
    pending := cell.HasUpdate();
    got := cell.Get();
  }

  /** `into_inner` prefers the staged value, where `get` still shows the committed one. */
  method SetThenIntoInner<T>(data: T, w: T) returns (got: T, inner: T)
    ensures got == data && inner == w
  {
    var cell := new HeldSyncCell(data);
    cell.Set(w);
    got := cell.Get();
    inner := cell.IntoInner();
  }

  /** After a commit, `into_inner` returns the committed value. */
  method SetUpdateThenIntoInner<T>(data: T, w: T) returns (inner: T)
    ensures inner == w
  {
    var cell := new HeldSyncCell(data);
    cell.Set(w);
    cell.Update();
    inner := cell.IntoInner();
  }

  /**
   A write through `borrow_mut` shows at once, a later `set(x)` stays hidden,
   and the next `update` commits `x` over the edited value.
   */
  method BorrowMutSetUpdate<T>(data: T, edit: T -> T, x: T) returns (edited: T, committed: T)
    ensures edited == edit(data) && committed == x
  {
    var cell := new HeldSyncCell(data);
    cell.BorrowMut(edit);
    cell.Set(x);
    edited := cell.Get();
    cell.Update();
    committed := cell.Get();
  }

  /** A clone shows the committed value but carries nothing staged. */
  method CloneDropsStaged<T>(data: T, w: T) returns (pending: bool, inner: T)
    ensures !pending && inner == data
  {
    var cell := new HeldSyncCell(data);
    cell.Set(w);
    var twin := cell.Clone();
    pending := twin.HasUpdate();
    inner := twin.IntoInner();
  }
}
