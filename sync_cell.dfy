/**
 A sequential model of `SyncCell<T>`: one mutable slot. The reader-writer lock
 around the slot only serialises access between threads, so here every
 operation is a plain read or write of the field `value`.
 */
module Cell {

  class SyncCell<T> {
    /** The slot guarded by the lock. */
    var value: T

    /** `SyncCell::new`: the cell starts out holding `data`. */
    constructor (data: T)
      ensures value == data
    {
      value := data;
    }

    /** `SyncCell::set`: overwrite the slot, whatever it held. */
    method Set(v: T)
      modifies this
      ensures value == v
    {
      value := v;
    }

    /** `SyncCell::replace`: swap `v` into the slot and hand back what was there. */
    method Replace(v: T) returns (previous: T)
      modifies this
      ensures previous == old(value)
      ensures value == v
    {
      previous := v;
      value, previous := previous, value;
    }

    /** `SyncCell::get`: a copy of the slot; the cell is left as it is. */
    method Get() returns (v: T)
      ensures v == value
    {
      v := value;
    }

    /** `SyncCell::borrow`: read access to the slot. */
    function Borrow(): (r: T)
      reads this
      ensures r == value
    {
      value
    }

    /**
     `SyncCell::borrow_mut`: whatever the holder of the write guard does to the
     slot, given as the function `edit` from the old contents to the new.
     */
    method BorrowMut(edit: T -> T)
      modifies this
      ensures value == edit(old(value))
    {
      value := edit(value);
    }

    /** `SyncCell::into_inner`: the value the cell held when it was consumed. */
    method IntoInner() returns (v: T)
      ensures v == value
    {
      v := value;
    }

    /** `Clone for SyncCell`: a new, separate cell holding a copy of the value. */
    method Clone() returns (c: SyncCell<T>)
      ensures fresh(c)
      ensures c.value == value
    {
      var v := Get();
      c := new SyncCell(v);
    }
  }

  /** A fresh cell hands back its initial value from both `get` and `into_inner`. */
  method NewThenRead<T>(data: T) returns (got: T, inner: T)
    ensures got == data && inner == data
  {
    var cell := new SyncCell(data);
    got := cell.Get();
    inner := cell.IntoInner();
  }

  /** After `set(w)`, `get` returns `w` whatever the cell held before. */
  method SetThenGet<T>(data: T, w: T) returns (got: T)
    ensures got == w
  {
    var cell := new SyncCell(data);
    cell.Set(w);
    got := cell.Get();
  }

  /** `replace(w)` returns the value held before and leaves `w` behind. */
  method ReplaceThenGet<T>(data: T, w: T) returns (previous: T, got: T)
    ensures previous == data && got == w
  {
    var cell := new SyncCell(data);
    previous := cell.Replace(w);
    got := cell.Get();
  }

  /** A write through `borrow_mut` is seen by the next `get`. */
  method BorrowMutThenGet<T>(data: T, edit: T -> T) returns (got: T)
    ensures got == edit(data)
  {
    var cell := new SyncCell(data);
    cell.BorrowMut(edit);
    got := cell.Get();
  }

  /** A clone starts equal to its original, and writes to one do not reach the other. */
  method CloneIsIndependent<T>(data: T, w: T) returns (original: T, copy: T)
    ensures original == w && copy == data
  {
    var cell := new SyncCell(data);
    var twin := cell.Clone();
    cell.Set(w);
    original := cell.Get();
    copy := twin.Get();
  }
}
