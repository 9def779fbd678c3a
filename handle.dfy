/**
 * details::handle: a move-only owner of one resource value with a
 * pluggable release action (the Deleter template argument).
 *
 * Resource values are pointers or file descriptors, modelled as integers;
 * `!_val` is `IsNull(v)`, i.e. `v == 0`.  The release action is an object
 * that records, in order, every value it has been applied to, so that the
 * contracts can say exactly when a value is released.
 */
module Handles {

  /** `!_val` for a pointer or an integer handle. */
  predicate IsNull(v: int)
  {
    v == 0
  }

  /** The release action (free, bfd_close, close, ...) and its history. */
  class Deleter {
    var log: seq<int>

    constructor ()
      ensures log == []
    {
      log := [];
    }

    method Apply(v: int)
      modifies this
      ensures log == old(log) + [v]
    {
      log := log + [v];
    }
  }

  class Handle {
    var val: int
    var empty: bool
    const deleter: Deleter

    /** A non-empty handle never holds a null value. */
    ghost predicate Valid()
      reads this
    {
      !empty ==> !IsNull(val)
    }

    /** handle(): value-initialised and empty. */
    constructor Empty(d: Deleter)
      ensures Valid() && empty && val == 0 && deleter == d
    {
      val, empty, deleter := 0, true, d;
    }

    /** handle(T val): owns `v` unless `v` is null. */
    constructor Own(v: int, d: Deleter)
      ensures Valid() && val == v && empty == IsNull(v) && deleter == d
    {
      val, deleter := v, d;
      empty := false;
      if IsNull(v) {
        empty := true;
      }
    }

    /**
     * handle(handle &&from): starts empty and swaps with `from`, so this
     * handle takes over what `from` owned and `from` ends up empty.  The
     * value left in `from` is the uninitialised `_val` of the new handle,
     * which the contract leaves unspecified.
     */
    constructor Move(from: Handle)
      requires from.Valid()
      modifies from
      ensures Valid() && from.Valid()
      ensures val == old(from.val) && empty == old(from.empty)
      ensures from.empty && deleter == from.deleter
      ensures unchanged(from.deleter)
    {
      val, empty, deleter := from.val, from.empty, from.deleter;
      new;
      from.empty := true;
    }

    /** ~handle(): applies the release action exactly when non-empty. */
    method Destroy()
      modifies deleter
      ensures deleter.log == old(deleter.log) + (if empty then [] else [val])
    {
      if !empty {
        deleter.Apply(val);
      }
    }

    /** swap: exchanges both the values and the emptiness flags. */
    method Swap(b: Handle)
      requires b.deleter == deleter
      modifies this, b
      ensures val == old(b.val) && empty == old(b.empty)
      ensures b.val == old(val) && b.empty == old(empty)
      ensures unchanged(deleter)
    {
      val, b.val := b.val, val;
      empty, b.empty := b.empty, empty;
    }

    /** operator=(handle &&from): a swap, so `from` receives the old contents. */
    method MoveAssign(from: Handle)
      requires from.deleter == deleter
      modifies this, from
      ensures val == old(from.val) && empty == old(from.empty)
      ensures from.val == old(val) && from.empty == old(empty)
      ensures unchanged(deleter)
    {
      Swap(from);
    }

    /**
     * reset(new_val): builds a temporary handle on `v`, swaps with it and
     * lets the temporary die, which releases the previous value once.
     */
    method Reset(v: int)
      requires Valid()
      modifies this, deleter
      ensures Valid() && val == v && empty == IsNull(v)
      ensures deleter.log == old(deleter.log) + (if old(empty) then [] else [old(val)])
    {
      var tmp := new Handle.Own(v, deleter);
      Swap(tmp);
      tmp.Destroy();
    }

    /** update(new_val): overwrites without releasing anything. */
    method Update(v: int)
      modifies this
      ensures Valid() && val == v && empty == IsNull(v)
    {
      val := v;
      empty := IsNull(v);
    }

    /** release(): gives up ownership and returns the value, unreleased. */
    method Release() returns (v: int)
      modifies this
      ensures Valid() && v == old(val) && val == old(val) && empty
    {
      empty := true;
      v := val;
    }

    /** get(). */
    method Get() returns (v: int)
      ensures v == val
    {
      v := val;
    }

    /** operator const dummy*(): true exactly when the handle owns something. */
    method Holds() returns (b: bool)
      requires Valid()
      ensures b == !empty
      ensures b ==> !IsNull(val)
    {
      b := !empty && !IsNull(val);
    }
  }

  // -------------------------------------------------------------------
  // Lifetimes of handles, each with its own fresh release action.

  /** Constructing and destroying a handle releases its value exactly once. */
  method OwnThenDestroy(v: int) returns (released: seq<int>)
    ensures released == if IsNull(v) then [] else [v]
  {
    var d := new Deleter();
    var h := new Handle.Own(v, d);
    h.Destroy();
    released := d.log;
  }

  /**
   * Moving into a second handle and destroying the moved-from one releases
   * nothing; destroying the receiver then releases the value once.
   */
  method MoveThenDestroyBoth(v: int) returns (afterSource: seq<int>, afterBoth: seq<int>)
    ensures afterSource == []
    ensures afterBoth == if IsNull(v) then [] else [v]
  {
    var d := new Deleter();
    var source := new Handle.Own(v, d);
    var target := new Handle.Move(source);
    source.Destroy();
    afterSource := d.log;
    target.Destroy();
    afterBoth := d.log;
  }

  /** reset releases the old value at the reset, the new one at destruction. */
  method ResetThenDestroy(a: int, b: int) returns (atReset: seq<int>, atEnd: seq<int>)
    ensures atReset == if IsNull(a) then [] else [a]
    ensures atEnd == atReset + if IsNull(b) then [] else [b]
  {
    var d := new Deleter();
    var h := new Handle.Own(a, d);
    h.Reset(b);
    atReset := d.log;
    h.Destroy();
    atEnd := d.log;
  }

  /** release hands the value back and destruction then releases nothing. */
  method ReleaseThenDestroy(v: int) returns (r: int, released: seq<int>)
    ensures r == v && released == []
  {
    var d := new Deleter();
    var h := new Handle.Own(v, d);
    r := h.Release();
    h.Destroy();
    released := d.log;
  }

  /** Move-assignment swaps: each handle's value is released by the other. */
  method MoveAssignThenDestroy(a: int, b: int) returns (fromTarget: seq<int>, fromSource: seq<int>)
    requires !IsNull(a) && !IsNull(b)
    ensures fromTarget == [b] && fromSource == [a]
  {
    var d1 := new Deleter();
    var target := new Handle.Own(a, d1);
    var source := new Handle.Own(b, d1);
    target.MoveAssign(source);
    var before := d1.log;
    target.Destroy();
    fromTarget := d1.log[|before|..];
    var mid := d1.log;
    source.Destroy();
    fromSource := d1.log[|mid|..];
  }
}
