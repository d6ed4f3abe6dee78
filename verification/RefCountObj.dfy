/** The reference counting of src/core/refcountobj.cpp:73-146, counts only. */
module RefCountObj {

  class RefCountObj {
    var mRefCount: int
    ghost var deleted: bool

    /** Alive with references, or deleted with none */
    ghost predicate Valid()
      reads this
    {
      mRefCount >= 0 && (deleted <==> mRefCount == 0)
    }

    constructor ()
      ensures Valid() && mRefCount == 1
    {
      mRefCount, deleted := 1, false;
    }

    /** False stands for the internal error of an object without references. */
    method AddRef() returns (ok: bool)
      requires Valid()
      modifies this`mRefCount
      ensures Valid() && ok == (old(mRefCount) > 0) == !deleted
      ensures mRefCount == if ok then old(mRefCount) + 1 else old(mRefCount)
    {
      if mRefCount <= 0 { return false; }
      mRefCount := mRefCount + 1;
      return true;
    }

    method Release()
      requires Valid() && !deleted
      modifies this
      ensures Valid() && mRefCount == old(mRefCount) - 1
    {
      mRefCount := mRefCount - 1;
      if mRefCount == 0 { deleted := true; }
    }
  }

  datatype Op = Add | Drop

  /** References held after the operations, the creator's included */
  function Held(ops: seq<Op>): int {
    if ops == [] then 1 else Held(ops[..|ops| - 1]) + if ops[|ops| - 1].Add? then 1 else -1
  }

  /** Every operation is on an object that someone still refers to. */
  ghost predicate Owned(ops: seq<Op>) { forall i :: 0 <= i < |ops| ==> Held(ops[..i]) > 0 }

  /** The object lives as long as someone refers to it, and no longer. */
  method Run(ops: seq<Op>) returns (o: RefCountObj)
    requires Owned(ops)
    ensures o.Valid() && o.mRefCount == Held(ops) && (o.deleted <==> Held(ops) == 0)
  {
    o := new RefCountObj();
    for i := 0 to |ops|
      invariant fresh(o) && o.Valid() && o.mRefCount == Held(ops[..i])
    {
      assert ops[..i + 1][..i] == ops[..i];
      if ops[i].Add? {
        var _ := o.AddRef();
      } else {
        o.Release();
      }
    }
    assert ops[..|ops|] == ops;
  }
}
