/**
 * `luna_array_t`: a klib vector of value handles, updated in place.
 *
 * The handle type `T` is opaque: the array stores, copies and returns
 * handles and never looks at what they refer to. `NULL` results become
 * `None`.
 */
module LunaArray {
  import opened Wrappers
  import opened ArrayModel

  class Array<T(0)> {
    /** The vector's buffer; `null` until the first push allocates it. */
    var data: array?<T>
    /** The number of handles held, `kv_size`. */
    var length: nat
    /** The number of slots allocated, `kv_max`. */
    var capacity: nat
    /** The handles held, first to last. */
    ghost var Contents: seq<T>

    /**
     * No buffer exactly when no slot is allocated, the buffer has `capacity`
     * slots, at most `capacity` of them are held, and the held prefix is the
     * contents.
     */
    ghost predicate Valid()
      reads this, data
    {
      && (data == null <==> capacity == 0)
      && (data != null ==> data.Length == capacity)
      && length <= capacity
      && Contents == (if data == null then [] else data[..length])
    }

    /** `luna_array_init`: an empty array with no buffer. */
    constructor Init()
      ensures Valid()
      ensures Contents == [] && length == 0
      ensures capacity == 0 && data == null
    {
      data := null;
      length := 0;
      capacity := 0;
      Contents := [];
    }

    /** `luna_array_length`: the number of handles held. */
    function Length(): (n: nat)
      reads this, data
      requires Valid()
      ensures n == |Contents|
      ensures n <= capacity
    {
      length
    }

    /**
     * `luna_array_at`: the handle at `i` when `0 <= i < length`, absent
     * otherwise; only slots below `length` are ever read.
     */
    function At(i: int): (r: Option<T>)
      reads this, data
      requires Valid()
      ensures r.Some? <==> 0 <= i < |Contents|
      ensures r.Some? ==> r.value == Contents[i]
      ensures r == Lookup(Contents, i)
    {
      if 0 <= i && i < length then Some(data[i]) else None
    }

    /**
     * The growth step of `kv_push` on a full vector: a new buffer with some
     * larger number of slots, holding a copy of the held prefix. The growth
     * factor is not modelled; any larger capacity may be chosen.
     */
    method Grow()
      requires Valid()
      modifies this
      ensures Valid()
      ensures capacity > old(capacity)
      ensures length == old(length) && Contents == old(Contents)
      ensures data != null && fresh(data)
    {
      var newCapacity: nat :| newCapacity > capacity;
      var grown := new T[newCapacity];
      if data != null {
        forall k | 0 <= k < length {
          grown[k] := data[k];
        }
      }
      data := grown;
      capacity := newCapacity;
    }

    /**
     * `luna_array_push`: `obj` goes to index `length`, which then grows by
     * one; the buffer is enlarged first only when it is full.
     */
    method Push(obj: T)
      requires Valid()
      modifies this, data
      ensures Valid()
      ensures Contents == old(Contents) + [obj]
      ensures length == old(length) + 1
      ensures capacity >= old(capacity)
      ensures old(length) < old(capacity) ==> data == old(data) && capacity == old(capacity)
      ensures old(length) == old(capacity) ==> capacity > old(capacity)
      ensures data == old(data) || fresh(data)
    {
      if length == capacity {
        Grow();
      }
      data[length] := obj;
      length := length + 1;
      Contents := Contents + [obj];
    }

    /**
     * `luna_array_pop`: absent on an empty array, which stays as it is;
     * otherwise the last handle, which is dropped. The buffer never shrinks.
     */
    method Pop() returns (r: Option<T>)
      requires Valid()
      modifies this
      ensures Valid()
      ensures data == old(data) && capacity == old(capacity)
      ensures r.None? <==> old(length) == 0
      ensures old(length) == 0 ==> length == 0 && Contents == old(Contents)
      ensures old(length) > 0 ==>
                && r == Some(old(Contents)[old(length) - 1])
                && length == old(length) - 1
                && Contents == old(Contents)[..old(length) - 1]
      ensures Contents == ApplyOp(old(Contents), PopOp)
    {
      if length > 0 {
        length := length - 1;
        r := Some(data[length]);
        Contents := Contents[..length];
      } else {
        r := None;
      }
    }

    /** Performs one push or pop of a `luna_array_each` body. */
    method RunOp(op: Op<T>)
      requires Valid()
      modifies this, data
      ensures Valid()
      ensures Contents == ApplyOp(old(Contents), op)
      ensures capacity >= old(capacity)
      ensures data == old(data) || fresh(data)
    {
      match op {
        case PushOp(h) => Push(h);
        case PopOp => var _ := Pop();
      }
    }

    /** Runs the array operations one `luna_array_each` body performs, in order. */
    method RunBlock(ops: seq<Op<T>>)
      requires Valid()
      modifies this, data
      ensures Valid()
      ensures Contents == ApplyOps(old(Contents), ops)
      ensures capacity >= old(capacity)
      ensures data == old(data) || fresh(data)
    {
      var j := 0;
      while j < |ops|
        invariant j <= |ops|
        invariant Valid()
        invariant ApplyOps(Contents, ops[j..]) == ApplyOps(old(Contents), ops)
        invariant capacity >= old(capacity)
        invariant data == old(data) || fresh(data)
      {
        ApplyOpsFrom(Contents, ops, j);
        RunOp(ops[j]);
        j := j + 1;
      }
    }

    /**
     * `luna_array_each`: the length is read once; then, for each index below
     * it in increasing order, the value is fetched through `At` and the body
     * runs, possibly pushing or popping. Returns the (index, value) pairs the
     * body was given.
     */
    method Each(block: Block<T>) returns (visited: seq<(nat, Option<T>)>)
      requires Valid()
      modifies this, data
      ensures Valid()
      ensures visited == EachTrace(old(Contents), block, 0, old(length))
      ensures Contents == EachFinal(old(Contents), block, 0, old(length))
      ensures capacity >= old(capacity)
      ensures data == old(data) || fresh(data)
    {
      var len := length;
      visited := [];
      var i := 0;
      while i < len
        invariant i <= len
        invariant Valid()
        invariant visited + EachTrace(Contents, block, i, len) == EachTrace(old(Contents), block, 0, len)
        invariant EachFinal(Contents, block, i, len) == EachFinal(old(Contents), block, 0, len)
        invariant capacity >= old(capacity)
        invariant data == old(data) || fresh(data)
      {
        var val := At(i);
        visited := visited + [(i, val)];
        RunBlock(block(i, val));
        i := i + 1;
      }
    }
  }

  /** A push immediately followed by a pop returns the pushed handle and restores the array. */
  method PushThenPopRestores<T(0)>(a: Array<T>, h: T) returns (r: Option<T>)
    requires a.Valid()
    modifies a, a.data
    ensures a.Valid()
    ensures r == Some(h)
    ensures a.Contents == old(a.Contents) && a.length == old(a.length)
    ensures a.capacity >= old(a.capacity)
    ensures a.data == old(a.data) || fresh(a.data)
  {
    a.Push(h);
    r := a.Pop();
  }

  /** Pushing handles one by one leaves them retrievable by index, in push order. */
  method PushAllInOrder<T(0)>(hs: seq<T>) returns (a: Array<T>)
    ensures a.Valid() && fresh(a)
    ensures a.Length() == |hs|
    ensures forall i :: 0 <= i < |hs| ==> a.At(i) == Some(hs[i])
    ensures a.capacity >= |hs|
    ensures a.data == null || fresh(a.data)
  {
    a := new Array<T>.Init();
    a.RunBlock(Pushes(hs));
    PushesAppend([], hs);
    assert [] + hs == hs;
  }

  /** Create, push three handles, pop one, then iterate over the rest. */
  method PushPopEachScenario(x: int, y: int, z: int)
  {
    var a := new Array<int>.Init();
    a.Push(x);
    a.Push(y);
    a.Push(z);
    assert a.Length() == 3;
    assert a.At(0) == Some(x) && a.At(1) == Some(y) && a.At(2) == Some(z);
    var top := a.Pop();
    assert top == Some(z) && a.Length() == 2;
    var visited := a.Each((i: nat, v: Option<int>) => []);
    EachVisitsSnapshot([x, y], (i: nat, v: Option<int>) => [], 0, 2);
    assert visited == [(0, Some(x)), (1, Some(y))];
    a.Push(z);
    assert a.At(2) == Some(z) && a.Length() == 3;
  }

  /** Two arrays filled separately keep their own buffers: pushing to one leaves the other alone. */
  method TwoArraysScenario(x: int, y: int)
  {
    var a := PushAllInOrder([x]);
    var b := PushAllInOrder([y]);
    b.Push(y);
    assert a.At(0) == Some(x) && a.Length() == 1;
  }

  /** Popping from a fresh array yields absent and leaves the length at zero. */
  method PopEmptyScenario()
  {
    var a := new Array<int>.Init();
    var r := a.Pop();
    assert r == None && a.Length() == 0;
  }

  /** A body that pops on every step sees absent values once the index passes the shrinking length. */
  method ShrinkingEachScenario(w: int, x: int, y: int, z: int)
  {
    var a := new Array<int>.Init();
    a.Push(w);
    a.Push(x);
    a.Push(y);
    a.Push(z);
    var popEach := (i: nat, v: Option<int>) => [PopOp];
    var visited := a.Each(popEach);
    assert ApplyOps([w, x, y, z], [PopOp]) == [w, x, y];
    assert ApplyOps([w, x, y], [PopOp]) == [w, x];
    assert ApplyOps([w, x], [PopOp]) == [w];
    assert ApplyOps([w], [PopOp]) == [];
    assert EachTrace([w, x], popEach, 2, 4) == [(2, None), (3, None)];
    assert visited == [(0, Some(w)), (1, Some(x)), (2, None), (3, None)];
    assert a.Length() == 0;
  }
}
