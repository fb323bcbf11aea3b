/**
 * The luna array as a value: its contents as a sequence of handles, the
 * bounds-checked read that `luna_array_at` performs, the operations a loop
 * body may apply to the array, and what `luna_array_each` visits when its
 * body changes the array as it goes.
 */
module ArrayModel {
  import opened Wrappers

  /** The bounds-checked read of `luna_array_at`: absent unless `0 <= i < |s|`. */
  function Lookup<T>(s: seq<T>, i: int): (r: Option<T>)
    ensures r.Some? <==> 0 <= i < |s|
    ensures r.Some? ==> r.value == s[i]
  {
    if 0 <= i < |s| then Some(s[i]) else None
  }

  /** An operation a loop body applies to the array it is iterating. */
  datatype Op<T> = PushOp(handle: T) | PopOp

  /** Every operation is a pop. */
  predicate PopsOnly<T>(ops: seq<Op<T>>)
  {
    forall k :: 0 <= k < |ops| ==> ops[k].PopOp?
  }

  /** No operation is a pop. */
  predicate PushesOnly<T>(ops: seq<Op<T>>)
  {
    forall k :: 0 <= k < |ops| ==> ops[k].PushOp?
  }

  /**
   * What one operation does to the contents: a push puts its handle at the
   * old length and keeps everything before it; a pop on an empty array
   * changes nothing, otherwise it drops exactly the last handle.
   */
  function ApplyOp<T>(s: seq<T>, op: Op<T>): (r: seq<T>)
    ensures op.PushOp? ==> |r| == |s| + 1 && r[..|s|] == s && r[|s|] == op.handle
    ensures op.PopOp? ==> |r| == (if |s| == 0 then 0 else |s| - 1) && r == s[..|r|]
  {
    match op
    case PushOp(h) => s + [h]
    case PopOp => if |s| == 0 then s else s[..|s| - 1]
  }

  /**
   * The operations run in order, first to last. Each changes the length by
   * at most one; pushes alone keep the old contents as a prefix, and pops
   * alone leave a prefix of the old contents.
   */
  function ApplyOps<T>(s: seq<T>, ops: seq<Op<T>>): (r: seq<T>)
    ensures |s| - |ops| <= |r| <= |s| + |ops|
    ensures PushesOnly(ops) ==> |r| == |s| + |ops| && r[..|s|] == s
    ensures PopsOnly(ops) ==> |r| <= |s| && r == s[..|r|]
    decreases |ops|
  {
    if |ops| == 0 then s else ApplyOps(ApplyOp(s, ops[0]), ops[1..])
  }

  /** Running the operations from index `j` on is running `ops[j]` and then the rest. */
  lemma ApplyOpsFrom<T>(s: seq<T>, ops: seq<Op<T>>, j: nat)
    requires j < |ops|
    ensures ApplyOps(s, ops[j..]) == ApplyOps(ApplyOp(s, ops[j]), ops[j + 1..])
  {
    assert ops[j..][0] == ops[j];
    assert ops[j..][1..] == ops[j + 1..];
  }

  /** One push per handle, in the order given. */
  function Pushes<T>(hs: seq<T>): (ops: seq<Op<T>>)
    ensures |ops| == |hs|
    ensures PushesOnly(ops)
  {
    if |hs| == 0 then [] else [PushOp(hs[0])] + Pushes(hs[1..])
  }

  /** Pushing `hs` one after another appends `hs` in order and changes nothing before it. */
  lemma {:induction false} PushesAppend<T>(s: seq<T>, hs: seq<T>)
    ensures ApplyOps(s, Pushes(hs)) == s + hs
    decreases |hs|
  {
    if |hs| == 0 {
      assert s + hs == s;
    } else {
      var ops := Pushes(hs);
      assert ops[0] == PushOp(hs[0]) && ops[1..] == Pushes(hs[1..]);
      assert ApplyOps(s, ops) == ApplyOps(s + [hs[0]], Pushes(hs[1..]));
      PushesAppend(s + [hs[0]], hs[1..]);
      assert s + [hs[0]] + hs[1..] == s + hs;
    }
  }

  /** Running `a` and then `b` is running their concatenation. */
  lemma {:induction false} ApplyOpsConcat<T>(s: seq<T>, a: seq<Op<T>>, b: seq<Op<T>>)
    ensures ApplyOps(s, a + b) == ApplyOps(ApplyOps(s, a), b)
    decreases |a|
  {
    if |a| == 0 {
      assert a + b == b;
    } else {
      assert (a + b)[0] == a[0];
      assert (a + b)[1..] == a[1..] + b;
      ApplyOpsConcat(ApplyOp(s, a[0]), a[1..], b);
    }
  }

  /** A push immediately followed by a pop leaves any contents as they were. */
  lemma PushThenPop<T>(s: seq<T>, h: T, rest: seq<Op<T>>)
    ensures ApplyOps(s, [PushOp(h), PopOp] + rest) == ApplyOps(s, rest)
  {
    ApplyOpsConcat(s, [PushOp(h), PopOp], rest);
    var ops: seq<Op<T>> := [PushOp(h), PopOp];
    assert ops[1..] == [PopOp];
    assert ApplyOps(s, ops) == ApplyOps(s + [h], [PopOp]);
    assert ApplyOps(s + [h], [PopOp]) == ApplyOp(s + [h], PopOp);
    assert (s + [h])[..|s|] == s;
  }

  /**
   * The loop body of `luna_array_each`: given the index and the value just
   * read, the operations it applies to the array before the next step.
   */
  type Block<!T> = (nat, Option<T>) -> seq<Op<T>>

  /**
   * The (index, value) pairs `luna_array_each` visits from step `i` to the
   * snapshotted length `len`, starting from contents `s`: every step reads
   * through `Lookup` from the contents as the earlier steps left them.
   */
  function EachTrace<T>(s: seq<T>, block: Block<T>, i: nat, len: nat): (t: seq<(nat, Option<T>)>)
    ensures |t| == (if i <= len then len - i else 0)
    decreases len - i
  {
    if len <= i then []
    else
      var v := Lookup(s, i);
      [(i, v)] + EachTrace(ApplyOps(s, block(i, v)), block, i + 1, len)
  }

  /** The contents after steps `i` up to `len` of `luna_array_each`. */
  function EachFinal<T>(s: seq<T>, block: Block<T>, i: nat, len: nat): (r: seq<T>)
    decreases len - i
  {
    if len <= i then s
    else EachFinal(ApplyOps(s, block(i, Lookup(s, i))), block, i + 1, len)
  }

  /** The iteration visits exactly the indices `i, i + 1, ..., len - 1`, in increasing order. */
  lemma {:induction false} EachVisitsSnapshot<T>(s: seq<T>, block: Block<T>, i: nat, len: nat)
    requires i <= len
    ensures |EachTrace(s, block, i, len)| == len - i
    ensures forall k :: 0 <= k < len - i ==> EachTrace(s, block, i, len)[k].0 == i + k
    decreases len - i
  {
    if i < len {
      var v := Lookup(s, i);
      EachVisitsSnapshot(ApplyOps(s, block(i, v)), block, i + 1, len);
    }
  }

  /**
   * The value visited at index `i + k` is read through the bounds check from
   * the contents the earlier steps left behind: it is present exactly when
   * the index is below the length at that moment, and then it is the handle
   * stored there. A body that shrinks the array therefore sees absent values
   * for indices at or beyond the new length, never a read out of bounds.
   */
  lemma {:induction false} EachReadsCurrent<T>(s: seq<T>, block: Block<T>, i: nat, len: nat, k: nat)
    requires i + k < len
    ensures |EachTrace(s, block, i, len)| == len - i
    ensures EachTrace(s, block, i, len)[k].1.Some? <==> i + k < |EachFinal(s, block, i, i + k)|
    ensures EachTrace(s, block, i, len)[k].1.Some? ==>
              EachTrace(s, block, i, len)[k].1.value == EachFinal(s, block, i, i + k)[i + k]
    decreases k
  {
    EachVisitsSnapshot(s, block, i, len);
    var v := Lookup(s, i);
    var s' := ApplyOps(s, block(i, v));
    if k > 0 {
      EachReadsCurrent(s', block, i + 1, len, k - 1);
      assert EachTrace(s, block, i, len)[k] == EachTrace(s', block, i + 1, len)[k - 1];
      assert EachFinal(s, block, i, i + k) == EachFinal(s', block, i + 1, i + k);
    }
  }

  /**
   * With a body that leaves the array alone, the i-th visited value is the
   * i-th element and the contents are unchanged afterwards.
   */
  lemma {:induction false} EachWithoutMutation<T>(s: seq<T>, block: Block<T>, i: nat, len: nat)
    requires forall j, v :: block(j, v) == []
    requires i <= len <= |s|
    ensures |EachTrace(s, block, i, len)| == len - i
    ensures forall k :: 0 <= k < len - i ==> EachTrace(s, block, i, len)[k] == (i + k, Some(s[i + k]))
    ensures EachFinal(s, block, i, len) == s
    decreases len - i
  {
    if i < len {
      var v := Lookup(s, i);
      assert ApplyOps(s, block(i, v)) == s;
      EachWithoutMutation(s, block, i + 1, len);
    }
  }

  /** A body that only pops leaves a prefix of the contents the iteration started from. */
  lemma {:induction false} EachPopsOnlyShrinks<T>(s: seq<T>, block: Block<T>, i: nat, len: nat)
    requires forall j, v :: PopsOnly(block(j, v))
    ensures |EachFinal(s, block, i, len)| <= |s|
    ensures EachFinal(s, block, i, len) == s[..|EachFinal(s, block, i, len)|]
    decreases len - i
  {
    if i < len {
      var s' := ApplyOps(s, block(i, Lookup(s, i)));
      EachPopsOnlyShrinks(s', block, i + 1, len);
    }
  }

  /** A body that only pushes keeps the contents the iteration started from as a prefix. */
  lemma {:induction false} EachPushesOnlyGrows<T>(s: seq<T>, block: Block<T>, i: nat, len: nat)
    requires forall j, v :: PushesOnly(block(j, v))
    ensures |s| <= |EachFinal(s, block, i, len)|
    ensures EachFinal(s, block, i, len)[..|s|] == s
    decreases len - i
  {
    if i < len {
      var s' := ApplyOps(s, block(i, Lookup(s, i)));
      EachPushesOnlyGrows(s', block, i + 1, len);
      assert s'[..|s|] == s;
    }
  }
}
