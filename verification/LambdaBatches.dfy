/**
 The batch that a list lambda runs on: fixed-size buffers that say, for each of at most `V`
 elements, which child element, which row and which index it has.
 */
module LambdaBatches {
  import opened ListColumns

  class LambdaBatch {
    const capacity: nat
    var childSel: seq<nat>
    var rowSel: seq<nat>
    var indexVector: seq<nat>
    var size: nat
    ghost var flushed: nat  // the elements that earlier batches held

    constructor (vectorSize: nat)
      ensures Valid() && size == flushed == 0 && capacity == vectorSize
    {
      capacity := vectorSize;
      childSel, rowSel, indexVector := seq(vectorSize, _ => 0), seq(vectorSize, _ => 0), seq(vectorSize, _ => 0);
      size, flushed := 0, 0;
    }

    ghost predicate Valid()
      reads this
    {
      size <= capacity == |childSel| == |rowSel| == |indexVector|
    }

    /** The buffers hold the positions of elements `flushed`, `flushed + 1`, ... of the flattened rows. */
    ghost predicate Holds<T, U>(child: seq<T>, call: LambdaCall<T, U>)
      requires Valid()
      reads this
    {
      && flushed + size <= call.Total()
      && forall i :: 0 <= i < size ==> IsPosition(child, call, flushed + i, childSel[i], rowSel[i], indexVector[i])
    }

    /** Adds the position of the next element: index `k` of row `r`. */
    method Add<T, U>(childPosition: nat, r: nat, k: nat, hasIndex: bool, child: seq<T>, ghost call: LambdaCall<T, U>)
      requires Valid() && size < capacity && Holds(child, call)
      requires hasIndex == call.hasIndex
      requires flushed + size < call.Total() && Locate(call.rows, |call.rows|, flushed + size) == (r, k)
      requires childPosition < |child| && child[childPosition] == call.rows[r][k]
      modifies this`size, this`childSel, this`rowSel, this`indexVector
      ensures Valid() && size == old(size) + 1 && Holds(child, call)
    {
      childSel := childSel[size := childPosition];
      rowSel := rowSel[size := r];
      if hasIndex {
        indexVector := indexVector[size := k + 1];
      }
      size := size + 1;
    }

    /** Starts the next batch. */
    method Clear()
      requires Valid()
      modifies this`size, this`flushed
      ensures Valid() && size == 0 && flushed == old(flushed + size)
    {
      flushed := flushed + size;
      size := 0;
    }

    /** Slices the child vector and runs the lambda on the batch. */
    method ExecuteExpression<T, U>(child: seq<T>, lambda: (T, nat, nat) -> U, hasIndex: bool, ghost call: LambdaCall<T, U>)
      returns (input: seq<T>, lambdaVector: seq<U>)
      requires Valid() && Holds(child, call) && call.lambda == lambda && call.hasIndex == hasIndex
      ensures |input| == size && call.IsBatch(flushed, input, lambdaVector)
      ensures forall i :: 0 <= i < size ==>
                var at := Locate(call.rows, |call.rows|, flushed + i);
                && input[i] == call.rows[at.0][at.1]
                && lambdaVector[i] == lambda(call.rows[at.0][at.1], at.0, if hasIndex then at.1 + 1 else 0)
    {
      input, lambdaVector := [], [];
      var i := 0;
      while i < size
        invariant i <= size && |input| == i
        invariant call.IsBatch(flushed, input, lambdaVector)
      {
        assert IsPosition(child, call, flushed + i, childSel[i], rowSel[i], indexVector[i]);
        var element := child[childSel[i]];
        input := input + [element];
        lambdaVector := lambdaVector + [lambda(element, rowSel[i], if hasIndex then indexVector[i] else 0)];
        i := i + 1;
      }
    }
  }

  /** The buffered child position, row and index are those of the `g`-th element. */
  ghost predicate IsPosition<T, U>(child: seq<T>, call: LambdaCall<T, U>, g: nat, childPosition: nat, row: nat, index: nat)
    requires g < call.Total()
  {
    var at := Locate(call.rows, |call.rows|, g);
    && childPosition < |child| && child[childPosition] == call.rows[at.0][at.1]
    && row == at.0 && (call.hasIndex ==> index == at.1 + 1)
  }
}
