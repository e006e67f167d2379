/** The chunked batch driver every bulk writer uses
    (lib/repositories/baseRepository.ts). */
module Batching {
  import opened Collections

  /** `Number(process.env.BATCH_SIZE) || 50`: the setting is passed in, and
      0 stands for an unset, zero or non-numeric variable. */
  function BatchSize(setting: nat): (n: nat)
    ensures n > 0
    ensures setting > 0 ==> n == setting
    ensures setting == 0 ==> n == 50
  {
    if setting == 0 then 50 else setting
  }

  /** `chunk(items, size)`: consecutive slices of `size` items, in order, the
      last one possibly shorter. */
  function Chunk<T>(items: seq<T>, size: nat): (chunks: seq<seq<T>>)
    requires size > 0
    ensures Flatten(chunks) == items
    ensures forall i :: 0 <= i < |chunks| ==> 0 < |chunks[i]| <= size
    ensures forall i :: 0 <= i < |chunks| - 1 ==> |chunks[i]| == size
    decreases |items|
  {
    if items == [] then []
    else if |items| <= size then [items]
    else
      var rest := Chunk(items[size..], size);
      assert Flatten([items[..size]] + rest) == items[..size] + Flatten(rest);
      [items[..size]] + rest
  }

  /** One call of the processor: the batch, its index and the batch count. */
  datatype BatchCall<T> = BatchCall(batch: seq<T>, index: nat, totalBatches: nat)

  function Batches<T>(calls: seq<BatchCall<T>>): seq<seq<T>> {
    seq(|calls|, i requires 0 <= i < |calls| => calls[i].batch)
  }

  /** `batchProcess(items, batchSize, processor)`: the calls made to the
      processor, in the order they are awaited one after the other. The
      processor is called once per chunk with indexes 0, 1, ... in order,
      always with the same total: call `i` receives chunk `i`, and the
      batches put together give back the items. */
  method BatchProcess<T>(items: seq<T>, batchSize: nat) returns (calls: seq<BatchCall<T>>)
    requires batchSize > 0
    ensures |calls| == |Chunk(items, batchSize)|
    ensures Batches(calls) == Chunk(items, batchSize)
    ensures forall i :: 0 <= i < |calls| ==> calls[i].index == i && calls[i].totalBatches == |calls|
    ensures forall i :: 0 <= i < |calls| ==> 0 < |calls[i].batch| <= batchSize
    ensures Flatten(Batches(calls)) == items
  {
    var chunks := Chunk(items, batchSize);
    calls := [];
    for index := 0 to |chunks|
      invariant |calls| == index
      invariant forall i :: 0 <= i < index ==> calls[i] == BatchCall(chunks[i], i, |chunks|)
    {
      calls := calls + [BatchCall(chunks[index], index, |chunks|)];
    }
    assert Batches(calls) == chunks;
  }
}
