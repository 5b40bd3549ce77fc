/** Host-side buffer binding: every slot gets an input and an output buffer
    of exactly the sizes that slot reports. The allocation is taken to
    succeed (the programs assert the pointers are non-null), so a binding
    records the two sizes. */
module Buffers {
  import opened Tidl

  /** The ArgInfo pair bound into one slot: input and output buffer sizes. */
  datatype Binding = Binding(inSize: nat, outSize: nat)

  /** The buffers bound into the slots of a pool, by slot position. */
  class Arena {
    var bound: map<nat, Binding>

    constructor ()
      ensures bound == map[]
    {
      bound := map[];
    }

    /** SetInputOutputBuffer: binds both buffers into slot k only. */
    method SetInputOutputBuffer(k: nat, inSize: nat, outSize: nat)
      modifies this
      ensures bound == old(bound)[k := Binding(inSize, outSize)]
    {
      bound := bound[k := Binding(inSize, outSize)];
    }

    /** AllocateMemory: for each slot in pool order, allocates and binds
        buffers of the sizes that slot reports; bindings of positions outside
        the pool are left as they were. */
    method AllocateMemory(sizes: seq<BufferSizes>)
      modifies this
      ensures forall k :: 0 <= k < |sizes| ==>
        k in bound && bound[k] == Binding(sizes[k].input, sizes[k].output)
      ensures forall k :: k in old(bound) && |sizes| <= k ==> k in bound && bound[k] == old(bound)[k]
      ensures forall k :: k in bound ==> k < |sizes| || k in old(bound)
    {
      var i := 0;
      while i < |sizes|
        invariant i <= |sizes|
        invariant forall k :: 0 <= k < i ==>
          k in bound && bound[k] == Binding(sizes[k].input, sizes[k].output)
        invariant forall k :: k in old(bound) && i <= k ==> k in bound && bound[k] == old(bound)[k]
        invariant forall k :: k in bound ==> k < i || k in old(bound)
      {
        SetInputOutputBuffer(i, sizes[i].input, sizes[i].output);
        i := i + 1;
      }
    }
  }
}
