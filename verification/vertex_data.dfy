/** The `VertexData` buffer registry: vertex buffers bound to numbered stream slots, and the
    largest slot number in use. A slot may be registered with a null buffer; such a slot counts
    as registered (it is a key of the map and takes part in the maximum) but not as bound. */
module VertexData {

  datatype Option<T> = None | Some(value: T)

  /** A vertex buffer, known only by identity: the registry never looks inside one. */
  datatype VertexBuffer = VertexBuffer(handle: nat)

  /** The registry: the vertex count, the slot map (`None` standing for a null pointer stored
      under a key) and the cached largest slot number. */
  datatype Registry = Registry(
    vertexCount: nat,
    buffers: map<nat, Option<VertexBuffer>>,
    maxBufferIdx: nat)

  /** The cached maximum is the largest registered slot, or 0 when no slot is registered. */
  predicate MaxIndexCurrent(buffers: map<nat, Option<VertexBuffer>>, maxIdx: nat)
  {
    && (buffers == map[] ==> maxIdx == 0)
    && (buffers != map[] ==> maxIdx in buffers)
    && (forall k | k in buffers :: k <= maxIdx)
  }

  /** The constructor: vertex count 0 and no slots. The constructor does not set the cached
      maximum, so its initial value is a parameter. */
  function New(initialMax: nat): (r: Registry)
    ensures r.vertexCount == 0
    ensures forall i :: GetBuffer(r, i) == None && !IsBufferBound(r, i)
  {
    Registry(0, map[], initialMax)
  }

  /** `getBuffer(index)`: the buffer registered at `index`, or null when the slot is not
      registered or holds null. */
  function GetBuffer(vd: Registry, index: nat): (r: Option<VertexBuffer>)
    ensures index in vd.buffers ==> r == vd.buffers[index]
    ensures index !in vd.buffers ==> r == None
  {
    if index in vd.buffers then vd.buffers[index] else None
  }

  /** `isBufferBound(index)`: the slot is registered and its buffer is not null, which is
      exactly when `getBuffer` returns a buffer for it. */
  predicate IsBufferBound(vd: Registry, index: nat): (r: bool)
    ensures r <==> GetBuffer(vd, index).Some?
  {
    index in vd.buffers && vd.buffers[index] != None
  }

  /** `recalculateMaxIndex()`: start from 0 and take the maximum with every key of the map. The
      map is visited in an arbitrary order; the maximum does not depend on it. */
  method RecalculateMaxIndex(buffers: map<nat, Option<VertexBuffer>>) returns (maxIdx: nat)
    ensures MaxIndexCurrent(buffers, maxIdx)
  {
    maxIdx := 0;
    var rest := buffers.Keys;
    ghost var visited: set<nat> := {};
    while rest != {}
      invariant visited + rest == buffers.Keys && visited !! rest
      invariant forall k | k in visited :: k <= maxIdx
      invariant maxIdx == 0 || maxIdx in visited
      decreases |rest|
    {
      var k :| k in rest;
      if k > maxIdx {
        maxIdx := k;
      }
      rest := rest - {k};
      visited := visited + {k};
    }
    if buffers != map[] && maxIdx == 0 {
      var k :| k in buffers;
      assert k in visited;
    }
  }

  /** `setBuffer(index, buffer)`: store `buffer` (possibly null) under `index`, then recompute
      the cached maximum. */
  method SetBuffer(vd: Registry, index: nat, buffer: Option<VertexBuffer>) returns (r: Registry)
    ensures r.vertexCount == vd.vertexCount
    ensures index in r.buffers && GetBuffer(r, index) == buffer
    ensures IsBufferBound(r, index) <==> buffer.Some?
    ensures r.buffers.Keys == vd.buffers.Keys + {index}
    ensures forall i | i != index ::
              (i in r.buffers <==> i in vd.buffers) &&
              GetBuffer(r, i) == GetBuffer(vd, i) &&
              (IsBufferBound(r, i) <==> IsBufferBound(vd, i))
    ensures MaxIndexCurrent(r.buffers, r.maxBufferIdx)
    ensures r.maxBufferIdx >= index
  {
    var buffers := vd.buffers[index := buffer];
    var maxIdx := RecalculateMaxIndex(buffers);
    r := Registry(vd.vertexCount, buffers, maxIdx);
  }

  /** Registering a null buffer at a higher slot than any bound one still raises the maximum:
      slot 3 bound, then slot 10 set to null, gives a maximum of 10 with slot 10 unbound. */
  method NullSlotRaisesMax(initialMax: nat, b: VertexBuffer) returns (vd: Registry)
    ensures vd.maxBufferIdx == 10
    ensures IsBufferBound(vd, 3) && GetBuffer(vd, 3) == Some(b)
    ensures 10 in vd.buffers && !IsBufferBound(vd, 10) && GetBuffer(vd, 10) == None
  {
    var v0 := New(initialMax);
    var v1 := SetBuffer(v0, 3, Some(b));
    vd := SetBuffer(v1, 10, None);
    assert vd.buffers.Keys == {3, 10};
  }
}
