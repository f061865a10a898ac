/**
  The interaction state of HapticCube/TangibleVirtualObject.cpp: the list of
  haptic objects, the drag target, the editing and force flags, the number
  of displaced slices, the twelve rings and the vertex buffer snapshot, all
  held as fields of one Scene. The methods are the button and touch
  callbacks, the 'a', '+' and '-' keys, and the deformation step of the
  force callback.
*/
module Interaction {
  import opened Vectors
  import opened Mesh
  import opened Rings
  import opened Nearest
  import opened Deformation

  /** A haptic shape: its HL shape id, whether it is touched, and its mesh. */
  datatype HapticObject = HapticObject(shapeId: nat, touched: bool, loader: ObjLoader)

  /** getIndexOfObject's answer: the first position holding shape id, or -1 when none does. */
  function IndexOf(objs: seq<HapticObject>, id: int): (r: int)
    ensures -1 <= r < |objs|
    ensures r == -1 <==> forall i :: 0 <= i < |objs| ==> objs[i].shapeId != id
    ensures r != -1 ==> objs[r].shapeId == id && forall j :: 0 <= j < r ==> objs[j].shapeId != id
    decreases |objs|
  {
    if |objs| == 0 then -1
    else if objs[0].shapeId == id then 0
    else
      var r := IndexOf(objs[1..], id);
      if r == -1 then -1 else r + 1
  }

  /** The object with the new touched flag. */
  function WithTouched(o: HapticObject, touched: bool): (o': HapticObject)
    ensures o'.shapeId == o.shapeId && o'.loader == o.loader && o'.touched == touched
  {
    o.(touched := touched)
  }

  /** objs after setting the touched flag of the object found for id, if any. */
  function TouchedAt(objs: seq<HapticObject>, id: int, touched: bool): (r: seq<HapticObject>)
    ensures |r| == |objs|
    ensures forall i :: 0 <= i < |objs| ==> r[i].shapeId == objs[i].shapeId && r[i].loader == objs[i].loader
    ensures forall i :: 0 <= i < |objs| ==> r[i].touched == if i == IndexOf(objs, id) then touched else objs[i].touched
  {
    var k := IndexOf(objs, id);
    if k == -1 then objs else objs[k := WithTouched(objs[k], touched)]
  }

  class Scene {
    var objects: seq<HapticObject>   // hapticObjects
    var dragObj: int                 // gCurrentDragObj
    var buttonDown: bool
    var isAnchoredEditing: bool
    var renderForce: bool            // bRenderForce
    var numSlices: int
    var rootIndex: int               // rootTransformIndex
    var vertexBuffer: seq<Vec3>      // mVerticeBuffer
    const rings: array<set<int>>     // immediateNeighbors

    ghost predicate Valid()
      reads this, rings
    {
      && rings.Length == MaxNumSlices
      && 1 <= numSlices <= MaxNumSlices
      && dragObj >= -1
      && (renderForce ==> isAnchoredEditing && dragObj != -1)
      && PairwiseDisjoint(rings[..])
    }

    /** The position of the drag object, or -1. */
    function DragIndex(): (k: int)
      reads this
      ensures -1 <= k < |objects|
    {
      IndexOf(objects, dragObj)
    }

    /** The drag object's loader, if the drag object exists. */
    function DragLoader(): set<ObjLoader>
      reads this
    {
      if DragIndex() != -1 then {objects[DragIndex()].loader} else {}
    }

    /** The loader a tick deforms: the drag object's, when the force is on. */
    function TickLoaders(): set<ObjLoader>
      reads this
    {
      if renderForce && dragObj != -1 then DragLoader() else {}
    }

    /** The unchecked lookups of a tick succeed: the drag object exists and every ring member in use indexes both vertex lists. */
    ghost predicate TickReady()
      reads this, rings, DragLoader()
    {
      && rings.Length == MaxNumSlices
      && DragIndex() != -1
      && 0 <= rootIndex < |vertexBuffer|
      && (forall n, v :: 0 <= n < numSlices && n < rings.Length && v in rings[n] ==>
            0 <= v < |vertexBuffer| && v < |objects[DragIndex()].loader.vertices|)
    }

    /** The initial globals: eight slices, no drag object, every flag off, empty rings. */
    constructor (objs: seq<HapticObject>)
      ensures Valid()
      ensures objects == objs && dragObj == -1 && numSlices == 8
      ensures !buttonDown && !isAnchoredEditing && !renderForce
      ensures vertexBuffer == [] && rootIndex == 0
      ensures forall n :: 0 <= n < rings.Length ==> rings[n] == {}
      ensures fresh(rings)
    {
      objects := objs;
      dragObj := -1;
      buttonDown := false;
      isAnchoredEditing := false;
      renderForce := false;
      numSlices := 8;
      rootIndex := 0;
      vertexBuffer := [];
      rings := new set<int>[MaxNumSlices](_ => {});
    }

    /** getIndexOfObject: a linear scan that stops at the first match. */
    method IndexOfObject(shapeID: int) returns (index: int)
      ensures index == IndexOf(objects, shapeID)
      ensures index == -1 <==> forall i :: 0 <= i < |objects| ==> objects[i].shapeId != shapeID
    {
      for i := 0 to |objects|
        invariant forall j :: 0 <= j < i ==> objects[j].shapeId != shapeID
      {
        if objects[i].shapeId == shapeID {
          return i;
        }
      }
      return -1;
    }

    /** buttonDownClientThreadCallback: the pressed shape becomes the drag object and the only touched one. */
    method ButtonDown(shape: nat)
      requires Valid()
      modifies this`objects, this`dragObj, this`buttonDown
      ensures Valid()
      ensures dragObj == shape && buttonDown
      ensures |objects| == |old(objects)|
      ensures forall i :: 0 <= i < |objects| ==>
        objects[i] == WithTouched(old(objects[i]), old(objects[i]).shapeId == shape)
    {
      dragObj := shape;
      for i := 0 to |objects|
        invariant dragObj == shape
        invariant |objects| == |old(objects)|
        invariant forall j :: 0 <= j < i ==> objects[j] == WithTouched(old(objects[j]), old(objects[j]).shapeId == shape)
        invariant forall j :: i <= j < |objects| ==> objects[j] == old(objects[j])
      {
        if shape == objects[i].shapeId {
          objects := objects[i := WithTouched(objects[i], true)];
        } else {
          objects := objects[i := WithTouched(objects[i], false)];
        }
      }
      buttonDown := true;
    }

    /** buttonUpClientThreadCallback: drop the drag object and switch editing and force off; the outcome does not depend on the prior state. */
    method ButtonUp()
      requires Valid()
      modifies this`dragObj, this`buttonDown, this`isAnchoredEditing, this`renderForce
      ensures Valid()
      ensures dragObj == -1 && !buttonDown && !isAnchoredEditing && !renderForce
    {
      if dragObj != -1 {
        dragObj := -1;
      }
      buttonDown := false;
      isAnchoredEditing := false;
      renderForce := false;
    }

    /** hlTouchCB: the first object with this shape id becomes touched; nothing happens when there is none. */
    method Touch(shape: nat)
      requires Valid()
      modifies this`objects
      ensures Valid()
      ensures objects == TouchedAt(old(objects), shape, true)
    {
      var hapticIndex := IndexOfObject(shape);
      if hapticIndex != -1 {
        objects := objects[hapticIndex := WithTouched(objects[hapticIndex], true)];
      }
    }

    /** hlUnTouchCB: the first object with this shape id stops being touched; nothing happens when there is none. */
    method Untouch(shape: nat)
      requires Valid()
      modifies this`objects
      ensures Valid()
      ensures objects == TouchedAt(old(objects), shape, false)
    {
      var hapticIndex := IndexOfObject(shape);
      if hapticIndex != -1 {
        objects := objects[hapticIndex := WithTouched(objects[hapticIndex], false)];
      }
    }

    /** Key '+': one more slice, up to maxNumSlices. */
    method IncreaseSlices()
      requires Valid()
      modifies this`numSlices
      ensures Valid()
      ensures numSlices == if old(numSlices) < MaxNumSlices then old(numSlices) + 1 else old(numSlices)
    {
      if numSlices < MaxNumSlices {
        numSlices := numSlices + 1;
      }
    }

    /** Key '-': one slice fewer, down to 1. */
    method DecreaseSlices()
      requires Valid()
      modifies this`numSlices
      ensures Valid()
      ensures numSlices == if old(numSlices) > 1 then old(numSlices) - 1 else old(numSlices)
    {
      if numSlices > 1 {
        numSlices := numSlices - 1;
      }
    }

    /**
      Key 'a': flip anchored editing. When it turns on with a drag object,
      snapshot that object's vertices, root the rings at the vertex nearest
      localProxy (the proxy position in the object's own frame) and switch
      the force on; otherwise switch the force off and leave the rings.
    */
    method ToggleAnchoredEditing(localProxy: Vec3)
      requires Valid()
      requires !isAnchoredEditing && dragObj != -1 ==>
        DragIndex() != -1 && |objects[DragIndex()].loader.vertices| > 0
      modifies this`isAnchoredEditing, this`renderForce, this`vertexBuffer, this`rootIndex, rings
      ensures Valid()
      ensures isAnchoredEditing == !old(isAnchoredEditing)
      ensures renderForce == (isAnchoredEditing && dragObj != -1)
      ensures renderForce ==> DragIndex() != -1
      ensures renderForce ==> vertexBuffer == objects[DragIndex()].loader.vertices
      ensures renderForce ==> IsFirstMin(Distances(localProxy, vertexBuffer), rootIndex)
      ensures renderForce ==>
        forall n :: 0 <= n < MaxNumSlices ==> rings[n] == Ring(objects[DragIndex()].loader.net, rootIndex, n)
      ensures !renderForce ==>
        vertexBuffer == old(vertexBuffer) && rootIndex == old(rootIndex) && rings[..] == old(rings[..])
    {
      isAnchoredEditing := !isAnchoredEditing;
      if isAnchoredEditing && dragObj != -1 {
        var hapticObjectIndex := IndexOfObject(dragObj);
        var loader := objects[hapticObjectIndex].loader;
        vertexBuffer := loader.vertices;
        rootIndex := FindNearestPoint(localProxy, vertexBuffer);
        BuildRings(loader.net, rootIndex, rings);
        renderForce := true;
      } else {
        renderForce := false;
      }
    }

    /**
      One pass of the tick: every member v of ring n - 1 moves by dir times
      scalar in the buffer, and the loader's vertex v is set to the new
      buffer entry.
    */
    method DisplaceRing(loader: ObjLoader, ring: set<int>, dir: Vec3, scalar: real)
      requires forall v :: v in ring ==> 0 <= v < |vertexBuffer| && v < |loader.vertices|
      modifies this`vertexBuffer, loader`vertices
      ensures |vertexBuffer| == |old(vertexBuffer)| && |loader.vertices| == |old(loader.vertices)|
      ensures forall v :: 0 <= v < |vertexBuffer| ==>
        vertexBuffer[v] == if v in ring then old(vertexBuffer[v]).Add(dir.Scale(scalar)) else old(vertexBuffer[v])
      ensures forall v :: 0 <= v < |loader.vertices| ==>
        loader.vertices[v] == if v in ring then vertexBuffer[v] else old(loader.vertices[v])
    {
      var members := ring;
      ghost var done: set<int> := {};
      while members != {}
        invariant done + members == ring && done !! members
        invariant |vertexBuffer| == |old(vertexBuffer)| && |loader.vertices| == |old(loader.vertices)|
        invariant forall v :: 0 <= v < |vertexBuffer| ==>
          vertexBuffer[v] == if v in done then old(vertexBuffer[v]).Add(dir.Scale(scalar)) else old(vertexBuffer[v])
        invariant forall v :: 0 <= v < |loader.vertices| ==>
          loader.vertices[v] == if v in done then vertexBuffer[v] else old(loader.vertices[v])
        decreases members
      {
        var v := Pick(members);
        vertexBuffer := vertexBuffer[v := vertexBuffer[v].Add(dir.Scale(scalar))];
        loader.DeformPoint(v, vertexBuffer[v]);
        members := members - {v};
        done := done + {v};
      }
    }

    /**
      The passes n = 1..numSlices of a tick: vertex v ends up moved by dir
      times its total gain, and the loader holds the moved position of every
      member of the rings in use.
    */
    method DisplaceRings(loader: ObjLoader, dir: Vec3, pow: (real, real) -> real)
      requires rings.Length == MaxNumSlices && 1 <= numSlices <= MaxNumSlices && PowPositive(pow)
      requires forall n, v :: 0 <= n < numSlices && v in rings[n] ==> 0 <= v < |vertexBuffer| && v < |loader.vertices|
      modifies this`vertexBuffer, loader`vertices
      ensures |vertexBuffer| == |old(vertexBuffer)| && |loader.vertices| == |old(loader.vertices)|
      ensures forall v :: 0 <= v < |vertexBuffer| ==>
        vertexBuffer[v] == old(vertexBuffer[v]).Add(dir.Scale(Gain(pow, numSlices, rings[..], v, numSlices)))
      ensures forall v :: 0 <= v < |loader.vertices| ==>
        loader.vertices[v] == if InRings(rings[..], v, numSlices) then vertexBuffer[v] else old(loader.vertices[v])
    {
      ghost var rs := rings[..];
      ghost var b0 := vertexBuffer;
      ghost var l0 := loader.vertices;
      for n := 1 to numSlices + 1
        invariant |vertexBuffer| == |b0| && |loader.vertices| == |l0|
        invariant forall v :: 0 <= v < |b0| ==> vertexBuffer[v] == b0[v].Add(dir.Scale(Gain(pow, numSlices, rs, v, n - 1)))
        invariant forall v :: 0 <= v < |l0| ==> loader.vertices[v] == if InRings(rs, v, n - 1) then vertexBuffer[v] else l0[v]
      {
        var scalar := Falloff(pow, numSlices, n);
        DisplaceRing(loader, rings[n - 1], dir, scalar);
        forall v | 0 <= v < |b0|
          ensures vertexBuffer[v] == b0[v].Add(dir.Scale(Gain(pow, numSlices, rs, v, n)))
        {
          if v in rs[n - 1] {
            AddScaleTwice(b0[v], dir, Gain(pow, numSlices, rs, v, n - 1), scalar);
          }
        }
        forall v | 0 <= v < |l0|
          ensures InRings(rs, v, n) <==> InRings(rs, v, n - 1) || v in rs[n - 1]
        {
          InRingsStep(rs, v, n);
        }
      }
    }

    /**
      The deformation step of anchoredSpringForceCallback. With the force on,
      the direction from the root's buffered position to target is fixed
      first; then pass n = 1..numSlices adds direction times Falloff(n) to
      every member of ring n - 1, the root included, copying each moved
      vertex into the drag object's loader. Every other vertex keeps its
      position. pow stands for the C library's pow.
    */
    method DeformTick(target: Vec3, pow: (real, real) -> real)
      requires Valid() && PowPositive(pow)
      requires renderForce ==> TickReady()
      modifies this`vertexBuffer, TickLoaders()`vertices
      ensures Valid()
      ensures !renderForce ==> vertexBuffer == old(vertexBuffer)
      ensures renderForce ==> |vertexBuffer| == |old(vertexBuffer)|
      ensures renderForce ==> forall n, v :: 1 <= n <= numSlices && v in rings[n - 1] ==>
        vertexBuffer[v] == old(vertexBuffer[v]).Add(target.Sub(old(vertexBuffer[rootIndex])).Scale(Falloff(pow, numSlices, n)))
      ensures renderForce ==> forall v :: 0 <= v < |vertexBuffer| && !InRings(rings[..], v, numSlices) ==>
        vertexBuffer[v] == old(vertexBuffer[v])
      ensures renderForce ==>
        var loader := objects[DragIndex()].loader;
        |loader.vertices| == |old(loader.vertices)| &&
        forall v :: 0 <= v < |loader.vertices| ==>
          loader.vertices[v] == if InRings(rings[..], v, numSlices) then vertexBuffer[v] else old(loader.vertices[v])
    {
      if renderForce && dragObj != -1 {
        var k := IndexOfObject(dragObj);
        var loader := objects[k].loader;
        var dir := target.Sub(vertexBuffer[rootIndex]);
        ghost var rs := rings[..];
        ghost var b0 := vertexBuffer;
        DisplaceRings(loader, dir, pow);
        forall n, v | 1 <= n <= numSlices && v in rs[n - 1]
          ensures vertexBuffer[v] == b0[v].Add(dir.Scale(Falloff(pow, numSlices, n)))
        {
          GainInRing(pow, numSlices, rs, v, n, numSlices);
        }
        forall v | 0 <= v < |b0| && !InRings(rs, v, numSlices)
          ensures vertexBuffer[v] == b0[v]
        {
          assert Gain(pow, numSlices, rs, v, numSlices) == 0.0;
        }
      }
    }

    /**
      The rings ToggleAnchoredEditing builds over a loaded mesh make every
      tick's lookups succeed: when each triangle indexes the loader's own
      vertices and the adjacency is generated from those triangles, every
      ring member starting from a root vertex is a vertex of the mesh.
    */
    lemma TickReadyFromMesh()
      requires Valid() && renderForce && DragIndex() != -1
      requires IndicesBelow(objects[DragIndex()].loader.tris, |objects[DragIndex()].loader.vertices|)
      requires objects[DragIndex()].loader.net == LinkAll(map[], objects[DragIndex()].loader.tris)
      requires vertexBuffer == objects[DragIndex()].loader.vertices
      requires 0 <= rootIndex < |vertexBuffer|
      requires forall n :: 0 <= n < MaxNumSlices ==> rings[n] == Ring(objects[DragIndex()].loader.net, rootIndex, n)
      ensures TickReady()
    {
      var l := objects[DragIndex()].loader;
      GenerateTargetsBelow(l.tris, |l.vertices|);
      forall n | 0 <= n < MaxNumSlices
        ensures forall v :: v in rings[n] ==> 0 <= v < |l.vertices|
      {
        RingMembersBelow(l.net, rootIndex, |l.vertices|, n);
      }
    }
  }

  /** Ring membership up to k grows by ring k - 1. */
  lemma InRingsStep(rs: seq<set<int>>, v: int, k: int)
    requires 1 <= k <= |rs|
    ensures InRings(rs, v, k) <==> InRings(rs, v, k - 1) || v in rs[k - 1]
  {
    if v in rs[k - 1] {
      assert 0 <= k - 1 < k && v in rs[k - 1];
    }
  }
}
