/**
 The demonstration driver's sequence on heap vectors of int: construct
 vec1(4) and a default vec2, copy-assign vec1 to vec2, push_back(999) onto
 vec1, then pop_back. Console output is replaced by returned observations.
 */
module Demo {
  import M = VectorModel
  import VectorHeap

  /**
   Returns (size, capacity) after each of the five steps, the element at
   index 4 right after the push, and both vectors' elements at the end.
   vec2 keeps its copy although vec1 is reallocated and written afterwards.
   */
  method Scenario() returns (trace: seq<(nat, nat)>, pushed: M.Result<int>, vec1: seq<int>, vec2: seq<int>)
    ensures trace == [(4, 4), (0, 1), (4, 4), (5, 8), (4, 8)]
    ensures pushed == M.Ok(999)
    ensures vec1 == [0, 0, 0, 0] && vec2 == [0, 0, 0, 0]
  {
    var v1 := new VectorHeap.Vector<int>.WithSize(4, 0);
    trace := [(v1.Size(), v1.Capacity())];
    var v2 := new VectorHeap.Vector<int>.Default();
    trace := trace + [(v2.Size(), v2.Capacity())];
    v2.CopyAssign(v1);
    trace := trace + [(v2.Size(), v2.Capacity())];
    v1.PushBack(999);
    trace := trace + [(v1.Size(), v1.Capacity())];
    pushed := v1.Get(4);
    v1.PopBack();
    trace := trace + [(v1.Size(), v1.Capacity())];
    vec1 := v1.elem[..v1.size];
    vec2 := v2.elem[..v2.size];
  }
}
