/**
 Value-level semantics of the dynamic array `Vector<T>`.

 A vector value records what a caller can observe: the live elements
 (indices [0, size)) and the number of allocated slots. Slots
 [size, capacity) of the buffer are not part of the value: no operation
 lets a caller read one before it has been overwritten (push_back and
 resize write them first), so their contents are irrelevant.

 The value `T()` that the container writes when it value-initializes a slot
 is the explicit parameter `init` of the operations that write it.
 */
module VectorModel {

  /** The failures the container can produce. */
  datatype Error =
    | OutOfRange                                 // operator[] with an index >= size
    | OutOfBoundsWrite(index: nat, length: nat)  // a store past the end of a buffer

  datatype Result<+R> = Ok(value: R) | Err(error: Error)

  /**
   A vector. `Live` owns a buffer of `capacity` slots whose first |elems|
   slots hold the elements. `MovedFrom` is a vector whose buffer was taken
   by a move: its buffer is null, but its size and capacity fields keep the
   values they had.
   */
  datatype Vec<T> =
    | Live(elems: seq<T>, capacity: nat)
    | MovedFrom(size: nat, capacity: nat)

  /** `size()`: the logical length; a moved-from vector reports its stale field. */
  function Size<T>(v: Vec<T>): (n: nat)
    ensures Valid(v) ==> n <= v.capacity
    ensures v.MovedFrom? ==> n == v.size
  {
    if v.Live? then |v.elems| else v.size
  }

  /** Class invariant of a vector that owns its buffer: size <= capacity. */
  predicate Valid<T>(v: Vec<T>)
  {
    v.Live? && |v.elems| <= v.capacity
  }

  /**
   A vector some operation may be applied to: an owning vector that keeps
   its invariant, or a moved-from one (whose fields are merely stale).
   */
  predicate Sound<T>(v: Vec<T>)
  {
    v.MovedFrom? || Valid(v)
  }

  /**
   Index i of v can be given to `operator[]` without reading a null buffer:
   v owns its buffer, or v is moved-from and i is not below its stale size,
   so the bounds test fails before the buffer is touched.
   */
  predicate Indexable<T>(v: Vec<T>, i: nat)
  {
    Sound(v) && (v.MovedFrom? ==> i >= v.size)
  }

  function Fill<T>(n: nat, x: T): (r: seq<T>)
    ensures |r| == n
    ensures forall i :: 0 <= i < n ==> r[i] == x
  {
    seq(n, _ => x)
  }

  function Max(a: nat, b: nat): nat
  {
    if a < b then b else a
  }

  // ---------------------------------------------------------------------
  // Construction
  // ---------------------------------------------------------------------

  /** `Vector()`: empty, with a single allocated slot. */
  function Empty<T>(): (r: Vec<T>)
    ensures Valid(r) && Size(r) == 0 && r.capacity == 1
  {
    Live([], 1)
  }

  /**
   `Vector(n)`: n value-initialized elements in a buffer of exactly n slots;
   `Vector(0)` is the default vector.
   */
  function WithSize<T>(n: nat, init: T): (r: Vec<T>)
    ensures Valid(r) && Size(r) == n
    ensures r.capacity == Max(n, 1)
    ensures forall i :: 0 <= i < n ==> Index(r, i) == Ok(init)
  {
    if n == 0 then Live([], 1) else Live(Fill(n, init), n)
  }

  lemma SizedZeroIsDefault<T>(init: T)
    ensures WithSize(0, init) == Empty<T>()
  {
  }

  // ---------------------------------------------------------------------
  // Copy and move
  // ---------------------------------------------------------------------

  /**
   A vector the copy loop can read: one that owns its buffer, or a
   moved-from one of size 0, whose null buffer the loop never touches.
   */
  predicate Copyable<T>(a: Vec<T>)
  {
    Valid(a) || (a.MovedFrom? && a.size == 0)
  }

  /**
   Deep copy, as done by the copy constructor and by copy assignment (whose
   target's previous buffer is released first, so the target's old value
   plays no part in the result): a new owning vector with the same size, the
   same capacity and equal elements.
   */
  function Copy<T>(a: Vec<T>): (r: Vec<T>)
    requires Copyable(a)
    ensures Valid(r) && Size(r) == Size(a) && r.capacity == a.capacity
    ensures forall i: nat :: Index(r, i) == Index(a, i)
  {
    Live(if a.Live? then a.elems else [], a.capacity)
  }

  /**
   Move construction and move assignment between two distinct vectors:
   returns the destination and what is left of the source. The destination
   takes the buffer, size and capacity; the source loses its buffer but keeps
   its size and capacity fields.
   */
  function Move<T>(src: Vec<T>): (r: (Vec<T>, Vec<T>))
    ensures Size(r.0) == Size(src) && r.0.capacity == src.capacity
    ensures Valid(src) ==> Valid(r.0) && forall i: nat :: Index(r.0, i) == Index(src, i)
    ensures src.MovedFrom? ==> r.0.MovedFrom?
    ensures !Valid(r.1) && r.1.MovedFrom?
    ensures Size(r.1) == Size(src) && r.1.capacity == src.capacity
  {
    (src, MovedFrom(Size(src), src.capacity))
  }

  /**
   The destination of a move cannot be told apart from a deep copy. At the
   level of values both are the identity on an owning vector; the difference
   (a shared versus a fresh buffer) is stated in VectorHeap.
   */
  lemma MoveDestinationIsCopy<T>(src: Vec<T>)
    requires Valid(src)
    ensures Move(src).0 == Copy(src)
  {
  }

  /**
   The value a copy produces from an owning vector is that vector, so copying
   a vector's value onto itself changes nothing. The `this == &rhs`
   short-circuit of copy assignment is object identity, stated by
   VectorHeap.Vector.CopyAssign.
   */
  lemma CopySelfIsIdentity<T>(v: Vec<T>)
    requires Valid(v)
    ensures Copy(v) == v
  {
  }

  /**
   A moved-from vector can be revived by assignment: moving a vector out and
   moving it back restores it, and leaves the intermediate holder moved-from.
   This follows from the destination being the source's value; the self-move
   short-circuit is stated by VectorHeap.Vector.MoveAssign.
   */
  lemma MoveThereAndBack<T>(v: Vec<T>)
    requires Valid(v)
    ensures Move(Move(v).0).0 == v
    ensures Move(Move(v).0).1 == MovedFrom(Size(v), v.capacity)
  {
  }

  // ---------------------------------------------------------------------
  // Element access
  // ---------------------------------------------------------------------

  /**
   `operator[]` read: element i when i < size, else an out-of-range error;
   on a moved-from vector the bounds test against the stale size fails.
   */
  function Index<T>(v: Vec<T>, i: nat): (r: Result<T>)
    requires Indexable(v, i)
    ensures r.Ok? <==> i < Size(v)
    ensures r.Ok? ==> v.Live? && r.value == v.elems[i]
    ensures r.Err? ==> r.error == OutOfRange
  {
    if v.Live? && i < |v.elems| then Ok(v.elems[i]) else Err(OutOfRange)
  }

  /**
   A write through the reference `operator[]` returns: slot i takes x and
   nothing else changes; an index >= size is an out-of-range error.
   */
  function Store<T>(v: Vec<T>, i: nat, x: T): (r: Result<Vec<T>>)
    requires Indexable(v, i)
    ensures r.Ok? <==> i < Size(v)
    ensures r.Err? ==> r.error == OutOfRange
    ensures r.Ok? ==> Valid(v)
    ensures r.Ok? ==> Valid(r.value) && Size(r.value) == Size(v) && r.value.capacity == v.capacity
    ensures r.Ok? ==> Index(r.value, i) == Ok(x)
    ensures r.Ok? ==> forall j: nat :: j != i ==> Index(r.value, j) == Index(v, j)
  {
    if v.Live? && i < |v.elems| then Ok(Live(v.elems[i := x], v.capacity)) else Err(OutOfRange)
  }

  /** Writing back the value just read changes nothing. */
  lemma StoreWhatWasRead<T>(v: Vec<T>, i: nat)
    requires Valid(v) && i < Size(v)
    ensures Store(v, i, Index(v, i).value) == Ok(v)
  {
    assert v.elems[i := v.elems[i]] == v.elems;
  }

  /** Of two writes to the same slot, the second wins. */
  lemma StoreTwice<T>(v: Vec<T>, i: nat, x: T, y: T)
    requires Valid(v) && i < Size(v)
    ensures Store(Store(v, i, x).value, i, y) == Store(v, i, y)
  {
    assert v.elems[i := x][i := y] == v.elems[i := y];
  }

  // ---------------------------------------------------------------------
  // reserve / resize
  // ---------------------------------------------------------------------

  /**
   `reserve(c)`: grows the buffer to exactly c slots when c exceeds the
   capacity, keeping the elements; otherwise nothing changes.
   */
  function Reserve<T>(v: Vec<T>, c: nat): (r: Vec<T>)
    requires Valid(v)
    ensures Valid(r) && r.elems == v.elems
    ensures r.capacity == Max(c, v.capacity)
    ensures c <= v.capacity ==> r == v
  {
    if c > v.capacity then Live(v.elems, c) else v
  }

  /** Reserving the same amount twice is the same as reserving it once. */
  lemma ReserveIdempotent<T>(v: Vec<T>, c: nat)
    requires Valid(v)
    ensures Reserve(Reserve(v, c), c) == Reserve(v, c)
  {
  }

  /** Two reservations amount to one reservation of the larger amount. */
  lemma ReserveComposes<T>(v: Vec<T>, a: nat, b: nat)
    requires Valid(v)
    ensures Reserve(Reserve(v, a), b) == Reserve(v, Max(a, b))
  {
  }

  /**
   `resize(n)`. Growing within the capacity value-initializes the new slots
   in place; any other growth (and a resize to the current size) moves the
   elements into a buffer of exactly n slots. A resize below the current
   size only lowers the size and keeps the buffer (the code as written
   writes out of bounds there instead; see AsWritten).
   */
  function Resize<T>(v: Vec<T>, n: nat, init: T): (r: Vec<T>)
    requires Valid(v)
    ensures Valid(r) && Size(r) == n
    ensures forall i: nat :: i < n ==> Index(r, i) == if i < Size(v) then Index(v, i) else Ok(init)
    ensures n < Size(v) ==> r.capacity == v.capacity
    ensures Size(v) < n <= v.capacity ==> r.capacity == v.capacity
    ensures Size(v) <= n && !(Size(v) < n <= v.capacity) ==> r.capacity == n
  {
    var s := |v.elems|;
    if s < n <= v.capacity then Live(v.elems + Fill(n - s, init), v.capacity)
    else if n < s then Live(v.elems[..n], v.capacity)
    else Live(v.elems + Fill(n - s, init), n)
  }

  /** Growing and then resizing back to the old size restores the elements. */
  lemma ResizeBack<T>(v: Vec<T>, n: nat, init: T, init': T)
    requires Valid(v) && Size(v) <= n
    ensures Resize(Resize(v, n, init), Size(v), init').elems == v.elems
  {
  }

  // ---------------------------------------------------------------------
  // push_back / pop_back
  // ---------------------------------------------------------------------

  /**
   New capacity requested by push_back on a full vector: twice the size,
   and one slot when the vector is empty (the code as written requests
   2 * 0 = 0 slots there; see AsWritten).
   */
  function GrowthTarget(size: nat): (c: nat)
    ensures c >= size + 1
  {
    if size == 0 then 1 else 2 * size
  }

  /**
   `push_back(a)`: a becomes the last element. The buffer is kept while it
   has room; otherwise it is reallocated to exactly twice the old size.
   */
  function PushBack<T>(v: Vec<T>, a: T): (r: Vec<T>)
    requires Valid(v)
    ensures Valid(r) && r.elems == v.elems + [a]
    ensures v.capacity >= Size(v) + 1 ==> r.capacity == v.capacity
    ensures v.capacity < Size(v) + 1 ==> r.capacity == GrowthTarget(Size(v))
  {
    var w := if v.capacity < |v.elems| + 1 then Reserve(v, GrowthTarget(|v.elems|)) else v;
    Live(w.elems + [a], w.capacity)
  }

  /**
   `pop_back()`: lowers the size by one and keeps the capacity. An owning
   vector drops its last element; a moved-from one only decrements its
   stale size field, since nothing is read.
   */
  function PopBack<T>(v: Vec<T>): (r: Vec<T>)
    requires Sound(v) && Size(v) > 0
    ensures Size(r) == Size(v) - 1 && r.capacity == v.capacity
    ensures Valid(r) <==> Valid(v)
    ensures r.MovedFrom? <==> v.MovedFrom?
    ensures Valid(v) ==> forall i: nat :: i < Size(r) ==> Index(r, i) == Index(v, i)
  {
    if v.Live? then Live(v.elems[..|v.elems| - 1], v.capacity) else MovedFrom(v.size - 1, v.capacity)
  }

  /** pop_back undoes push_back on the elements (the capacity may have grown). */
  lemma PopUndoesPush<T>(v: Vec<T>, a: T)
    requires Valid(v)
    ensures Index(PushBack(v, a), Size(v)) == Ok(a)
    ensures PopBack(PushBack(v, a)).elems == v.elems
  {
  }

  /** push_back of the element pop_back removed restores the vector exactly. */
  lemma PushUndoesPop<T>(v: Vec<T>)
    requires Valid(v) && Size(v) > 0
    ensures PushBack(PopBack(v), v.elems[Size(v) - 1]) == v
  {
  }

  /**
   The capacity a vector of capacity c reaches once it must hold n elements
   under push_back: c while n fits, otherwise repeated growth steps, each
   taken when the vector is full (so its size equals its capacity).
   */
  function GrownCapacity(c: nat, n: nat): (r: nat)
    ensures r >= c && r >= n
    ensures n <= c ==> r == c
    decreases n - c
  {
    if n <= c then c else GrownCapacity(GrowthTarget(c), n)
  }

  /**
   A sequence of push_back calls, first element first. The final capacity
   is given in closed form from any starting vector.
   */
  function PushAll<T>(v: Vec<T>, xs: seq<T>): (r: Vec<T>)
    requires Valid(v)
    ensures Valid(r) && r.elems == v.elems + xs
    ensures r.capacity >= v.capacity
    ensures r.capacity == GrownCapacity(v.capacity, Size(v) + |xs|)
    decreases |xs|
  {
    if xs == [] then v
    else
      var w := PushAll(PushBack(v, xs[0]), xs[1..]);
      assert v.elems + [xs[0]] + xs[1..] == v.elems + xs;
      w
  }

  /**
   Growing by resize gives the same elements as pushing the same number of
   value-initialized elements one at a time.
   */
  lemma ResizeIsRepeatedPush<T>(v: Vec<T>, k: nat, init: T)
    requires Valid(v)
    ensures Resize(v, Size(v) + k, init).elems == PushAll(v, Fill(k, init)).elems
  {
  }

  // ---------------------------------------------------------------------
  // Doubling growth
  // ---------------------------------------------------------------------

  ghost predicate IsPow2(c: nat)
    decreases c
  {
    c == 1 || (c >= 2 && c % 2 == 0 && IsPow2(c / 2))
  }

  /**
   The capacity is the least power of two that holds the elements and is at
   least one.
   */
  ghost predicate TightPow2<T>(v: Vec<T>)
  {
    Valid(v) && IsPow2(v.capacity) && (v.capacity == 1 || v.capacity / 2 < Size(v))
  }

  /** Each push_back keeps the capacity the least power of two above the size. */
  lemma PushBackKeepsTight<T>(v: Vec<T>, a: T)
    requires TightPow2(v)
    ensures TightPow2(PushBack(v, a))
  {
  }

  /**
   Starting from a default vector, any sequence of push_back calls leaves a
   capacity equal to the least power of two that holds the elements.
   */
  lemma {:induction false} PushAllKeepsTight<T>(v: Vec<T>, xs: seq<T>)
    requires TightPow2(v)
    ensures TightPow2(PushAll(v, xs))
    decreases |xs|
  {
    if xs != [] {
      PushBackKeepsTight(v, xs[0]);
      PushAllKeepsTight(PushBack(v, xs[0]), xs[1..]);
    }
  }

  lemma PushesFromEmptyAreTight<T>(xs: seq<T>)
    ensures TightPow2(PushAll(Empty<T>(), xs))
  {
    assert IsPow2(1);
    PushAllKeepsTight(Empty<T>(), xs);
  }
}
