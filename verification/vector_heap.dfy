/**
 `Vector<T>` as a heap object: a nullable buffer `elem`, a logical length
 `size` and an allocated length `capacity`, with the copy, reallocation and
 value-initialization loops written out. A null buffer is the moved-from
 state. Every operation is proved to have the effect VectorModel gives it on
 the object's abstract value `Model()`. The constructors other than the move
 constructor, copy assignment, and every operation that reallocates
 (reserve, resize, push_back) are proved to leave the vector with either its
 previous buffer or a freshly allocated one.

 The element type needs a default value only so that `new T[n]` can be
 written; the contents of unwritten slots are never relied on.
 */
module VectorHeap {
  import M = VectorModel

  /** A fresh buffer of n slots, each value-initialized to init. */
  method AllocFilled<T(0)>(n: nat, init: T) returns (a: array<T>)
    ensures fresh(a) && a.Length == n
    ensures a[..] == M.Fill(n, init)
  {
    a := new T[n];
    var i := 0;
    while i < n
      invariant 0 <= i <= n
      invariant forall k :: 0 <= k < i ==> a[k] == init
    {
      a[i] := init;
      i := i + 1;
    }
  }

  /** A fresh buffer of cap slots whose first count slots are copies of src's. */
  method AllocCopy<T(0)>(src: array<T>, count: nat, cap: nat) returns (dst: array<T>)
    requires count <= src.Length && count <= cap
    ensures fresh(dst) && dst.Length == cap
    ensures dst[..count] == src[..count]
  {
    dst := new T[cap];
    var i := 0;
    while i < count
      invariant 0 <= i <= count
      invariant forall k :: 0 <= k < i ==> dst[k] == src[k]
    {
      dst[i] := src[i];
      i := i + 1;
    }
  }

  /** Value-initializes slots [lo, hi) of a to init; the other slots keep their contents. */
  method FillRange<T>(a: array<T>, lo: nat, hi: nat, init: T)
    requires lo <= hi <= a.Length
    modifies a
    ensures a[..lo] == old(a[..lo])
    ensures a[lo..hi] == M.Fill(hi - lo, init)
    ensures a[hi..] == old(a[hi..])
  {
    var i := lo;
    while i < hi
      invariant lo <= i <= hi
      invariant forall k :: 0 <= k < lo ==> a[k] == old(a[k])
      invariant forall k :: lo <= k < i ==> a[k] == init
      invariant forall k :: hi <= k < a.Length ==> a[k] == old(a[k])
    {
      a[i] := init;
      i := i + 1;
    }
  }

  class Vector<T(0)> {
    var elem: array?<T>
    var size: nat
    var capacity: nat

    /** Invariant of every vector, including a moved-from one. */
    ghost predicate Sound()
      reads this, elem
    {
      elem != null ==> size <= capacity == elem.Length
    }

    /** Invariant of a vector that owns its buffer. */
    ghost predicate Valid()
      reads this, elem
    {
      elem != null && Sound()
    }

    ghost function Model(): M.Vec<T>
      reads this, elem
      requires Sound()
    {
      if elem == null then M.MovedFrom(size, capacity) else M.Live(elem[..size], capacity)
    }

    /** `size()`: the size of the abstract value, stale on a moved-from vector. */
    function Size(): (n: nat)
      reads this, elem
      ensures Sound() ==> n == M.Size(Model())
    {
      size
    }

    /** `capacity()`: the capacity of the abstract value. */
    function Capacity(): (n: nat)
      reads this, elem
      ensures Sound() ==> n == Model().capacity
    {
      capacity
    }

    /** `Vector()`. */
    constructor Default()
      ensures Valid() && Model() == M.Empty() && fresh(elem)
    {
      elem := new T[1];
      size := 0;
      capacity := 1;
    }

    /** `Vector(n)`, with init standing for `T()`. */
    constructor WithSize(n: nat, init: T)
      ensures Valid() && Model() == M.WithSize(n, init) && fresh(elem)
    {
      if n == 0 {
        elem := new T[1];
        size := 0;
        capacity := 1;
      } else {
        size := n;
        capacity := n;
        var buffer := AllocFilled(n, init);
        elem := buffer;
      }
    }

    /**
     Copy constructor: same value, in a buffer no other vector holds. A
     moved-from source of size 0 is copied too: its null buffer is not read.
     */
    constructor Copy(a: Vector<T>)
      requires a.Sound() && (a.elem == null ==> a.size == 0)
      ensures Valid() && Model() == M.Copy(a.Model())
      ensures fresh(elem)
    {
      size := a.size;
      capacity := a.capacity;
      if a.elem == null {
        elem := new T[a.capacity];
      } else {
        var buffer := AllocCopy(a.elem, a.size, a.capacity);
        elem := buffer;
      }
    }

    /**
     Move constructor: takes a's buffer, size and capacity; a's buffer becomes
     null while its size and capacity fields stay as they were.
     */
    constructor Move(a: Vector<T>)
      requires a.Sound()
      modifies a
      ensures elem == old(a.elem) && a.elem == null
      ensures a.size == old(a.size) && a.capacity == old(a.capacity)
      ensures Sound() && a.Sound()
      ensures (Model(), a.Model()) == M.Move(old(a.Model()))
    {
      size := a.size;
      capacity := a.capacity;
      elem := a.elem;
      new;
      a.elem := null;
    }

    /**
     Copy assignment: a no-op on self-assignment; otherwise the target drops
     its buffer (which may be null) and becomes a deep copy of rhs, which may
     be a moved-from vector of size 0.
     */
    method CopyAssign(rhs: Vector<T>)
      requires Sound() && rhs.Sound()
      requires rhs.elem == null ==> rhs.size == 0 || this == rhs
      modifies this
      ensures this == rhs ==> elem == old(elem) && size == old(size) && capacity == old(capacity)
      ensures this != rhs ==> Valid() && fresh(elem) && Model() == M.Copy(old(rhs.Model()))
    {
      if this == rhs {
        return;
      }
      if rhs.elem == null {
        elem := new T[rhs.capacity];
      } else {
        elem := AllocCopy(rhs.elem, rhs.size, rhs.capacity);
      }
      size := rhs.size;
      capacity := rhs.capacity;
    }

    /**
     Move assignment: a no-op on self-move; otherwise the target takes rhs's
     buffer, size and capacity and rhs's buffer becomes null.
     */
    method MoveAssign(rhs: Vector<T>)
      requires Sound() && rhs.Sound()
      modifies this, rhs
      ensures this == rhs ==> elem == old(elem) && size == old(size) && capacity == old(capacity)
      ensures this != rhs ==> elem == old(rhs.elem) && rhs.elem == null
      ensures this != rhs ==> rhs.size == old(rhs.size) && rhs.capacity == old(rhs.capacity)
      ensures Sound() && rhs.Sound()
      ensures this != rhs ==> (Model(), rhs.Model()) == M.Move(old(rhs.Model()))
    {
      if this == rhs {
        return;
      }
      elem := rhs.elem;
      size := rhs.size;
      capacity := rhs.capacity;
      rhs.elem := null;
    }

    /**
     Read through `operator[]`. On a moved-from vector only indices at or
     above the stale size are admitted: the bounds test rejects them before
     the null buffer is touched.
     */
    method Get(i: nat) returns (r: M.Result<T>)
      requires Sound() && (elem == null ==> i >= size)
      ensures r == M.Index(Model(), i)
    {
      if i < size {
        r := M.Ok(elem[i]);
      } else {
        r := M.Err(M.OutOfRange);
      }
    }

    /** Write through the reference `operator[]` returns; nothing happens out of range. */
    method Set(i: nat, x: T) returns (r: M.Result<()>)
      requires Sound() && (elem == null ==> i >= size)
      modifies elem
      ensures Sound() && elem == old(elem)
      ensures r.Ok? <==> i < size
      ensures r.Err? ==> r.error == M.OutOfRange && Model() == old(Model())
      ensures r.Ok? ==> M.Store(old(Model()), i, x) == M.Ok(Model())
    {
      if i < size {
        elem[i] := x;
        r := M.Ok(());
      } else {
        r := M.Err(M.OutOfRange);
      }
    }

    method Reserve(c: nat)
      requires Valid()
      modifies this
      ensures Valid() && Model() == M.Reserve(old(Model()), c)
      ensures c > old(capacity) ==> fresh(elem)
      ensures c <= old(capacity) ==> elem == old(elem)
    {
      if c > capacity {
        elem := AllocCopy(elem, size, c);
        capacity := c;
      }
    }

    /** resize(n), with init standing for `T()`; below the size only the size changes. */
    method Resize(n: nat, init: T)
      requires Valid()
      modifies this, elem
      ensures Valid() && Model() == M.Resize(old(Model()), n, init)
      ensures elem == old(elem) || fresh(elem)
    {
      if size < n <= capacity {
        FillRange(elem, size, n, init);
      } else if n >= size {
        var grown := AllocCopy(elem, size, n);
        FillRange(grown, size, n, init);
        elem := grown;
        capacity := n;
      }
      size := n;
    }

    method PushBack(a: T)
      requires Valid()
      modifies this, elem
      ensures Valid() && Model() == M.PushBack(old(Model()), a)
      ensures elem == old(elem) || fresh(elem)
    {
      if capacity < size + 1 {
        Reserve(M.GrowthTarget(size));
      }
      elem[size] := a;
      size := size + 1;
    }

    /**
     pop_back: lowers the size; the buffer (null on a moved-from vector) and
     every slot in it stay as they were.
     */
    method PopBack()
      requires Sound() && size > 0
      modifies this
      ensures Sound() && Model() == M.PopBack(old(Model()))
      ensures elem == old(elem)
      ensures elem != null ==> elem[..] == old(elem[..])
    {
      size := size - 1;
    }
  }

  /**
   A copy and its source share no storage: after the copy is made, a write
   into the copy and a write into the source at the same index are each seen
   only by the vector written.
   */
  method CopiesAreIndependent<T(0)>(a: Vector<T>, i: nat, x: T, y: T) returns (b: Vector<T>)
    requires a.Valid() && i < a.size
    modifies a.elem
    ensures a.Valid() && b.Valid() && b != a && b.elem != a.elem
    ensures M.Store(old(a.Model()), i, x) == M.Ok(b.Model())
    ensures M.Store(old(a.Model()), i, y) == M.Ok(a.Model())
  {
    b := new Vector<T>.Copy(a);
    var written := b.Set(i, x);
    written := a.Set(i, y);
  }
}
