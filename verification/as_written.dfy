/**
 The three code paths of `Vector<T>` whose behaviour as written differs from
 the container's evident design, modelled literally, each with a concrete
 input that exhibits the difference and a lemma stating where the literal
 code and the VectorModel definition agree.

 - `pop_back` decrements a 64-bit `size_t` without a guard.
 - `resize` to a smaller size reallocates a buffer of the new size and then
   copies the old, larger number of elements into it.
 - `push_back` grows to `2 * size`, which is zero slots for an empty vector;
   an empty vector with capacity zero (which `resize(0)` produces) is then
   written one slot past its buffer.
 */
module AsWritten {
  import opened VectorModel

  /** The largest value of a 64-bit `size_t`. */
  const SizeMax: nat := 0xFFFF_FFFF_FFFF_FFFF

  /** The `--_size` of pop_back: a decrement modulo 2^64. */
  function DecrementSize(size: nat): (r: nat)
    requires size <= SizeMax
    ensures r <= SizeMax
    ensures (r + 1) % (SizeMax + 1) == size
  {
    (size + SizeMax) % (SizeMax + 1)
  }

  /**
   On a non-empty vector, owning or moved-from, the literal decrement is the
   model's pop_back.
   */
  lemma PopBackAsWrittenAgrees<T>(v: Vec<T>)
    requires Sound(v) && 0 < Size(v) <= SizeMax
    ensures DecrementSize(Size(v)) == Size(PopBack(v))
  {
  }

  /**
   pop_back on a default vector sets the size to 2^64 - 1, far beyond the
   single allocated slot, so every later bounds check admits indices into
   unallocated memory.
   */
  lemma PopBackOnEmptyUnderflows<T>()
    ensures DecrementSize(Size(Empty<T>())) == SizeMax
    ensures DecrementSize(Size(Empty<T>())) > Empty<T>().capacity
  {
  }

  /**
   The copy loop of the reallocating branch of resize: stores src[i..count)
   into slots i..count of dst one by one. A store at an index that is not a
   slot of dst is an out-of-bounds write, reported at the first such index.
   */
  function CopyLoop<T>(src: seq<T>, dst: seq<T>, i: nat, count: nat): (r: Result<seq<T>>)
    requires i <= count <= |src| && i <= |dst|
    ensures r.Ok? <==> count <= |dst|
    ensures r.Ok? ==> r.value == dst[..i] + src[i..count] + dst[count..]
    ensures r.Err? ==> r.error == OutOfBoundsWrite(|dst|, |dst|)
    decreases count - i
  {
    if i == count then Ok(dst)
    else if i == |dst| then Err(OutOfBoundsWrite(i, |dst|))
    else
      var r := CopyLoop(src, dst[i := src[i]], i + 1, count);
      assert r.Ok? ==> r.value == dst[..i] + src[i..count] + dst[count..] by {
        if r.Ok? {
          var d := dst[i := src[i]];
          assert d[..i + 1] == dst[..i] + [src[i]];
          assert d[count..] == dst[count..];
          assert [src[i]] + src[i + 1..count] == src[i..count];
        }
      }
      r
  }

  /**
   resize exactly as written: in place when growing within the capacity,
   otherwise a fresh buffer of `n` slots into which all current elements are
   copied and whose remaining slots are value-initialized. The initial
   contents of the fresh buffer are never observed (each slot the result
   exposes is stored first), so they are taken to be `init`.
   */
  function ResizeAsWritten<T>(v: Vec<T>, n: nat, init: T): (r: Result<Vec<T>>)
    requires Valid(v)
    ensures r.Err? <==> n < Size(v)
    ensures r.Err? ==> r.error == OutOfBoundsWrite(n, n)
  {
    var s := |v.elems|;
    if s < n && n <= v.capacity then
      Ok(Live(v.elems + Fill(n - s, init), v.capacity))
    else
      match CopyLoop(v.elems, Fill(n, init), 0, s)
      case Err(e) => Err(e)
      case Ok(buf) => Ok(Live(buf[..s] + Fill(n - s, init), n))
  }

  /** For every size not below the current one, literal and model resize agree. */
  lemma ResizeAsWrittenAgrees<T>(v: Vec<T>, n: nat, init: T)
    requires Valid(v) && Size(v) <= n
    ensures ResizeAsWritten(v, n, init) == Ok(Resize(v, n, init))
  {
    var s := |v.elems|;
    if !(s < n && n <= v.capacity) {
      var c := CopyLoop(v.elems, Fill(n, init), 0, s);
      assert c.value[..s] == v.elems;
    }
  }

  /**
   Shrinking a two-element vector to one element: the literal code stores
   element 1 into a one-slot buffer; the model keeps the buffer and the
   first element.
   */
  lemma ResizeShrinkWritesOutOfBounds<T>(init: T)
    ensures ResizeAsWritten(WithSize(2, init), 1, init) == Err(OutOfBoundsWrite(1, 1))
    ensures Resize(WithSize(2, init), 1, init) == Live([init], 2)
  {
  }

  /** push_back exactly as written: reserve(2 * size) when full, then store at index size. */
  function PushBackAsWritten<T>(v: Vec<T>, a: T): (r: Result<Vec<T>>)
    requires Valid(v)
    ensures r.Err? <==> v.capacity == 0
    ensures r.Err? ==> r.error == OutOfBoundsWrite(0, 0)
  {
    var s := |v.elems|;
    var w := if v.capacity < s + 1 then Reserve(v, 2 * s) else v;
    if s < w.capacity then Ok(Live(w.elems + [a], w.capacity))
    else Err(OutOfBoundsWrite(s, w.capacity))
  }

  /** With at least one allocated slot, literal and model push_back agree. */
  lemma PushBackAsWrittenAgrees<T>(v: Vec<T>, a: T)
    requires Valid(v) && v.capacity >= 1
    ensures PushBackAsWritten(v, a) == Ok(PushBack(v, a))
  {
  }

  /**
   resize(0) on a default vector leaves capacity zero; the literal push_back
   then requests zero slots and stores one slot past the buffer, while the
   model's push_back allocates one slot.
   */
  lemma PushBackAfterResizeZeroWritesOutOfBounds<T>(init: T, a: T)
    ensures ResizeAsWritten(Empty<T>(), 0, init) == Ok(Live([], 0))
    ensures PushBackAsWritten(Live([], 0), a) == Err(OutOfBoundsWrite(0, 0))
    ensures PushBack(Resize(Empty<T>(), 0, init), a) == Live([a], 1)
  {
  }
}
