/** The strided three-component array base class `XYZ<T>`. */
module StridedArrays {

  class XYZ<T> {
    /** `sizeof(T)`: the byte size of one element, fixed by the element type. */
    const elemSize: int
    /** Number of entries. */
    var n: int
    /** Stride between the x, y and z parts. */
    var stride: int
    /** Allocated length of the buffer. */
    var size: int
    /** The buffer; `null` until allocated. */
    var data: array?<T>

    /** The default constructor: an empty, unallocated array. */
    constructor (elemSize: int)
      ensures this.elemSize == elemSize
      ensures n == 0 && stride == 0 && size == 0 && data == null
    {
      this.elemSize := elemSize;
      n := 0;
      stride := 0;
      size := 0;
      data := null;
    }

    /** `match` (both the reference and the pointer overload): equal element sizes, entry
        counts and strides. The buffer and its allocated size play no part. */
    predicate Match<P>(xyz: XYZ<P>)
      reads this, xyz
    {
      elemSize == xyz.elemSize && n == xyz.n && stride == xyz.stride
    }

    /** `swap`: exchanges the buffers and their allocated sizes of two matching arrays;
        the logical shape (`n`, `stride`) of both stays as it was. */
    method Swap(xyz: XYZ<T>)
      requires Match(xyz)
      modifies this, xyz
      ensures data == old(xyz.data) && xyz.data == old(data)
      ensures size == old(xyz.size) && xyz.size == old(size)
      ensures n == old(n) && stride == old(stride)
      ensures xyz.n == old(xyz.n) && xyz.stride == old(xyz.stride)
      ensures Match(xyz)
    {
      var p := data;
      data := xyz.data;
      xyz.data := p;

      var t := size;
      size := xyz.size;
      xyz.size := t;
    }
  }

  /** Every array matches itself. */
  lemma MatchReflexive<T>(a: XYZ<T>)
    ensures a.Match(a)
  {
  }

  /** `match` does not depend on the order of its operands. */
  lemma MatchSymmetric<T, P>(a: XYZ<T>, b: XYZ<P>)
    ensures a.Match(b) <==> b.Match(a)
  {
  }

  /** Arrays matching a common third array match each other. */
  lemma MatchTransitive<T, P, Q>(a: XYZ<T>, b: XYZ<P>, c: XYZ<Q>)
    requires a.Match(b) && b.Match(c)
    ensures a.Match(c)
  {
  }

  /** Swapping twice restores both arrays completely. */
  method SwapTwiceRestores<T>(a: XYZ<T>, b: XYZ<T>)
    requires a.Match(b)
    modifies a, b
    ensures a.data == old(a.data) && a.size == old(a.size)
    ensures b.data == old(b.data) && b.size == old(b.size)
    ensures a.n == old(a.n) && a.stride == old(a.stride)
    ensures b.n == old(b.n) && b.stride == old(b.stride)
  {
    a.Swap(b);
    a.Swap(b);
  }
}
