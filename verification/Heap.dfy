/**
  The C heap and the open files as the staging code uses them: every block is
  an object, and the heap remembers which blocks and files have been handed out
  and not yet given back.  Giving back what is not live cannot be written.
 */
module Heap {

  /** A block of bytes or characters. */
  class Buffer<T> {
    var data: seq<T>

    constructor (data: seq<T>)
      ensures this.data == data
    {
      this.data := data;
    }
  }

  /** An open stream over a file's contents. */
  class Stream<T> {
    const content: seq<T>

    constructor (content: seq<T>)
      ensures this.content == content
    {
      this.content := content;
    }
  }

  class Heap {
    ghost var live: set<object>
    ghost var open: set<object>

    constructor ()
      ensures live == {} && open == {}
    {
      live, open := {}, {};
    }

    /** malloc of a block that is filled at once; ok is the allocator's verdict. */
    method Alloc<T>(data: seq<T>, ok: bool) returns (p: Buffer?<T>)
      modifies this
      ensures p != null <==> ok
      ensures p != null ==> fresh(p) && p.data == data
      ensures live == old(live) + (if p == null then {} else {p}) && open == old(open)
    {
      p := null;
      if ok {
        p := new Buffer(data);
        live := live + {p};
      }
    }

    /** calloc of n copies of the zero element. */
    method Calloc<T>(n: nat, zero: T, ok: bool) returns (p: array?<T>)
      modifies this
      ensures p != null <==> ok
      ensures p != null ==> fresh(p) && p.Length == n && forall i :: 0 <= i < n ==> p[i] == zero
      ensures live == old(live) + (if p == null then {} else {p}) && open == old(open)
    {
      p := null;
      if ok {
        p := new T[n](_ => zero);
        live := live + {p};
      }
    }

    method Free(p: object?)
      requires p != null ==> p in live
      modifies this
      ensures live == old(live) - (if p == null then {} else {p}) && open == old(open)
    {
      if p != null {
        live := live - {p};
      }
    }

    method Open<T>(content: seq<T>) returns (f: Stream<T>)
      modifies this
      ensures fresh(f) && f.content == content
      ensures live == old(live) && open == old(open) + {f}
    {
      f := new Stream(content);
      open := open + {f};
    }

    method Close(f: object)
      requires f in open
      modifies this
      ensures live == old(live) && open == old(open) - {f}
    {
      open := open - {f};
    }
  }
}
