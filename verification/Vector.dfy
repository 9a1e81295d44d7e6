/** The growable vector that tables keep their row heights, column widths and row flags in. */
module Vectors {
  import opened Integers

  /** The block may be longer than the vector: a pop does not give memory back. */
  class Vector<T(0)> {
    var arr: array<T>
    var len: nat

    ghost predicate Valid()
      reads this
    {
      len <= arr.Length
    }

    ghost function Contents(): (s: seq<T>)
      requires Valid()
      reads this, arr
      ensures |s| == len
    {
      arr[..len]
    }

    constructor ()
      ensures Valid() && fresh(arr) && Contents() == []
    {
      arr := new T[0];
      len := 0;
    }

    /** Enlarges or shrinks; what is new is not initialised. */
    method Resize(count: nat)
      requires Valid()
      modifies this
      ensures Valid() && len == count
      ensures Contents()[..Min(old(len), count)] == old(Contents())[..Min(old(len), count)]
      ensures if count == old(len) then arr == old(arr) else fresh(arr)
    {
      if count != len {
        var bigger := new T[count];
        var n := Min(len, count);
        forall i | 0 <= i < n {
          bigger[i] := arr[i];
        }
        arr := bigger;
        len := count;
      }
    }

    method PopBack() returns (x: T)
      requires Valid() && len > 0
      modifies `len
      ensures Valid() && old(Contents()) == Contents() + [x]
    {
      x := arr[len - 1];
      len := len - 1;
    }

    method PushBack(x: T)
      requires Valid()
      modifies this, arr
      ensures Valid() && fresh(arr) && Contents() == old(Contents()) + [x]
    {
      var n := len;
      Resize(len + 1);
      arr[n] := x;
      assert Contents()[..n] == old(Contents());
    }

    function At(x: int): T
      requires Valid() && 0 <= x < len
      reads this, arr
    {
      arr[x]
    }

    method Put(x: int, v: T)
      requires Valid() && 0 <= x < len
      modifies arr
      ensures Contents() == old(Contents())[x := v]
    {
      arr[x] := v;
    }

    function Back(): T
      requires Valid() && len > 0
      reads this, arr
    {
      arr[len - 1]
    }

    /** Assignment empties this vector first, so a vector assigned to itself loses everything. */
    method Assign(o: Vector<T>)
      requires Valid() && o.Valid()
      modifies this
      ensures Valid() && fresh(arr)
      ensures Contents() == if o == this then [] else old(o.Contents())
    {
      arr := new T[0];
      len := 0;
      var newArr, newSize := o.arr, o.len;
      var copy := new T[newSize];
      forall i | 0 <= i < newSize {
        copy[i] := newArr[i];
      }
      arr, len := copy, newSize;
    }
  }
}
