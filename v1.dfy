/**
 * `v1::string` of the demo program: a heap-only string whose `_data` is null exactly while its
 * capacity is 0. Growth goes through `reserve_impl`, which either copies the content into the new
 * buffer (`reserve`) or leaves the new buffer for its caller to fill (`reserve_no_copy`), and
 * `append` asks `next_capacity` (Growth.NextCapacity) for a bounded doubling.
 */
module V1 {
  import opened CharBuffers
  import Growth

  class String {
    /** _data: null while the capacity is 0, otherwise `capacity + 1` characters */
    var data: array?<char>
    /** _size */
    var size: nat
    /** _capacity */
    var capacity: nat

    /** The fields agree with each other; the buffer's content is not constrained. */
    ghost predicate Shape()
      reads this
    {
      (data == null <==> capacity == 0) &&
      (data == null ==> size == 0) &&
      (data != null ==> data.Length == capacity + 1 && size <= capacity)
    }

    ghost predicate Valid()
      reads this, data
    {
      Shape() && (data != null ==> data[size] == '\0')
    }

    /** The characters before the terminator; none for a null buffer. */
    function Contents(): seq<char>
      reads this, data
      requires Shape()
    {
      if data == null then [] else data[..size]
    }

    /** The storage this string owns. */
    ghost function Repr(): set<object>
      reads this
    {
      {this} + if data == null then {} else {data}
    }

    /** c_str(): the buffer, or the empty C string "" when it is null. */
    function CStr(): (s: seq<char>)
      reads this, data
      requires Valid()
      ensures s == Contents() + ['\0']
      ensures data == null ==> s == ['\0']
    {
      if data == null then ['\0'] else data[..size + 1]
    }

    // ------------------------------------------------------------------------------------------
    // Capacity

    /**
     * reserve_impl<copyData>(newCapacity): nothing happens when the capacity already reaches
     * newCapacity; otherwise the buffer is replaced by one of capacity exactly newCapacity, which
     * receives the content and terminator only when copyData is set (an empty string gets just a
     * terminator).
     */
    method ReserveImpl(copyData: bool, newCapacity: nat)
      requires Valid()
      modifies this
      ensures Shape() && size == old(size)
      ensures newCapacity <= old(capacity) ==> capacity == old(capacity) && data == old(data) && Valid()
      ensures newCapacity > old(capacity) ==> capacity == newCapacity && fresh(data)
      ensures copyData ==> Valid() && Contents() == old(Contents())
    {
      if capacity >= newCapacity {
        return;
      }
      var newData := new char[newCapacity + 1];
      if copyData {
        if size > 0 {
          Copy(data, 0, newData, 0, size + 1);
          assert newData[..size + 1][size] == '\0';
          assert newData[..size] == newData[..size + 1][..size];
        } else {
          newData[0] := '\0';
        }
      }
      data := newData;
      capacity := newCapacity;
    }

    /** reserve(newCapacity): reserve_impl with copying. */
    method Reserve(newCapacity: nat)
      requires Valid()
      modifies this
      ensures Valid() && Contents() == old(Contents())
      ensures newCapacity <= old(capacity) ==> capacity == old(capacity) && data == old(data)
      ensures newCapacity > old(capacity) ==> capacity == newCapacity && fresh(data)
    {
      ReserveImpl(true, newCapacity);
    }

    // ------------------------------------------------------------------------------------------
    // Construction, copy and move

    /** Default construction: null, size 0, capacity 0. */
    constructor ()
      ensures Valid() && data == null && size == 0 && capacity == 0
    {
      data := null;
      size := 0;
      capacity := 0;
    }

    /**
     * Construction from a C string: a null pointer gives the empty string; otherwise
     * reserve_no_copy(strlen) and a copy of the characters and the terminator. The empty string ""
     * is excluded: its terminator would be copied to the null buffer.
     */
    constructor FromCString(str: Option<seq<char>>)
      requires str.Some? ==> NoZero(str.value) && |str.value| > 0
      ensures Valid()
      ensures str.None? ==> data == null && size == 0 && capacity == 0
      ensures str.Some? ==> Contents() == str.value && capacity == |str.value| && fresh(data)
    {
      data := null;
      size := 0;
      capacity := 0;
      new;
      if str.Some? {
        var count := |str.value|;
        ReserveImpl(false, count);
        CopySeq(str.value + ['\0'], data, 0);
        size := count;
        assert data[..size + 1][size] == '\0';
        assert data[..size] == data[..size + 1][..size];
      }
    }

    /** Copy construction: a default string copy-assigned from the other. */
    constructor Copied(other: String)
      requires other.Valid()
      ensures Valid() && Contents() == other.Contents()
      ensures capacity == other.size && (other.size > 0 ==> fresh(data))
    {
      data := null;
      size := 0;
      capacity := 0;
      new;
      CopyAssign(other);
    }

    /**
     * "Move" construction: its body assigns the named (hence lvalue) source, which selects the copy
     * assignment, so the source keeps its content and this string gets a copy.
     */
    constructor Moved(other: String)
      requires other.Valid()
      ensures Valid() && Contents() == other.Contents()
      ensures capacity == other.size && (other.size > 0 ==> fresh(data))
    {
      data := null;
      size := 0;
      capacity := 0;
      new;
      CopyAssign(other);
    }

    /**
     * Copy assignment: reserve_no_copy(other's size), then the other's characters and terminator
     * (or just a terminator for an empty source when there is a buffer).
     */
    method CopyAssign(other: String)
      requires Valid() && other.Valid() && Repr() !! other.Repr()
      modifies this, data
      ensures Valid() && Contents() == other.Contents()
      ensures other.size <= old(capacity) ==> capacity == old(capacity) && data == old(data)
      ensures other.size > old(capacity) ==> capacity == other.size && fresh(data)
    {
      ReserveImpl(false, other.size);
      if other.size > 0 {
        Copy(other.data, 0, data, 0, other.size + 1);
      } else if capacity > 0 {
        data[0] := '\0';
      }
      size := other.size;
      if data != null {
        assert data[..size + 1][size] == '\0';
        assert data[..size] == data[..size + 1][..size];
      }
    }

    /** swap: exchanges `_data`, `_capacity` and `_size` (a self-swap changes nothing). */
    method Swap(other: String)
      requires Valid() && other.Valid()
      modifies this, other
      ensures Valid() && other.Valid()
      ensures data == old(other.data) && size == old(other.size) && capacity == old(other.capacity)
      ensures other.data == old(data) && other.size == old(size) && other.capacity == old(capacity)
      ensures Contents() == old(other.Contents()) && other.Contents() == old(Contents())
    {
      data, other.data := other.data, data;
      capacity, other.capacity := other.capacity, capacity;
      size, other.size := other.size, size;
    }

    /**
     * Move assignment: this string is first swapped with a fresh empty one (releasing its
     * buffer), then swapped with the other. The other is left empty; a self-move leaves this
     * string empty.
     */
    method MoveAssign(other: String)
      requires Valid() && other.Valid()
      modifies this, other
      ensures Valid() && other.Valid()
      ensures other != this ==>
        data == old(other.data) && size == old(other.size) && capacity == old(other.capacity) &&
        Contents() == old(other.Contents())
      ensures other.data == null && other.size == 0 && other.capacity == 0
    {
      var empty := new String();
      empty.Swap(this);
      Swap(other);
    }

    // ------------------------------------------------------------------------------------------
    // Modifications

    /**
     * append(str): a null pointer changes nothing. Otherwise next_capacity(size + count) either
     * throws `std::bad_alloc` (reported as `badAlloc`, nothing changed) or gives the capacity
     * that reserve then grows to, and the characters and terminator are copied after the content.
     * Appending "" to a string without a buffer is excluded: its terminator would be copied to
     * the null buffer.
     */
    method Append(str: Option<seq<char>>) returns (badAlloc: bool)
      requires Valid()
      requires str.Some? ==> NoZero(str.value) && (|str.value| == 0 ==> data != null)
      modifies this, data
      ensures Valid()
      ensures badAlloc <==> str.Some? && Growth.NextCapacityOf(old(capacity), old(size) + |str.value|).BadAlloc?
      ensures str.None? || badAlloc ==>
        Contents() == old(Contents()) && capacity == old(capacity) && data == old(data)
      ensures str.Some? && !badAlloc ==>
        Contents() == old(Contents()) + str.value &&
        capacity == Growth.NextCapacityOf(old(capacity), old(size) + |str.value|).value &&
        (capacity > old(capacity) ==> fresh(data))
    {
      if str.None? {
        return false;
      }
      var count := |str.value|;
      var next := Growth.NextCapacity(capacity, size + count);
      if next.BadAlloc? {
        return true;
      }
      ReserveImpl(true, next.value);
      CopyAtEnd(str.value);
      badAlloc := false;
    }

    /** The copy of append: the characters and terminator of `s` go right after the content. */
    method CopyAtEnd(s: seq<char>)
      requires Valid() && data != null && size + |s| <= capacity
      modifies this, data
      ensures Valid() && Contents() == old(Contents()) + s
      ensures data == old(data) && capacity == old(capacity)
    {
      ghost var before := Contents();
      var start := size;
      CopySeq(s + ['\0'], data, start);
      assert data[..start] == before;
      assert data[start..start + |s|] == (s + ['\0'])[..|s|] == s;
      assert data[..start + |s|] == data[..start] + data[start..start + |s|];
      size := start + |s|;
      assert data[size] == data[start..start + |s| + 1][|s|] == '\0';
    }

    /**
     * resize(newSize): the same size changes nothing; a smaller one truncates with a terminator;
     * a larger one reserves newSize and zero-fills from the old end through the new terminator.
     */
    method Resize(newSize: nat)
      requires Valid()
      modifies this, data
      ensures Valid()
      ensures Contents() == if newSize <= old(size) then old(Contents())[..newSize]
                            else old(Contents()) + Repeat('\0', newSize - old(size))
      ensures newSize <= old(capacity) ==> capacity == old(capacity) && data == old(data)
      ensures newSize > old(capacity) ==> capacity == newSize && fresh(data)
    {
      if size == newSize {
        assert Contents()[..newSize] == Contents();
      } else if size > newSize {
        ghost var before := Contents();
        size := newSize;
        data[size] := '\0';
        assert data[..size] == before[..newSize];
      } else {
        ReserveImpl(true, newSize);
        ZeroFill(newSize);
      }
    }

    /** The growing path of resize once the capacity suffices: memset of '\0' through the new end. */
    method ZeroFill(newSize: nat)
      requires Valid() && data != null && size < newSize <= capacity
      modifies this, data
      ensures Valid() && Contents() == old(Contents()) + Repeat('\0', newSize - old(size))
      ensures data == old(data) && capacity == old(capacity)
    {
      ghost var before := Contents();
      Set(data, size, '\0', newSize - size + 1);
      assert data[..size] == before;
      assert data[size..newSize + 1] == Repeat('\0', newSize - size + 1);
      assert data[newSize] == data[size..newSize + 1][newSize - size];
      assert data[..newSize] == data[..size] + data[size..newSize + 1][..newSize - size];
      size := newSize;
    }
  }
}
