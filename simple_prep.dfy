/**
 * `simple::string` of the preparation stage: a heap-only string whose `_data` is null until it
 * holds something (null means size 0 and capacity 0), growing by the power-of-two policy of
 * `calc_capacity`.
 */
module SimplePrep {
  import opened CharBuffers
  import Growth

  class String {
    /** _data: null, or `capacity + 1` characters */
    var data: array?<char>
    /** _size */
    var size: nat
    /** _capacity */
    var capacity: nat

    ghost predicate Valid()
      reads this, data
    {
      (data == null ==> size == 0 && capacity == 0) &&
      (data != null ==> data.Length == capacity + 1 && size <= capacity && data[size] == '\0')
    }

    /** The characters before the terminator; none for a null buffer. */
    function Contents(): seq<char>
      reads this, data
      requires Valid()
    {
      if data == null then [] else data[..size]
    }

    /** The storage this string owns. */
    ghost function Repr(): set<object>
      reads this
    {
      {this} + if data == null then {} else {data}
    }

    /** c_str(): the buffer, or the empty C string "" when it is null. */
    function CStr(): (s: seq<char>)
      reads this, data
      requires Valid()
      ensures s == Contents() + ['\0']
      ensures data == null ==> s == ['\0']
    {
      if data == null then ['\0'] else data[..size + 1]
    }

    // ------------------------------------------------------------------------------------------
    // Construction, copy and move

    /** Default construction: null, size 0, capacity 0. */
    constructor ()
      ensures Valid() && data == null && size == 0 && capacity == 0
    {
      data := null;
      size := 0;
      capacity := 0;
    }

    /**
     * Construction from a C string: nothing is allocated for "", otherwise a buffer of capacity
     * exactly the length receives the characters and the terminator.
     */
    constructor FromCString(str: seq<char>)
      requires NoZero(str)
      ensures Valid() && Contents() == str
      ensures (data == null) == (|str| == 0) && capacity == |str|
      ensures data != null ==> fresh(data)
    {
      size := |str|;
      data := null;
      capacity := 0;
      new;
      if size != 0 {
        capacity := size;
        data := new char[capacity + 1];
        CopySeq(str + ['\0'], data, 0);
        assert data[..size + 1] == str + ['\0'];
        assert data[..size] == str;
      }
    }

    /** Copy construction: null/0/0 for an empty source, otherwise an exact-size copy. */
    constructor Copied(other: String)
      requires other.Valid()
      ensures Valid() && Contents() == other.Contents()
      ensures (data == null) == (other.size == 0) && capacity == other.size
      ensures data != null ==> fresh(data)
    {
      size := other.size;
      capacity := other.size;
      if other.size > 0 {
        data := new char[other.size + 1];
      } else {
        data := null;
      }
      new;
      if data != null {
        Copy(other.data, 0, data, 0, size + 1);
        assert data[..size + 1][size] == '\0';
        assert data[..size] == data[..size + 1][..size];
      }
    }

    /** Move construction: all three fields are taken; the source is left null/0/0. */
    constructor Moved(other: String)
      requires other.Valid()
      modifies other
      ensures Valid() && other.Valid()
      ensures data == old(other.data) && size == old(other.size) && capacity == old(other.capacity)
      ensures Contents() == old(other.Contents())
      ensures other.data == null && other.size == 0 && other.capacity == 0
    {
      size := other.size;
      capacity := other.capacity;
      data := other.data;
      new;
      other.size := 0;
      other.capacity := 0;
      other.data := null;
    }

    /**
     * Copy assignment: a larger source gets a new buffer of capacity exactly its size; otherwise
     * the buffer and capacity are kept. An empty source leaves size 0 and, when there is a buffer,
     * a terminator at its start.
     */
    method CopyAssign(other: String)
      requires Valid() && other.Valid() && Repr() !! other.Repr()
      modifies this, data
      ensures Valid() && Contents() == other.Contents()
      ensures old(other.size) <= old(capacity) ==> capacity == old(capacity) && data == old(data)
      ensures old(other.size) > old(capacity) ==> capacity == other.size && fresh(data)
    {
      if other.size > capacity {
        size := other.size;
        capacity := size;
        data := new char[capacity + 1];
        Copy(other.data, 0, data, 0, size + 1);
        assert data[..size + 1][size] == '\0';
        assert data[..size] == data[..size + 1][..size];
      } else if other.size > 0 {
        size := other.size;
        Copy(other.data, 0, data, 0, size + 1);
        assert data[..size + 1][size] == '\0';
        assert data[..size] == data[..size + 1][..size];
      } else {
        if data != null {
          size := 0;
          data[0] := '\0';
        }
      }
    }

    /** Move assignment: the own buffer is released, the other's three fields taken, the other reset. */
    method MoveAssign(other: String)
      requires Valid() && other.Valid() && Repr() !! other.Repr()
      modifies this, other
      ensures Valid() && other.Valid()
      ensures data == old(other.data) && size == old(other.size) && capacity == old(other.capacity)
      ensures Contents() == old(other.Contents())
      ensures other.data == null && other.size == 0 && other.capacity == 0
    {
      size := other.size;
      capacity := other.capacity;
      data := other.data;
      other.size := 0;
      other.capacity := 0;
      other.data := null;
    }

    /** swap: exchanges `_data`, `_size` and `_capacity` (a self-swap changes nothing). */
    method Swap(other: String)
      requires Valid() && other.Valid()
      modifies this, other
      ensures Valid() && other.Valid()
      ensures data == old(other.data) && size == old(other.size) && capacity == old(other.capacity)
      ensures other.data == old(data) && other.size == old(size) && other.capacity == old(capacity)
      ensures Contents() == old(other.Contents()) && other.Contents() == old(Contents())
    {
      var tmpData := data;
      data := other.data;
      other.data := tmpData;
      var tmpSize := size;
      size := other.size;
      other.size := tmpSize;
      var tmpCapacity := capacity;
      capacity := other.capacity;
      other.capacity := tmpCapacity;
    }

    // ------------------------------------------------------------------------------------------
    // Modifications

    /**
     * insert(index, count, ch), with the growth path as evidently intended (see
     * CharBuffers.FillGrowthAsWritten). In place when the capacity suffices, and a no-op for
     * count 0; otherwise a new buffer whose capacity is calc_capacity(size + count).
     */
    method InsertFill(index: nat, count: nat, ch: char)
      requires Valid() && index <= size
      modifies this, data
      ensures Valid() && Contents() == Splice(old(Contents()), index, Repeat(ch, count))
      ensures old(size) + count <= old(capacity) ==> capacity == old(capacity) && data == old(data)
      ensures old(size) + count > old(capacity) ==>
        capacity == Growth.PolicyCapacity(old(size) + count) && fresh(data)
    {
      if capacity < size + count {
        GrowFilling(index, count, ch);
      } else if count > 0 {
        FillInPlace(data, size, index, ch, count);
        size := size + count;
        assert data[..size + 1][size] == '\0';
        assert data[..size] == data[..size + 1][..size];
      }
    }

    /** The growth path of insert(index, count, ch). */
    method GrowFilling(index: nat, count: nat, ch: char)
      requires Valid() && index <= size && capacity < size + count
      modifies this
      ensures Valid() && Contents() == Splice(old(Contents()), index, Repeat(ch, count))
      ensures capacity == Growth.PolicyCapacity(old(size) + count) && fresh(data)
    {
      var prev := Contents();
      var newSize := size + count;
      var newCapacity := Growth.CalcCapacity(capacity, newSize);
      assert newSize <= newCapacity;
      var newData := NewWithFill(prev, index, count, ch, newCapacity);
      assert newData[..newSize + 1][newSize] == '\0';
      assert newData[..newSize] == Splice(prev, index, Repeat(ch, count));
      data, size, capacity := newData, newSize, newCapacity;
    }

    /**
     * insert(index, str) for a C string that is foreign or points into this string's own
     * content: the content with str's characters (as strlen counts them before anything moves)
     * inserted before `index`. In place when the capacity suffices and there is a buffer,
     * whatever part of it the source occupies; otherwise a new buffer of capacity
     * calc_capacity(size + count), filled before the old one is released.
     */
    method Insert(index: nat, str: CStr)
      requires Valid() && index <= size
      requires str.Foreign? ==> NoZero(str.chars)
      requires str.Inside? ==> data != null && str.offset <= size
      modifies this, data
      ensures Valid() && Contents() == Splice(old(Contents()), index, Text(old(Contents()), str))
      ensures old(size + |Text(Contents(), str)| <= capacity) ==> capacity == old(capacity) && data == old(data)
      ensures old(size + |Text(Contents(), str)| > capacity) ==>
        capacity == Growth.PolicyCapacity(old(size + |Text(Contents(), str)|)) && fresh(data)
    {
      ghost var content := Contents();
      var count, src := Argument(str);
      if capacity < size + count {
        GrowInserting(index, src);
      } else if data != null {
        InsertHere(index, str, count);
      } else {
        assert src == [] && Splice(content, index, src) == content;
      }
    }

    /** strlen(str), and the characters it counts as they are before anything moves. */
    method Argument(str: CStr) returns (count: nat, src: seq<char>)
      requires Valid()
      requires str.Foreign? ==> NoZero(str.chars)
      requires str.Inside? ==> data != null && str.offset <= size
      ensures src == Text(Contents(), str) && count == |src|
      ensures data != null ==> src == SourceChars(data[..], str, count)
      ensures str.Inside? ==> str.offset + count <= size
    {
      if data == null {
        count := |str.chars|;
        src := str.chars;
      } else {
        count := ArgLength(data, size, str);
        src := SourceChars(data[..], str, count);
      }
    }

    /** The growth path of insert(index, str). */
    method GrowInserting(index: nat, src: seq<char>)
      requires Valid() && index <= size && capacity < size + |src|
      modifies this
      ensures Valid() && Contents() == Splice(old(Contents()), index, src)
      ensures capacity == Growth.PolicyCapacity(old(size) + |src|) && fresh(data)
    {
      var prev := Contents();
      var count := |src|;
      capacity := Growth.CalcCapacity(capacity, size + count);
      var newData := NewWithInserted(prev, index, src, capacity);
      data := newData;
      size := size + count;
      assert newData[..size + 1][size] == '\0';
      assert newData[..size] == newData[..size + 1][..size];
    }

    /** The in-place path of insert(index, str), `count` being the source's strlen. */
    method InsertHere(index: nat, str: CStr, count: nat)
      requires Valid() && data != null && index <= size && size + count <= capacity
      requires str.Foreign? ==> |str.chars| == count
      requires str.Inside? ==> str.offset + count <= size
      modifies this, data
      ensures Valid() && Contents() == Splice(old(Contents()), index, SourceChars(old(data[..]), str, count))
      ensures capacity == old(capacity) && data == old(data)
    {
      InsertInPlace(data, size, index, str, count);
      size := size + count;
      assert data[..size + 1][size] == '\0';
      assert data[..size] == data[..size + 1][..size];
    }

    /**
     * resize(newSize, ch): truncation writes a terminator at newSize and keeps the capacity;
     * growth within the capacity fills with ch in place; beyond the capacity a new buffer of
     * capacity exactly newSize.
     */
    method Resize(newSize: nat, ch: char)
      requires Valid()
      modifies this, data
      ensures Valid()
      ensures Contents() == if newSize <= old(size) then old(Contents())[..newSize]
                            else old(Contents()) + Repeat(ch, newSize - old(size))
      ensures newSize <= old(capacity) ==> capacity == old(capacity) && data == old(data)
      ensures newSize > old(capacity) ==> capacity == newSize && fresh(data)
    {
      if capacity < newSize {
        var newData := NewExtended(Contents(), newSize, ch);
        data := newData;
        size := newSize;
        capacity := newSize;
        assert newData[..newSize] == newData[..][..newSize];
      } else if newSize < size {
        data[newSize] := '\0';
        size := newSize;
        assert data[..newSize] == old(data[..size])[..newSize];
      } else if newSize > size {
        ExtendInPlace(data, size, newSize, ch);
        size := newSize;
        assert data[..newSize] == data[..newSize + 1][..newSize];
      }
    }

    /**
     * reserve(newCapacity): when newCapacity is at least the capacity (even 0 for a null buffer) a
     * new buffer of capacity exactly newCapacity receives the content and a terminator; otherwise
     * nothing changes.
     */
    method Reserve(newCapacity: nat)
      requires Valid()
      modifies this, data
      ensures Valid() && Contents() == old(Contents())
      ensures newCapacity >= old(capacity) ==> capacity == newCapacity && data != null && fresh(data)
      ensures newCapacity < old(capacity) ==> capacity == old(capacity) && data == old(data)
    {
      if newCapacity >= capacity {
        var newData := Reallocated(Contents(), newCapacity);
        data := newData;
        capacity := newCapacity;
        assert newData[..size] == newData[..size + 1][..size];
      }
    }
  }

  /**
   * The insert_self case on a buffer with room: after reserve(20), insert(3, c_str() + 6) on
   * "0123456789" shifts the tail first, so "6789" is read from its shifted place.
   */
  method InsertSelfInPlaceExample() returns (s: seq<char>)
    ensures s == "01267893456789"
  {
    var str := new String.FromCString("0123456789");
    str.Reserve(20);
    assert str.Contents() == "0123456789";
    assert Text("0123456789", Inside(6)) == "6789" by {
      CLengthUnique("6789", 4);
    }
    str.Insert(3, Inside(6));
    s := str.Contents();
    InsertSelfExpected();
  }

  /**
   * The insert test on the string with the power-of-two policy: "", "a", "abc" and "123" give
   * "abca123" in capacity 15, above the size as the test expects; filling up to the capacity
   * makes the size equal it, and inserting "y" then grows to 31, above the size again.
   */
  method InsertTestExample() returns (size: nat, capacity: nat, finalSize: nat, finalCapacity: nat)
    ensures size == 7 && capacity == 15 && size < capacity
    ensures finalSize == 16 && finalCapacity == 31 && finalSize < finalCapacity
  {
    var str := new String();
    str.Insert(0, Foreign(""));
    assert str.size == 0 && str.capacity == 0;
    assert Growth.FirstDoubling(16, 2) == 16;
    str.Insert(0, Foreign("a"));
    assert str.size == 1 && str.capacity == 15;
    str.Insert(0, Foreign("abc"));
    assert str.size == 4 && str.capacity == 15;
    str.Insert(4, Foreign("123"));
    size, capacity := str.size, str.capacity;
    finalSize, finalCapacity := FillAndGrowExample(str);
  }

  /**
   * The second half of the insert test: a string of 7 characters in capacity 15 is filled up to
   * its capacity, and inserting "y" then grows it to 31, above its size of 16.
   */
  method FillAndGrowExample(str: String) returns (finalSize: nat, finalCapacity: nat)
    requires str.Valid() && str.size == 7 && str.capacity == 15
    modifies str, str.data
    ensures finalSize == 16 && finalCapacity == 31 && finalSize < finalCapacity
  {
    str.InsertFill(0, str.capacity - str.size, 'x');
    assert str.size == 15 && str.capacity == 15;
    assert Growth.FirstDoubling(16, 17) == 32;
    str.Insert(0, Foreign("y"));
    finalSize, finalCapacity := str.size, str.capacity;
  }
}
