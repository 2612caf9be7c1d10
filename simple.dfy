/**
 * `simple::string`: a heap-only string whose `_buffer` is null until something is allocated,
 * growing to exactly the size it needs. Unlike the other variants, `reserve` does not write a
 * terminator into the buffer it allocates, so the terminator is kept apart from Valid() as
 * Terminated(), and each operation says whether it writes, keeps or may lose it.
 */
module Simple {
  import opened CharBuffers

  class String {
    /** _buffer: null, or `capacity + 1` characters */
    var buffer: array?<char>
    /** _size */
    var size: nat
    /** _capacity */
    var capacity: nat

    ghost predicate Valid()
      reads this
    {
      (buffer == null ==> size == 0 && capacity == 0) &&
      (buffer != null ==> buffer.Length == capacity + 1 && size <= capacity)
    }

    /** The buffer holds a terminator right after the content (trivially so when it is null). */
    ghost predicate Terminated()
      reads this, buffer
      requires Valid()
    {
      buffer != null ==> buffer[size] == '\0'
    }

    /** The characters of the string; none for a null buffer. */
    function Contents(): seq<char>
      reads this, buffer
      requires Valid()
    {
      if buffer == null then [] else buffer[..size]
    }

    /** The storage this string owns. */
    ghost function Repr(): set<object>
      reads this
    {
      {this} + if buffer == null then {} else {buffer}
    }

    /** c_str(): the buffer, or the empty C string "" when it is null. */
    function CStr(): (s: seq<char>)
      reads this, buffer
      requires Valid()
      ensures Terminated() ==> s == Contents() + ['\0']
      ensures buffer == null ==> s == ['\0']
    {
      if buffer == null then ['\0'] else buffer[..size + 1]
    }

    // ------------------------------------------------------------------------------------------
    // Construction, copy and move

    /** Default construction: null, size 0, capacity 0. */
    constructor ()
      ensures Valid() && Terminated() && buffer == null && size == 0 && capacity == 0
    {
      buffer := null;
      size := 0;
      capacity := 0;
    }

    /**
     * Explicit construction from a (non-null) C string: a buffer of capacity exactly the length is
     * always allocated, even for "".
     */
    constructor FromCString(str: seq<char>)
      requires NoZero(str)
      ensures Valid() && Terminated() && Contents() == str
      ensures capacity == |str| && buffer != null && fresh(buffer)
    {
      size := |str|;
      capacity := |str|;
      buffer := new char[|str| + 1];
      new;
      CopySeq(str, buffer, 0);
      buffer[size] := '\0';
      assert buffer[..size] == str;
    }

    /**
     * Copy construction: null/0/0 for an empty source, otherwise the characters are copied into a
     * buffer of capacity exactly the size and terminated, whether or not the source was.
     */
    constructor Copied(other: String)
      requires other.Valid()
      ensures Valid() && Terminated() && Contents() == other.Contents()
      ensures (buffer == null) == (other.size == 0) && capacity == other.size
      ensures buffer != null ==> fresh(buffer)
    {
      size := other.size;
      capacity := other.size;
      if other.size > 0 {
        buffer := new char[other.size + 1];
      } else {
        buffer := null;
      }
      new;
      if buffer != null {
        CopyTerminated(other);
      }
    }

    /** Copies the other's characters to the start of this buffer and terminates them. */
    method CopyTerminated(other: String)
      requires Valid() && other.Valid() && buffer != null && other.buffer != null
      requires buffer != other.buffer && size == other.size
      modifies buffer
      ensures Valid() && Terminated() && Contents() == other.Contents()
    {
      Copy(other.buffer, 0, buffer, 0, size);
      buffer[size] := '\0';
      assert buffer[..size] == old(other.buffer[..size]);
    }

    /** Move construction: all three fields are taken; the source is left null/0/0. */
    constructor Moved(other: String)
      requires other.Valid()
      modifies other
      ensures Valid() && other.Valid() && other.Terminated()
      ensures buffer == old(other.buffer) && size == old(other.size) && capacity == old(other.capacity)
      ensures Contents() == old(other.Contents())
      ensures other.buffer == null && other.size == 0 && other.capacity == 0
    {
      buffer := other.buffer;
      size := other.size;
      capacity := other.capacity;
      new;
      other.buffer := null;
      other.size := 0;
      other.capacity := 0;
    }

    /**
     * Copy assignment: a self-assignment changes nothing; a larger source gets a new buffer of
     * capacity exactly its size; otherwise the buffer and capacity are kept. The result is
     * terminated unless it is the untouched self-assignment.
     */
    method CopyAssign(other: String)
      requires Valid() && other.Valid() && (other == this || Repr() !! other.Repr())
      modifies this, buffer
      ensures Valid() && Contents() == old(other.Contents())
      ensures other == this ==> buffer == old(buffer) && size == old(size) && capacity == old(capacity)
      ensures other == this ==> Terminated() == old(Terminated())
      ensures other != this ==> Terminated()
      ensures old(other.size) <= old(capacity) ==> capacity == old(capacity) && buffer == old(buffer)
      ensures old(other.size) > old(capacity) ==> capacity == other.size && fresh(buffer)
    {
      if this == other {
        return;
      }
      if capacity < other.size {
        buffer := new char[other.size + 1];
        capacity := other.size;
        size := other.size;
        CopyTerminated(other);
      } else if other.size > 0 {
        size := other.size;
        CopyTerminated(other);
      } else {
        if buffer != null {
          buffer[0] := '\0';
        }
        size := 0;
      }
    }

    /**
     * Move assignment: a self-move changes nothing; otherwise the own buffer is released, the
     * other's three fields taken and the other reset to null/0/0.
     */
    method MoveAssign(other: String)
      requires Valid() && other.Valid() && (other == this || Repr() !! other.Repr())
      modifies this, other
      ensures Valid() && other.Valid()
      ensures buffer == old(other.buffer) && size == old(other.size) && capacity == old(other.capacity)
      ensures Contents() == old(other.Contents())
      ensures other == this ==> Terminated() == old(Terminated())
      ensures other != this ==> other.buffer == null && other.size == 0 && other.capacity == 0
    {
      if this == other {
        return;
      }
      buffer := other.buffer;
      size := other.size;
      capacity := other.capacity;
      other.buffer := null;
      other.size := 0;
      other.capacity := 0;
    }

    /**
     * swap: three moves through a temporary. The two strings exchange their buffers, sizes and
     * capacities, and a self-swap changes nothing.
     */
    method Swap(other: String)
      requires Valid() && other.Valid() && (other == this || Repr() !! other.Repr())
      modifies this, other
      ensures Valid() && other.Valid()
      ensures buffer == old(other.buffer) && size == old(other.size) && capacity == old(other.capacity)
      ensures other.buffer == old(buffer) && other.size == old(size) && other.capacity == old(capacity)
      ensures Contents() == old(other.Contents()) && other.Contents() == old(Contents())
    {
      var tmp := new String.Moved(this);
      MoveAssign(other);
      other.MoveAssign(tmp);
    }

    // ------------------------------------------------------------------------------------------
    // Modifications

    /**
     * insert(index, count, ch), with the growth path as evidently intended (see
     * CharBuffers.FillGrowthAsWritten). In place when the capacity suffices, and a no-op for
     * count 0; otherwise a new terminated buffer of capacity exactly size + count.
     */
    method InsertFill(index: nat, count: nat, ch: char)
      requires Valid() && index <= size
      modifies this, buffer
      ensures Valid() && Contents() == Splice(old(Contents()), index, Repeat(ch, count))
      ensures old(Terminated()) ==> Terminated()
      ensures old(size) + count <= old(capacity) ==> capacity == old(capacity) && buffer == old(buffer)
      ensures old(size) + count > old(capacity) ==> capacity == old(size) + count && fresh(buffer) && Terminated()
    {
      if capacity < size + count {
        GrowFilling(index, count, ch);
      } else if count > 0 {
        FillInPlace(buffer, size, index, ch, count);
        size := size + count;
        assert buffer[..size + 1][size] == old(buffer[size]);
        assert buffer[..size] == buffer[..size + 1][..size];
      }
    }

    /** The growth path of insert(index, count, ch): a terminated buffer of capacity size + count. */
    method GrowFilling(index: nat, count: nat, ch: char)
      requires Valid() && index <= size && capacity < size + count
      modifies this
      ensures Valid() && Terminated() && Contents() == Splice(old(Contents()), index, Repeat(ch, count))
      ensures capacity == old(size) + count && fresh(buffer)
    {
      var prev := Contents();
      capacity := size + count;
      var newBuffer := NewWithFill(prev, index, count, ch, capacity);
      buffer := newBuffer;
      size := size + count;
      assert newBuffer[..size + 1][size] == '\0';
      assert newBuffer[..size] == newBuffer[..size + 1][..size];
    }

    /**
     * insert(index, str) for a C string that is foreign or points into this string's own
     * content (which strlen then needs terminated): the content with str's characters inserted
     * before `index`. In place when the capacity suffices and there is a buffer, whatever part of
     * it the source occupies; otherwise a new terminated buffer of capacity exactly
     * size + count, filled before the old one is released.
     */
    method Insert(index: nat, str: CStr)
      requires Valid() && index <= size
      requires str.Foreign? ==> NoZero(str.chars)
      requires str.Inside? ==> buffer != null && Terminated() && str.offset <= size
      modifies this, buffer
      ensures Valid() && Contents() == Splice(old(Contents()), index, Text(old(Contents()), str))
      ensures old(Terminated()) ==> Terminated()
      ensures old(size + |Text(Contents(), str)| <= capacity) ==> capacity == old(capacity) && buffer == old(buffer)
      ensures old(size + |Text(Contents(), str)| > capacity) ==>
        capacity == old(size + |Text(Contents(), str)|) && fresh(buffer) && Terminated()
    {
      var count: nat;
      var src: seq<char>;
      match str {
        case Foreign(chars) =>
          count := |chars|;
          src := chars;
        case Inside(_) =>
          count := ArgLength(buffer, size, str);
          src := SourceChars(buffer[..], str, count);
      }
      if capacity < size + count {
        GrowInserting(index, src);
      } else if buffer != null {
        InsertHere(index, str, count);
      }
    }

    /** The growth path of insert(index, str). */
    method GrowInserting(index: nat, src: seq<char>)
      requires Valid() && index <= size && capacity < size + |src|
      modifies this
      ensures Valid() && Terminated() && Contents() == Splice(old(Contents()), index, src)
      ensures capacity == old(size) + |src| && fresh(buffer)
    {
      var prev := Contents();
      capacity := size + |src|;
      var newBuffer := NewWithInserted(prev, index, src, capacity);
      buffer := newBuffer;
      size := size + |src|;
      assert newBuffer[..size + 1][size] == '\0';
      assert newBuffer[..size] == newBuffer[..size + 1][..size];
    }

    /** The in-place path of insert(index, str), `count` being the source's strlen. */
    method InsertHere(index: nat, str: CStr, count: nat)
      requires Valid() && buffer != null && index <= size && size + count <= capacity
      requires str.Foreign? ==> |str.chars| == count
      requires str.Inside? ==> str.offset + count <= size
      modifies this, buffer
      ensures Valid() && Contents() == Splice(old(Contents()), index, SourceChars(old(buffer[..]), str, count))
      ensures old(Terminated()) ==> Terminated()
      ensures capacity == old(capacity) && buffer == old(buffer)
    {
      ghost var end := buffer[size];
      InsertInPlace(buffer, size, index, str, count);
      size := size + count;
      assert buffer[..size + 1][size] == end;
      assert buffer[..size] == buffer[..size + 1][..size];
    }

    /**
     * resize(newSize, ch): truncation writes a terminator at newSize and keeps the capacity;
     * growth within the capacity fills with ch in place; beyond the capacity a new buffer of
     * capacity exactly newSize. Every change of size leaves the string terminated.
     */
    method Resize(newSize: nat, ch: char)
      requires Valid()
      modifies this, buffer
      ensures Valid()
      ensures Contents() == if newSize <= old(size) then old(Contents())[..newSize]
                            else old(Contents()) + Repeat(ch, newSize - old(size))
      ensures newSize != old(size) ==> Terminated()
      ensures newSize == old(size) ==> Terminated() == old(Terminated())
      ensures newSize <= old(capacity) ==> capacity == old(capacity) && buffer == old(buffer)
      ensures newSize > old(capacity) ==> capacity == newSize && fresh(buffer)
    {
      if capacity < newSize {
        var newBuffer := NewExtended(Contents(), newSize, ch);
        buffer := newBuffer;
        size := newSize;
        capacity := newSize;
        assert newBuffer[..newSize] == newBuffer[..][..newSize];
      } else if newSize < size {
        buffer[newSize] := '\0';
        size := newSize;
        assert buffer[..newSize] == old(buffer[..size])[..newSize];
      } else if newSize > size {
        ExtendInPlace(buffer, size, newSize, ch);
        size := newSize;
        assert buffer[..newSize] == buffer[..newSize + 1][..newSize];
      }
    }

    /**
     * reserve(newCapacity): only a capacity strictly above the current one allocates; the new
     * buffer of capacity exactly newCapacity receives the characters but no terminator.
     */
    method Reserve(newCapacity: nat)
      requires Valid()
      modifies this, buffer
      ensures Valid() && Contents() == old(Contents())
      ensures newCapacity > old(capacity) ==> capacity == newCapacity && buffer != null && fresh(buffer)
      ensures newCapacity <= old(capacity) ==> capacity == old(capacity) && buffer == old(buffer)
      ensures newCapacity <= old(capacity) ==> Terminated() == old(Terminated())
    {
      if newCapacity > capacity {
        var newBuffer := new char[newCapacity + 1];
        CopySeq(Contents(), newBuffer, 0);
        buffer := newBuffer;
        capacity := newCapacity;
      }
    }
  }

  /**
   * The insert_self case: "0123456789" with insert(3, c_str() + 6). The string has capacity 10,
   * so the insert grows and reads "6789" from the old buffer before releasing it.
   */
  method InsertSelfExample() returns (s: seq<char>)
    ensures s == "01267893456789"
  {
    var str := new String.FromCString("0123456789");
    assert str.Contents() == "0123456789";
    assert Text("0123456789", Inside(6)) == "6789" by {
      CLengthUnique("6789", 4);
    }
    str.Insert(3, Inside(6));
    s := str.Contents();
    InsertSelfExpected();
  }

  /**
   * The insert test on this string: "", "a", "abc" and "123" inserted into an empty string give
   * "abca123" with a capacity of exactly 7, so the test's expectation size < capacity does not
   * hold; filling up to the capacity inserts nothing, and inserting "y" grows to exactly 8.
   */
  method InsertTestExample() returns (size: nat, capacity: nat, finalSize: nat, finalCapacity: nat)
    ensures size == 7 && capacity == 7
    ensures finalSize == 8 && finalCapacity == 8
  {
    var str := new String();
    str.Insert(0, Foreign(""));
    assert str.size == 0 && str.capacity == 0;
    str.Insert(0, Foreign("a"));
    assert str.size == 1 && str.capacity == 1;
    str.Insert(0, Foreign("abc"));
    assert str.size == 4 && str.capacity == 4;
    str.Insert(4, Foreign("123"));
    size, capacity := str.size, str.capacity;
    finalSize, finalCapacity := FillAndGrowExample(str);
  }

  /**
   * The second half of the insert test: a string of 7 characters in capacity 7 is already full,
   * so filling up to the capacity inserts nothing, and inserting "y" grows it to exactly 8, so
   * the size equals the capacity again.
   */
  method FillAndGrowExample(str: String) returns (finalSize: nat, finalCapacity: nat)
    requires str.Valid() && str.size == 7 && str.capacity == 7
    modifies str, str.buffer
    ensures finalSize == 8 && finalCapacity == 8
  {
    str.InsertFill(0, str.capacity - str.size, 'x');
    assert str.size == 7 && str.capacity == 7;
    str.Insert(0, Foreign("y"));
    finalSize, finalCapacity := str.size, str.capacity;
  }
}
