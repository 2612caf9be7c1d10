/**
 * `sso::string`: a `_data` pointer that aims either at the string's own 16-character `_buffer`
 * (capacity 15) or at a heap buffer, with `_size`, `_capacity` and a `_use_heap` tag kept beside
 * it. Whenever the tag is clear, `_data` is `_buffer` and the capacity is 15.
 */
module Sso {
  import opened CharBuffers
  import Growth

  const SSO_BUFFER_SIZE: nat := 16
  const SSO_CAPACITY: nat := SSO_BUFFER_SIZE - 1

  class String {
    /** _data */
    var data: array<char>
    /** _size */
    var size: nat
    /** _capacity */
    var capacity: nat
    /** _buffer */
    const buffer: array<char>
    /** _use_heap */
    var useHeap: bool

    ghost predicate Valid()
      reads this, data
    {
      buffer.Length == SSO_BUFFER_SIZE &&
      (if useHeap then data != buffer && data.Length == capacity + 1
       else data == buffer && capacity == SSO_CAPACITY) &&
      size <= capacity && data[size] == '\0'
    }

    /** The characters before the terminator. */
    ghost function Contents(): seq<char>
      reads this, data
      requires Valid()
    {
      data[..size]
    }

    /** The storage this string owns. */
    ghost function Repr(): set<object>
      reads this
    {
      {this, buffer, data}
    }

    // ------------------------------------------------------------------------------------------
    // Construction, copy and move

    /** Default construction: `_data` at the zeroed `_buffer`, size 0, capacity 15, inline. */
    constructor ()
      ensures Valid() && fresh(buffer) && data == buffer && !useHeap
      ensures Contents() == [] && capacity == SSO_CAPACITY
    {
      buffer := new char[SSO_BUFFER_SIZE](_ => '\0');
      data := buffer;
      size := 0;
      capacity := SSO_CAPACITY;
      useHeap := false;
    }

    /** Fills a freshly constructed string: a heap buffer of capacity exactly the size above 15. */
    method InitFrom(src: seq<char>)
      requires buffer.Length == SSO_BUFFER_SIZE && data == buffer && capacity == SSO_CAPACITY
      requires !useHeap && |src| >= 1 && src[|src| - 1] == '\0'
      modifies this, buffer
      ensures Valid() && Contents() == src[..|src| - 1]
      ensures useHeap <==> |src| - 1 > SSO_CAPACITY
      ensures useHeap ==> fresh(data)
      ensures capacity == if |src| - 1 > SSO_CAPACITY then |src| - 1 else SSO_CAPACITY
    {
      size := |src| - 1;
      if size > capacity {
        capacity := size;
        data := new char[capacity + 1];
        useHeap := true;
      }
      CopySeq(src, data, 0);
      assert data[..size + 1] == src;
      assert data[..size] == src[..size];
    }

    /**
     * Construction from a C string: the characters and terminator go to `_buffer` when they fit,
     * otherwise to a heap buffer of capacity exactly the length.
     */
    constructor FromCString(str: seq<char>)
      requires NoZero(str)
      ensures Valid() && fresh(buffer) && fresh(data)
      ensures Contents() == str
      ensures useHeap <==> |str| > SSO_CAPACITY
      ensures capacity == if |str| > SSO_CAPACITY then |str| else SSO_CAPACITY
    {
      buffer := new char[SSO_BUFFER_SIZE](_ => '\0');
      data := buffer;
      size := 0;
      capacity := SSO_CAPACITY;
      useHeap := false;
      new;
      InitFrom(str + ['\0']);
      assert (str + ['\0'])[..|str|] == str;
    }

    /** Copy construction: the same choice by the other's size. */
    constructor Copied(other: String)
      requires other.Valid()
      ensures Valid() && fresh(buffer) && fresh(data)
      ensures Contents() == other.Contents()
      ensures useHeap <==> other.size > SSO_CAPACITY
      ensures capacity == if other.size > SSO_CAPACITY then other.size else SSO_CAPACITY
    {
      buffer := new char[SSO_BUFFER_SIZE](_ => '\0');
      data := buffer;
      size := 0;
      capacity := SSO_CAPACITY;
      useHeap := false;
      new;
      InitFrom(other.data[..other.size + 1]);
    }

    /** A moved-from heap source: `_data` back at `_buffer`, size 0, capacity 15, empty. */
    method ResetToBuffer()
      requires buffer.Length == SSO_BUFFER_SIZE
      modifies this, buffer
      ensures Valid() && !useHeap && data == buffer && Contents() == []
    {
      size := 0;
      capacity := SSO_CAPACITY;
      data := buffer;
      buffer[0] := '\0';
      useHeap := false;
    }

    /**
     * Move construction. A heap source hands over pointer, size and capacity and is reset to its
     * own empty buffer; an inline source is copied into this `_buffer` and left as it was.
     */
    constructor Moved(other: String)
      requires other.Valid()
      modifies other, other.buffer
      ensures Valid() && fresh(buffer)
      ensures Contents() == old(other.Contents()) && capacity == old(other.capacity)
      ensures useHeap == old(other.useHeap)
      ensures other.Valid()
      ensures old(other.useHeap) ==> data == old(other.data) && !other.useHeap && other.Contents() == []
      ensures !old(other.useHeap) ==> data == buffer && other.Contents() == old(other.Contents())
      ensures !old(other.useHeap) ==> unchanged(other, other.buffer)
    {
      buffer := new char[SSO_BUFFER_SIZE](_ => '\0');
      data := buffer;
      size := 0;
      capacity := SSO_CAPACITY;
      useHeap := false;
      new;
      if other.useHeap {
        size := other.size;
        capacity := other.capacity;
        data := other.data;
        useHeap := true;
        other.ResetToBuffer();
      } else {
        size := other.size;
        Copy(other.buffer, 0, buffer, 0, other.size + 1);
        assert buffer[..size + 1][size] == '\0';
        assert buffer[..size] == buffer[..size + 1][..size];
      }
    }

    /**
     * Copy assignment: storage, tag and capacity are kept when the other's size fits the
     * capacity; otherwise a heap buffer of capacity exactly that size replaces them.
     */
    method CopyAssign(other: String)
      requires Valid() && other.Valid() && Repr() !! other.Repr()
      modifies this, data
      ensures Valid() && Contents() == other.Contents()
      ensures old(other.size) <= old(capacity) ==>
        capacity == old(capacity) && useHeap == old(useHeap) && data == old(data)
      ensures old(other.size) > old(capacity) ==> useHeap && capacity == other.size && fresh(data)
    {
      if other.size > capacity {
        capacity := other.size;
        data := new char[capacity + 1];
        useHeap := true;
      }
      size := other.size;
      Copy(other.data, 0, data, 0, size + 1);
      assert data[..size + 1][size] == '\0';
      assert data[..size] == data[..size + 1][..size];
    }

    /**
     * Move assignment: the old heap buffer (if any) is released and size and capacity are taken
     * from the other. A heap source also hands over its pointer and is reset to its own empty
     * buffer; an inline source is copied into this `_buffer` and left as it was.
     */
    method MoveAssign(other: String)
      requires Valid() && other.Valid() && Repr() !! other.Repr()
      modifies this, buffer, other, other.buffer
      ensures Valid() && Contents() == old(other.Contents())
      ensures capacity == old(other.capacity) && useHeap == old(other.useHeap)
      ensures other.Valid()
      ensures old(other.useHeap) ==> data == old(other.data) && !other.useHeap && other.Contents() == []
      ensures !old(other.useHeap) ==> data == buffer && other.Contents() == old(other.Contents())
      ensures !old(other.useHeap) ==> unchanged(other, other.buffer)
    {
      size := other.size;
      capacity := other.capacity;
      if other.useHeap {
        data := other.data;
        useHeap := true;
        other.ResetToBuffer();
      } else {
        data := buffer;
        useHeap := false;
        Copy(other.buffer, 0, buffer, 0, other.size + 1);
        assert buffer[..size + 1][size] == '\0';
        assert buffer[..size] == buffer[..size + 1][..size];
      }
    }

    /**
     * swap: size, capacity, tag and content are exchanged. Heap pointers are handed over and
     * inline characters are copied into the receiver's own `_buffer`; nothing is allocated.
     */
    method Swap(other: String)
      requires Valid() && other.Valid() && Repr() !! other.Repr()
      modifies this, buffer, other, other.buffer
      ensures Valid() && other.Valid() && Repr() !! other.Repr()
      ensures Contents() == old(other.Contents()) && other.Contents() == old(Contents())
      ensures capacity == old(other.capacity) && other.capacity == old(capacity)
      ensures useHeap == old(other.useHeap) && other.useHeap == old(useHeap)
      ensures data == if useHeap then old(other.data) else buffer
      ensures other.data == if other.useHeap then old(data) else other.buffer
    {
      if useHeap && other.useHeap {
        data, other.data := other.data, data;
        size, other.size := other.size, size;
        capacity, other.capacity := other.capacity, capacity;
      } else if !useHeap && !other.useHeap {
        SwapInline(other);
      } else if useHeap {
        HandHeapTo(other);
      } else {
        other.HandHeapTo(this);
      }
    }

    /** The swap of two inline strings: the buffers exchange their characters. */
    method SwapInline(other: String)
      requires Valid() && other.Valid() && Repr() !! other.Repr()
      requires !useHeap && !other.useHeap
      modifies this, buffer, other, other.buffer
      ensures Valid() && other.Valid() && Repr() !! other.Repr()
      ensures Contents() == old(other.Contents()) && other.Contents() == old(Contents())
      ensures capacity == old(other.capacity) && other.capacity == old(capacity)
      ensures useHeap == old(other.useHeap) && other.useHeap == old(useHeap)
      ensures data == if useHeap then old(other.data) else buffer
      ensures other.data == if other.useHeap then old(data) else other.buffer
    {
      var tmp := buffer[..];
      Copy(other.buffer, 0, buffer, 0, SSO_BUFFER_SIZE);
      CopySeq(tmp, other.buffer, 0);
      assert buffer[..] == old(other.buffer[..]);
      size, other.size := other.size, size;
    }

    /**
     * The swap of a heap string (this) with an inline one: the other takes the heap pointer, and
     * the inline characters and terminator move into this string's own buffer.
     */
    method HandHeapTo(other: String)
      requires Valid() && other.Valid() && Repr() !! other.Repr()
      requires useHeap && !other.useHeap
      modifies this, buffer, other, other.buffer
      ensures Valid() && other.Valid() && Repr() !! other.Repr()
      ensures Contents() == old(other.Contents()) && other.Contents() == old(Contents())
      ensures capacity == old(other.capacity) && other.capacity == old(capacity)
      ensures useHeap == old(other.useHeap) && other.useHeap == old(useHeap)
      ensures data == if useHeap then old(other.data) else buffer
      ensures other.data == if other.useHeap then old(data) else other.buffer
    {
      other.data := data;
      data := buffer;
      Copy(other.buffer, 0, buffer, 0, other.size + 1);
      useHeap, other.useHeap := false, true;
      size, other.size := other.size, size;
      capacity, other.capacity := other.capacity, capacity;
      assert buffer[..size + 1][size] == '\0';
      assert buffer[..size] == buffer[..size + 1][..size];
    }

    // ------------------------------------------------------------------------------------------
    // Modifications

    /**
     * insert(index, count, ch), with the growth path as evidently intended (see
     * CharBuffers.FillGrowthAsWritten). In place when the capacity suffices, and a no-op for
     * count 0; otherwise a heap buffer whose capacity is calc_capacity(size + count).
     */
    method InsertFill(index: nat, count: nat, ch: char)
      requires Valid() && index <= size
      modifies this, data
      ensures Valid() && Contents() == Splice(old(Contents()), index, Repeat(ch, count))
      ensures old(size) + count <= old(capacity) ==>
        capacity == old(capacity) && useHeap == old(useHeap) && data == old(data)
      ensures old(size) + count > old(capacity) ==>
        useHeap && capacity == Growth.PolicyCapacity(old(size) + count) && fresh(data)
    {
      if capacity < size + count {
        GrowFilling(index, count, ch);
      } else if count > 0 {
        FillInPlace(data, size, index, ch, count);
        size := size + count;
        assert data[..size + 1][size] == '\0';
        assert data[..size] == data[..size + 1][..size];
      }
    }

    /** The growth path of insert(index, count, ch). */
    method GrowFilling(index: nat, count: nat, ch: char)
      requires Valid() && index <= size && capacity < size + count
      modifies this
      ensures Valid() && Contents() == Splice(old(Contents()), index, Repeat(ch, count))
      ensures useHeap && capacity == Growth.PolicyCapacity(old(size) + count) && fresh(data)
    {
      var newCapacity := Growth.CalcCapacity(capacity, size + count);
      var newData := NewWithFill(data[..size], index, count, ch, newCapacity);
      capacity := newCapacity;
      useHeap := true;
      data := newData;
      size := size + count;
      assert newData[..size + 1][size] == '\0';
      assert newData[..size] == newData[..size + 1][..size];
    }

    /**
     * insert(index, str) for a C string that is foreign or points into this string's own
     * content: the content with str's characters (as strlen counts them before anything moves)
     * inserted before `index`. In place when the capacity suffices, whatever part of the own
     * buffer the source occupies; otherwise a new heap buffer of capacity
     * calc_capacity(size + count), filled before the old one is released.
     */
    method Insert(index: nat, str: CStr)
      requires Valid() && index <= size
      requires str.Foreign? ==> NoZero(str.chars)
      requires str.Inside? ==> str.offset <= size
      modifies this, data
      ensures Valid() && Contents() == Splice(old(Contents()), index, Text(old(Contents()), str))
      ensures old(size + |Text(Contents(), str)| <= capacity) ==>
        capacity == old(capacity) && useHeap == old(useHeap) && data == old(data)
      ensures old(size + |Text(Contents(), str)| > capacity) ==>
        useHeap && capacity == Growth.PolicyCapacity(old(size + |Text(Contents(), str)|)) && fresh(data)
    {
      var count := ArgLength(data, size, str);
      var src := SourceChars(data[..], str, count);
      if capacity < size + count {
        GrowInserting(index, src);
      } else {
        InsertHere(index, str, count);
      }
    }

    /** The growth path of insert(index, str). */
    method GrowInserting(index: nat, src: seq<char>)
      requires Valid() && index <= size && capacity < size + |src|
      modifies this
      ensures Valid() && Contents() == Splice(old(Contents()), index, src)
      ensures useHeap && capacity == Growth.PolicyCapacity(old(size) + |src|) && fresh(data)
    {
      var count := |src|;
      var newCapacity := Growth.CalcCapacity(capacity, size + count);
      var newData := NewWithInserted(data[..size], index, src, newCapacity);
      capacity := newCapacity;
      useHeap := true;
      data := newData;
      size := size + count;
      assert newData[..size + 1][size] == '\0';
      assert newData[..size] == newData[..size + 1][..size];
    }

    /** The in-place path of insert(index, str), `count` being the source's strlen. */
    method InsertHere(index: nat, str: CStr, count: nat)
      requires Valid() && index <= size && size + count <= capacity
      requires str.Foreign? ==> |str.chars| == count
      requires str.Inside? ==> str.offset + count <= size
      modifies this, data
      ensures Valid() && Contents() == Splice(old(Contents()), index, SourceChars(old(data[..]), str, count))
      ensures capacity == old(capacity) && useHeap == old(useHeap) && data == old(data)
    {
      InsertInPlace(data, size, index, str, count);
      size := size + count;
      assert data[..size + 1][size] == '\0';
      assert data[..size] == data[..size + 1][..size];
    }

    /**
     * resize(newSize, ch): truncation writes a terminator at newSize and keeps the capacity;
     * growth within the capacity fills with ch in place; beyond the capacity the string moves to
     * a heap buffer of capacity exactly newSize.
     */
    method Resize(newSize: nat, ch: char)
      requires Valid()
      modifies this, data
      ensures Valid()
      ensures Contents() == if newSize <= old(size) then old(Contents())[..newSize]
                            else old(Contents()) + Repeat(ch, newSize - old(size))
      ensures newSize <= old(capacity) ==>
        capacity == old(capacity) && useHeap == old(useHeap) && data == old(data)
      ensures newSize > old(capacity) ==> useHeap && capacity == newSize && fresh(data)
    {
      if capacity < newSize {
        var newData := NewExtended(data[..size], newSize, ch);
        useHeap := true;
        data := newData;
        size := newSize;
        capacity := newSize;
        assert newData[..newSize] == newData[..][..newSize];
      } else if newSize < size {
        data[newSize] := '\0';
        size := newSize;
        assert data[..newSize] == old(data[..size])[..newSize];
      } else if newSize > size {
        ExtendInPlace(data, size, newSize, ch);
        size := newSize;
        assert data[..newSize] == data[..newSize + 1][..newSize];
      }
    }

    /**
     * reserve(newCapacity): when newCapacity is at least the capacity (even 15 from the inline
     * form) the content moves to a heap buffer of capacity exactly newCapacity, terminated at the
     * size; otherwise nothing changes.
     */
    method Reserve(newCapacity: nat)
      requires Valid()
      modifies this, data
      ensures Valid() && Contents() == old(Contents())
      ensures newCapacity >= old(capacity) ==> useHeap && capacity == newCapacity && fresh(data)
      ensures newCapacity < old(capacity) ==>
        capacity == old(capacity) && useHeap == old(useHeap) && data == old(data)
    {
      if newCapacity >= capacity {
        var newData := Reallocated(data[..size], newCapacity);
        useHeap := true;
        data := newData;
        capacity := newCapacity;
        assert newData[..size] == newData[..size + 1][..size];
      }
    }
  }
}
