/**
 * `sso2::string`: the union of a 23-character inline buffer (capacity 22) with a size byte and a
 * heap record (pointer, size, capacity), tagged by a separate `bool _use_heap`. The union is
 * modelled as the two records side by side; the one the tag does not select is stale and never
 * read.
 */
module Sso2 {
  import opened CharBuffers
  import Growth

  const SSO_BUFFER_SIZE: nat := 23
  const SSO_CAPACITY: nat := 22

  /** heap_string_data */
  datatype HeapStringData = HeapStringData(data: array<char>, size: nat, capacity: nat)

  class String {
    /** _small._buffer */
    const buffer: array<char>
    /** _small._size */
    var smallSize: nat
    /** _heap */
    var heap: HeapStringData
    /** _use_heap */
    var useHeap: bool

    /** data(): the buffer the tag selects. */
    function Data(): array<char>
      reads this
    {
      if useHeap then heap.data else buffer
    }

    /** size(): the record the tag selects. */
    function Size(): nat
      reads this
    {
      if useHeap then heap.size else smallSize
    }

    /** capacity(): 22 inline, the heap record's capacity otherwise. */
    function Capacity(): nat
      reads this
    {
      if useHeap then heap.capacity else SSO_CAPACITY
    }

    ghost predicate Valid()
      reads this, Data()
    {
      buffer.Length == SSO_BUFFER_SIZE &&
      (useHeap ==> heap.data != buffer && heap.data.Length == heap.capacity + 1) &&
      Size() <= Capacity() && Data()[Size()] == '\0'
    }

    /** The characters before the terminator. */
    ghost function Contents(): seq<char>
      reads this, Data()
      requires Valid()
    {
      Data()[..Size()]
    }

    /** The storage this string owns. */
    ghost function Repr(): set<object>
      reads this
    {
      {this, buffer} + if useHeap then {heap.data} else {}
    }

    /** The size store of insert and resize: `_heap._size`, or the size byte. */
    method SetSize(size: nat)
      modifies this
      ensures useHeap == old(useHeap) && Data() == old(Data()) && Capacity() == old(Capacity())
      ensures Size() == size
    {
      if useHeap {
        heap := heap.(size := size);
      } else {
        smallSize := size;
      }
    }

    /** The empty inline string of a moved-from heap source: size 0, terminator, tag cleared. */
    method ClearSmall()
      requires buffer.Length == SSO_BUFFER_SIZE
      modifies this, buffer
      ensures Valid() && !useHeap && Contents() == [] && Repr() == {this, buffer}
    {
      smallSize := 0;
      buffer[0] := '\0';
      useHeap := false;
    }

    // ------------------------------------------------------------------------------------------
    // Construction, copy and move

    /** Default construction: the empty inline string. */
    constructor ()
      ensures Valid() && fresh(buffer) && !useHeap
      ensures Contents() == [] && Capacity() == SSO_CAPACITY
    {
      buffer := new char[SSO_BUFFER_SIZE];
      heap := HeapStringData(buffer, 0, 0);
      new;
      smallSize := 0;
      buffer[0] := '\0';
      useHeap := false;
    }

    /** Fills a freshly constructed string with the characters and terminator in `src`. */
    method InitFrom(src: seq<char>)
      requires buffer.Length == SSO_BUFFER_SIZE && |src| >= 1 && src[|src| - 1] == '\0'
      modifies this, buffer
      ensures Valid() && Contents() == src[..|src| - 1] && (useHeap ==> fresh(Data()))
      ensures useHeap <==> |src| - 1 > SSO_CAPACITY
      ensures Capacity() == if |src| - 1 > SSO_CAPACITY then |src| - 1 else SSO_CAPACITY
    {
      var newSize := |src| - 1;
      if newSize > SSO_CAPACITY {
        var newData := new char[newSize + 1];
        heap := HeapStringData(newData, newSize, newSize);
        CopySeq(src, newData, 0);
        useHeap := true;
        assert newData[..] == src;
      } else {
        smallSize := newSize;
        CopySeq(src, buffer, 0);
        useHeap := false;
        assert buffer[..newSize + 1] == src;
        assert buffer[..newSize] == src[..newSize];
      }
    }

    /**
     * Construction from a C string: inline when it fits in 22 characters, otherwise a heap buffer
     * of capacity exactly its length. Content and terminator are copied.
     */
    constructor FromCString(str: seq<char>)
      requires NoZero(str)
      ensures Valid() && fresh(buffer) && fresh(Data())
      ensures Contents() == str
      ensures useHeap <==> |str| > SSO_CAPACITY
      ensures Capacity() == if |str| > SSO_CAPACITY then |str| else SSO_CAPACITY
    {
      buffer := new char[SSO_BUFFER_SIZE];
      heap := HeapStringData(buffer, 0, 0);
      new;
      InitFrom(str + ['\0']);
      assert (str + ['\0'])[..|str|] == str;
    }

    /** Copy construction: the same form choice, by the other's size. */
    constructor Copied(other: String)
      requires other.Valid()
      ensures Valid() && fresh(buffer) && fresh(Data())
      ensures Contents() == other.Contents()
      ensures useHeap <==> other.Size() > SSO_CAPACITY
      ensures Capacity() == if other.Size() > SSO_CAPACITY then other.Size() else SSO_CAPACITY
    {
      buffer := new char[SSO_BUFFER_SIZE];
      heap := HeapStringData(buffer, 0, 0);
      new;
      InitFrom(other.Data()[..other.Size() + 1]);
    }

    /**
     * Move construction. A heap source hands over its record and is left the empty inline
     * string; an inline source is copied and left as it was.
     */
    constructor Moved(other: String)
      requires other.Valid()
      modifies other, other.buffer
      ensures Valid() && fresh(buffer)
      ensures Contents() == old(other.Contents()) && Capacity() == old(other.Capacity())
      ensures useHeap == old(other.useHeap)
      ensures other.Valid()
      ensures old(other.useHeap) ==> Data() == old(other.Data()) && !other.useHeap && other.Contents() == []
      ensures !old(other.useHeap) ==> fresh(Data()) && other.Contents() == old(other.Contents())
      ensures !old(other.useHeap) ==> unchanged(other, other.buffer)
    {
      buffer := new char[SSO_BUFFER_SIZE];
      heap := HeapStringData(buffer, 0, 0);
      new;
      if other.useHeap {
        heap := other.heap;
        useHeap := true;
        other.ClearSmall();
      } else {
        Copy(other.buffer, 0, buffer, 0, SSO_BUFFER_SIZE);
        smallSize := other.smallSize;
        useHeap := false;
        assert buffer[..Size()] == other.buffer[..other.Size()];
      }
    }

    /**
     * Copy assignment: storage, tag and capacity are kept when the other's size fits the
     * capacity; otherwise a heap buffer of capacity exactly that size replaces them.
     */
    method CopyAssign(other: String)
      requires Valid() && other.Valid() && Repr() !! other.Repr()
      modifies this, Data()
      ensures Valid() && Contents() == other.Contents()
      ensures old(other.Size()) <= old(Capacity()) ==>
        Capacity() == old(Capacity()) && useHeap == old(useHeap) && Data() == old(Data())
      ensures old(other.Size()) > old(Capacity()) ==>
        useHeap && Capacity() == other.Size() && fresh(Data())
    {
      var newSize := other.Size();
      var src := other.Data();
      if newSize > Capacity() {
        var newData := new char[newSize + 1];
        heap := HeapStringData(newData, newSize, newSize);
        Copy(src, 0, newData, 0, newSize + 1);
        useHeap := true;
        assert newData[..newSize + 1][newSize] == '\0';
      } else {
        var data := Data();
        SetSize(newSize);
        Copy(src, 0, data, 0, newSize + 1);
        assert data[..newSize + 1][newSize] == '\0';
        assert data[..newSize] == data[..newSize + 1][..newSize];
      }
    }

    /**
     * Move assignment: the old heap buffer (if any) is released. A heap source hands over its
     * record and is left the empty inline string; an inline source is copied and left as it was.
     */
    method MoveAssign(other: String)
      requires Valid() && other.Valid() && Repr() !! other.Repr()
      modifies this, buffer, other, other.buffer
      ensures Valid() && Contents() == old(other.Contents())
      ensures Capacity() == old(other.Capacity()) && useHeap == old(other.useHeap)
      ensures other.Valid()
      ensures old(other.useHeap) ==> Data() == old(other.Data()) && !other.useHeap && other.Contents() == []
      ensures !old(other.useHeap) ==> Data() == buffer && other.Contents() == old(other.Contents())
      ensures !old(other.useHeap) ==> unchanged(other, other.buffer)
    {
      if other.useHeap {
        heap := other.heap;
        useHeap := true;
        other.ClearSmall();
      } else {
        Copy(other.buffer, 0, buffer, 0, SSO_BUFFER_SIZE);
        smallSize := other.smallSize;
        useHeap := false;
        assert buffer[..Size()] == other.buffer[..other.Size()];
      }
    }

    /**
     * swap: size, capacity, tag and content are exchanged in all four inline/heap combinations;
     * heap records change hands and inline records are copied, nothing is allocated.
     */
    method Swap(other: String)
      requires Valid() && other.Valid() && Repr() !! other.Repr()
      modifies this, buffer, other, other.buffer
      ensures Valid() && other.Valid() && Repr() !! other.Repr()
      ensures Contents() == old(other.Contents()) && other.Contents() == old(Contents())
      ensures Capacity() == old(other.Capacity()) && other.Capacity() == old(Capacity())
      ensures useHeap == old(other.useHeap) && other.useHeap == old(useHeap)
      ensures Data() == if useHeap then old(other.Data()) else buffer
      ensures other.Data() == if other.useHeap then old(Data()) else other.buffer
      decreases if useHeap then 0 else 1
    {
      if useHeap && other.useHeap {
        heap, other.heap := other.heap, heap;
      } else if !useHeap && !other.useHeap {
        SwapInline(other);
      } else if useHeap && !other.useHeap {
        HandHeapTo(other);
      } else {
        other.Swap(this);
      }
    }

    /** The swap of two inline strings: the buffers exchange their characters, and the sizes swap. */
    method SwapInline(other: String)
      requires Valid() && other.Valid() && Repr() !! other.Repr()
      requires !useHeap && !other.useHeap
      modifies this, buffer, other, other.buffer
      ensures Valid() && other.Valid() && Repr() !! other.Repr()
      ensures Contents() == old(other.Contents()) && other.Contents() == old(Contents())
      ensures Capacity() == old(other.Capacity()) && other.Capacity() == old(Capacity())
      ensures useHeap == old(other.useHeap) && other.useHeap == old(useHeap)
      ensures Data() == if useHeap then old(other.Data()) else buffer
      ensures other.Data() == if other.useHeap then old(Data()) else other.buffer
    {
      var tmp := buffer[..];
      Copy(other.buffer, 0, buffer, 0, SSO_BUFFER_SIZE);
      CopySeq(tmp, other.buffer, 0);
      smallSize, other.smallSize := other.smallSize, smallSize;
      assert buffer[..Size()] == old(other.buffer[..other.Size()]);
      assert other.buffer[..other.Size()] == tmp[..other.Size()];
    }

    /**
     * The swap of a heap string (this) with an inline one: the inline buffer and size are copied
     * here, and the other takes the heap record.
     */
    method HandHeapTo(other: String)
      requires Valid() && other.Valid() && Repr() !! other.Repr()
      requires useHeap && !other.useHeap
      modifies this, buffer, other, other.buffer
      ensures Valid() && other.Valid() && Repr() !! other.Repr()
      ensures Contents() == old(other.Contents()) && other.Contents() == old(Contents())
      ensures Capacity() == old(other.Capacity()) && other.Capacity() == old(Capacity())
      ensures useHeap == old(other.useHeap) && other.useHeap == old(useHeap)
      ensures Data() == if useHeap then old(other.Data()) else buffer
      ensures other.Data() == if other.useHeap then old(Data()) else other.buffer
    {
      var tmpHeap := heap;
      Copy(other.buffer, 0, buffer, 0, SSO_BUFFER_SIZE);
      smallSize := other.smallSize;
      useHeap := false;
      other.heap := tmpHeap;
      other.useHeap := true;
      assert buffer[..Size()] == old(other.buffer[..other.Size()]);
    }

    // ------------------------------------------------------------------------------------------
    // Modifications

    /**
     * insert(index, count, ch), with the growth path as evidently intended (see
     * CharBuffers.FillGrowthAsWritten). In place when the capacity suffices, and a no-op for
     * count 0; otherwise a heap buffer whose capacity is calc_capacity(size + count).
     */
    method InsertFill(index: nat, count: nat, ch: char)
      requires Valid() && index <= Size()
      modifies this, Data()
      ensures Valid() && Contents() == Splice(old(Contents()), index, Repeat(ch, count))
      ensures old(Size()) + count <= old(Capacity()) ==>
        Capacity() == old(Capacity()) && useHeap == old(useHeap) && Data() == old(Data())
      ensures old(Size()) + count > old(Capacity()) ==>
        useHeap && Capacity() == Growth.PolicyCapacity(old(Size()) + count) && fresh(Data())
    {
      var data := Data();
      var size := Size();
      if Capacity() < size + count {
        GrowFilling(index, count, ch);
      } else if count > 0 {
        FillInPlace(data, size, index, ch, count);
        SetSize(size + count);
        assert data[..size + count + 1][size + count] == '\0';
        assert data[..size + count] == data[..size + count + 1][..size + count];
      }
    }

    /** The growth path of insert(index, count, ch). */
    method GrowFilling(index: nat, count: nat, ch: char)
      requires Valid() && index <= Size() && Capacity() < Size() + count
      modifies this
      ensures Valid() && Contents() == Splice(old(Contents()), index, Repeat(ch, count))
      ensures useHeap && Capacity() == Growth.PolicyCapacity(old(Size()) + count) && fresh(Data())
    {
      var data := Data();
      var size := Size();
      var newCapacity := Growth.CalcCapacity(Capacity(), size + count);
      var newData := NewWithFill(data[..size], index, count, ch, newCapacity);
      heap := HeapStringData(newData, size + count, newCapacity);
      useHeap := true;
      assert newData[..size + count + 1][size + count] == '\0';
      assert newData[..size + count] == newData[..size + count + 1][..size + count];
    }

    /**
     * insert(index, str) for a C string that is foreign or points into this string's own
     * content: the content with str's characters (as strlen counts them before anything moves)
     * inserted before `index`. In place when the capacity suffices, whatever part of the own
     * buffer the source occupies; otherwise a new heap buffer of capacity
     * calc_capacity(size + count), filled before the old one is released.
     */
    method Insert(index: nat, str: CStr)
      requires Valid() && index <= Size()
      requires str.Foreign? ==> NoZero(str.chars)
      requires str.Inside? ==> str.offset <= Size()
      modifies this, Data()
      ensures Valid() && Contents() == Splice(old(Contents()), index, Text(old(Contents()), str))
      ensures old(Size() + |Text(Contents(), str)| <= Capacity()) ==>
        Capacity() == old(Capacity()) && useHeap == old(useHeap) && Data() == old(Data())
      ensures old(Size() + |Text(Contents(), str)| > Capacity()) ==>
        useHeap && Capacity() == Growth.PolicyCapacity(old(Size() + |Text(Contents(), str)|)) &&
        fresh(Data())
    {
      var count := ArgLength(Data(), Size(), str);
      var src := SourceChars(Data()[..], str, count);
      if Capacity() < Size() + count {
        GrowInserting(index, src);
      } else {
        InsertHere(index, str, count);
      }
    }

    /** The growth path of insert(index, str). */
    method GrowInserting(index: nat, src: seq<char>)
      requires Valid() && index <= Size() && Capacity() < Size() + |src|
      modifies this
      ensures Valid() && Contents() == Splice(old(Contents()), index, src)
      ensures useHeap && Capacity() == Growth.PolicyCapacity(old(Size()) + |src|) && fresh(Data())
    {
      var data := Data();
      var size := Size();
      var count := |src|;
      var newCapacity := Growth.CalcCapacity(Capacity(), size + count);
      var newData := NewWithInserted(data[..size], index, src, newCapacity);
      heap := HeapStringData(newData, size + count, newCapacity);
      useHeap := true;
      assert newData[..size + count + 1][size + count] == '\0';
      assert newData[..size + count] == newData[..size + count + 1][..size + count];
    }

    /** The in-place path of insert(index, str), `count` being the source's strlen. */
    method InsertHere(index: nat, str: CStr, count: nat)
      requires Valid() && index <= Size() && Size() + count <= Capacity()
      requires str.Foreign? ==> |str.chars| == count
      requires str.Inside? ==> str.offset + count <= Size()
      modifies this, Data()
      ensures Valid() && Contents() == Splice(old(Contents()), index, SourceChars(old(Data()[..]), str, count))
      ensures Capacity() == old(Capacity()) && useHeap == old(useHeap) && Data() == old(Data())
    {
      var data := Data();
      var size := Size();
      InsertInPlace(data, size, index, str, count);
      SetSize(size + count);
      assert data[..size + count + 1][size + count] == '\0';
      assert data[..size + count] == data[..size + count + 1][..size + count];
    }

    /**
     * resize(newSize, ch): truncation writes a terminator at newSize and keeps the capacity;
     * growth within the capacity fills with ch in place; beyond the capacity the string moves to
     * a heap buffer of capacity exactly newSize.
     */
    method Resize(newSize: nat, ch: char)
      requires Valid()
      modifies this, Data()
      ensures Valid()
      ensures Contents() == if newSize <= old(Size()) then old(Contents())[..newSize]
                            else old(Contents()) + Repeat(ch, newSize - old(Size()))
      ensures newSize <= old(Capacity()) ==>
        Capacity() == old(Capacity()) && useHeap == old(useHeap) && Data() == old(Data())
      ensures newSize > old(Capacity()) ==> useHeap && Capacity() == newSize && fresh(Data())
    {
      var oldSize := Size();
      var data := Data();
      if Capacity() < newSize {
        var newData := NewExtended(data[..oldSize], newSize, ch);
        useHeap := true;
        heap := HeapStringData(newData, newSize, newSize);
        assert newData[..newSize] == newData[..][..newSize];
      } else if newSize < oldSize {
        data[newSize] := '\0';
        SetSize(newSize);
        assert data[..newSize] == old(data[..oldSize])[..newSize];
      } else if newSize > oldSize {
        ExtendInPlace(data, oldSize, newSize, ch);
        SetSize(newSize);
        assert data[..newSize] == data[..newSize + 1][..newSize];
      }
    }

    /**
     * reserve(newCapacity): when newCapacity is at least the capacity the content moves to a
     * heap buffer of capacity exactly newCapacity; otherwise nothing changes.
     */
    method Reserve(newCapacity: nat)
      requires Valid()
      modifies this, Data()
      ensures Valid() && Contents() == old(Contents())
      ensures newCapacity >= old(Capacity()) ==> useHeap && Capacity() == newCapacity && fresh(Data())
      ensures newCapacity < old(Capacity()) ==>
        Capacity() == old(Capacity()) && useHeap == old(useHeap) && Data() == old(Data())
    {
      var size := Size();
      if newCapacity >= Capacity() {
        var newData := Reallocated(Data()[..size], newCapacity);
        heap := HeapStringData(newData, size, newCapacity);
        useHeap := true;
        assert newData[..size] == newData[..size + 1][..size];
      }
    }
  }
}
