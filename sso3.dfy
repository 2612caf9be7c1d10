/**
 * `sso3::string`: a small-string-optimised string whose inline form (23 characters, capacity 22)
 * and heap form (pointer, size, capacity) share storage. The inline/heap tag is packed: the heap
 * record keeps it in the top bit of its 64-bit capacity word, the inline record in bit 7 of its
 * last byte, which overlays the top byte of that word.
 *
 * The union is modelled as two records side by side: the inline buffer with its flag byte, and
 * the heap record. Every write of the heap record also writes the flag byte with the word's top
 * byte, as the overlay does; while the string is inline the heap record is stale and never read.
 */
module Sso3 {
  import opened CharBuffers
  import Growth

  const USE_HEAP_BIT: nat := 0x8000_0000_0000_0000
  const WORD_LIMIT: nat := 0x1_0000_0000_0000_0000
  const TOP_BYTE_UNIT: nat := 0x100_0000_0000_0000
  const SSO_BUFFER_SIZE: nat := 23
  const SSO_CAPACITY: nat := 22
  /** Sizes the model covers: below 2^62 every capacity the string computes fits under the flag bit. */
  const MAX_SIZE: nat := 0x4000_0000_0000_0000

  // ---------------------------------------------------------------------------------------------
  // Packed tags

  /** heap_string_data: the buffer, the size, and the capacity with the heap flag in bit 63. */
  datatype HeapStringData = HeapStringData(data: array<char>, size: nat, capacityAndHeapFlag: nat)
  {
    /** capacity(): the word with the flag bit masked off. */
    function Capacity(): (c: nat)
      ensures c < USE_HEAP_BIT
    {
      capacityAndHeapFlag % USE_HEAP_BIT
    }

    /** use_heap(): bit 63 of the word. */
    predicate UseHeap()
    {
      (capacityAndHeapFlag / USE_HEAP_BIT) % 2 == 1
    }

    /** set_capacity_and_heap_flag(capacity): the word becomes capacity | USE_HEAP_BIT. */
    function WithCapacityAndHeapFlag(capacity: nat): (h: HeapStringData)
      requires capacity < WORD_LIMIT
      ensures h.data == data && h.size == size && h.capacityAndHeapFlag < WORD_LIMIT
      ensures h.UseHeap() && h.Capacity() == capacity % USE_HEAP_BIT
    {
      this.(capacityAndHeapFlag := if (capacity / USE_HEAP_BIT) % 2 == 1 then capacity else capacity + USE_HEAP_BIT)
    }
  }

  /** small_string_data::size(): the flag byte read as a size; an inline size fits in 7 bits. */
  function SmallSize(sizeAndHeapFlag: nat): nat
  {
    sizeAndHeapFlag
  }

  /** small_string_data::use_heap(): bit 7 of the flag byte, set exactly when a byte reaches 128. */
  predicate SmallUseHeap(sizeAndHeapFlag: nat)
  {
    (sizeAndHeapFlag / 128) % 2 == 1
  }

  /** The byte of a 64-bit word that the inline flag byte overlays: the word shifted right by 56. */
  function TopByte(word: nat): (b: nat)
    ensures b < 256
  {
    (word / TOP_BYTE_UNIT) % 256
  }

  /**
   * Decoding a 64-bit capacity word: use_heap() holds exactly when the word reaches the flag bit,
   * and capacity() plus the flag bit, when set, gives back the word.
   */
  lemma HeapWordDecodes(h: HeapStringData)
    requires h.capacityAndHeapFlag < WORD_LIMIT
    ensures h.UseHeap() <==> h.capacityAndHeapFlag >= USE_HEAP_BIT
    ensures h.capacityAndHeapFlag == h.Capacity() + if h.UseHeap() then USE_HEAP_BIT else 0
  {
  }

  /**
   * Decoding the inline flag byte: the flag holds exactly when the byte reaches 128, and with the
   * flag clear the size read back is below 128.
   */
  lemma FlagByteDecodes(sizeAndHeapFlag: nat)
    requires sizeAndHeapFlag < 256
    ensures SmallUseHeap(sizeAndHeapFlag) <==> sizeAndHeapFlag >= 128
    ensures !SmallUseHeap(sizeAndHeapFlag) ==> SmallSize(sizeAndHeapFlag) < 128
  {
  }

  /** On a 64-bit word the top byte is the word shifted right by 56 bits. */
  lemma TopByteOfWord(word: nat)
    requires word < WORD_LIMIT
    ensures TopByte(word) == word / TOP_BYTE_UNIT
  {
  }

  /**
   * Setting a capacity below the flag bit and reading it back gives that capacity and the heap
   * flag; the flag byte that overlays the word then reads as "heap" too.
   */
  lemma CapacityFlagRoundTrip(h: HeapStringData, capacity: nat)
    requires capacity < USE_HEAP_BIT
    ensures h.WithCapacityAndHeapFlag(capacity).Capacity() == capacity
    ensures h.WithCapacityAndHeapFlag(capacity).UseHeap()
    ensures SmallUseHeap(TopByte(h.WithCapacityAndHeapFlag(capacity).capacityAndHeapFlag))
  {
    FlagOverlay(h.WithCapacityAndHeapFlag(capacity).capacityAndHeapFlag);
  }

  /** Bit 7 of the top byte of a 64-bit word is its bit 63. */
  lemma FlagOverlay(word: nat)
    requires word < WORD_LIMIT
    ensures SmallUseHeap(TopByte(word)) <==> (word / USE_HEAP_BIT) % 2 == 1
  {
    var t := word / TOP_BYTE_UNIT;
    assert t < 256;
    assert t / 128 == word / USE_HEAP_BIT;
  }

  /** set_size_and_reset_heap_flag(size) and reading back: the size, and the inline flag. */
  lemma SizeFlagRoundTrip(size: nat)
    requires size <= SSO_CAPACITY
    ensures SmallSize(size) == size && !SmallUseHeap(size)
  {
  }

  // ---------------------------------------------------------------------------------------------
  // The string

  class String {
    /** _small._buffer */
    const buffer: array<char>
    /** _small._size_and_heap_flag: the last byte of the union */
    var sizeAndHeapFlag: nat
    /** _heap */
    var heap: HeapStringData

    /** use_heap(): decided by the inline flag byte. */
    predicate UseHeap()
      reads this
    {
      SmallUseHeap(sizeAndHeapFlag)
    }

    /** data(): the active buffer. */
    function Data(): array<char>
      reads this
    {
      if UseHeap() then heap.data else buffer
    }

    function Size(): nat
      reads this
    {
      if UseHeap() then heap.size else SmallSize(sizeAndHeapFlag)
    }

    function Capacity(): nat
      reads this
    {
      if UseHeap() then heap.Capacity() else SSO_CAPACITY
    }

    ghost predicate Valid()
      reads this, Data()
    {
      buffer.Length == SSO_BUFFER_SIZE && sizeAndHeapFlag < 256 &&
      (if UseHeap() then
         heap.capacityAndHeapFlag < WORD_LIMIT && heap.UseHeap() &&
         sizeAndHeapFlag == TopByte(heap.capacityAndHeapFlag) &&
         heap.data != buffer && heap.data.Length == heap.Capacity() + 1
       else
         sizeAndHeapFlag <= SSO_CAPACITY) &&
      Size() <= Capacity() && Data()[Size()] == '\0'
    }

    /** The characters before the terminator. */
    ghost function Contents(): seq<char>
      reads this, Data()
      requires Valid()
    {
      Data()[..Size()]
    }

    /** The storage this string owns. */
    ghost function Repr(): set<object>
      reads this
    {
      {this, buffer} + if UseHeap() then {heap.data} else {}
    }

    // ------------------------------------------------------------------------------------------
    // Private helpers of the source

    /** set_heap_data(size, capacity, data); the flag byte follows the overlaid word. */
    method SetHeapData(size: nat, capacity: nat, data: array<char>)
      requires capacity < USE_HEAP_BIT
      modifies this
      ensures heap == old(heap).(data := data, size := size).WithCapacityAndHeapFlag(capacity)
      ensures sizeAndHeapFlag == TopByte(heap.capacityAndHeapFlag) && sizeAndHeapFlag < 256
      ensures UseHeap() && Data() == data && Size() == size && Capacity() == capacity
    {
      heap := heap.(size := size, data := data).WithCapacityAndHeapFlag(capacity);
      sizeAndHeapFlag := TopByte(heap.capacityAndHeapFlag);
      CapacityFlagRoundTrip(old(heap).(data := data, size := size), capacity);
    }

    /** set_heap_data(src): copies a whole heap record. */
    method SetHeapRecord(src: HeapStringData)
      requires src.capacityAndHeapFlag < WORD_LIMIT && src.UseHeap()
      modifies this
      ensures heap == src && UseHeap()
      ensures sizeAndHeapFlag == TopByte(heap.capacityAndHeapFlag) && sizeAndHeapFlag < 256
      ensures Data() == src.data && Size() == src.size && Capacity() == src.Capacity()
    {
      heap := src;
      sizeAndHeapFlag := TopByte(src.capacityAndHeapFlag);
      FlagOverlay(src.capacityAndHeapFlag);
    }

    /** set_small_data(size, src): copies the characters and the terminator, then sets the size. */
    method SetSmallData(size: nat, src: seq<char>)
      requires buffer.Length == SSO_BUFFER_SIZE && size <= SSO_CAPACITY && |src| == size + 1
      modifies this, buffer
      ensures heap == old(heap) && sizeAndHeapFlag == size && !UseHeap() && Size() == size
      ensures buffer[..size + 1] == src && buffer[size + 1..] == old(buffer[size + 1..])
    {
      CopySeq(src, buffer, 0);
      sizeAndHeapFlag := size;
      assert buffer[size + 1..] == old(buffer[size + 1..]);
    }

    /** set_small_data(other._small): copies the whole inline record. */
    method SetSmallRecord(other: String)
      requires other != this && other.buffer != buffer
      requires buffer.Length == SSO_BUFFER_SIZE && other.buffer.Length == SSO_BUFFER_SIZE
      modifies this, buffer
      ensures heap == old(heap) && sizeAndHeapFlag == other.sizeAndHeapFlag
      ensures buffer[..] == other.buffer[..]
    {
      Copy(other.buffer, 0, buffer, 0, SSO_BUFFER_SIZE);
      sizeAndHeapFlag := other.sizeAndHeapFlag;
    }

    /** clear_small_data(): empty inline string. */
    method ClearSmallData()
      requires buffer.Length == SSO_BUFFER_SIZE
      modifies this, buffer
      ensures heap == old(heap) && sizeAndHeapFlag == 0 && !UseHeap() && Size() == 0 && buffer[0] == '\0'
    {
      buffer[0] := '\0';
      sizeAndHeapFlag := 0;
    }

    /** The size store of insert and resize: `_heap._size`, or the inline flag byte. */
    method SetSize(size: nat)
      requires size <= Capacity() && (!UseHeap() ==> size <= SSO_CAPACITY)
      modifies this
      ensures UseHeap() == old(UseHeap()) && Data() == old(Data()) && Capacity() == old(Capacity())
      ensures Size() == size
      ensures UseHeap() ==> heap.capacityAndHeapFlag == old(heap.capacityAndHeapFlag) &&
                            sizeAndHeapFlag == old(sizeAndHeapFlag)
    {
      if UseHeap() {
        heap := heap.(size := size);
      } else {
        sizeAndHeapFlag := size;
      }
    }

    // ------------------------------------------------------------------------------------------
    // Construction, copy and move

    /** Default construction: the empty inline string. */
    constructor ()
      ensures Valid() && fresh(buffer) && !UseHeap()
      ensures Contents() == [] && Capacity() == SSO_CAPACITY
    {
      buffer := new char[SSO_BUFFER_SIZE];
      heap := HeapStringData(buffer, 0, 0);
      new;
      ClearSmallData();
    }

    /**
     * Construction from a C string: inline when it fits in 22 characters, otherwise a heap buffer
     * of capacity exactly its length. Content and terminator are copied.
     */
    constructor FromCString(str: seq<char>)
      requires NoZero(str) && |str| < MAX_SIZE
      ensures Valid() && fresh(buffer) && fresh(Data())
      ensures Contents() == str
      ensures UseHeap() <==> |str| > SSO_CAPACITY
      ensures Capacity() == if |str| > SSO_CAPACITY then |str| else SSO_CAPACITY
    {
      buffer := new char[SSO_BUFFER_SIZE];
      heap := HeapStringData(buffer, 0, 0);
      new;
      var newSize := |str|;
      if newSize > SSO_CAPACITY {
        var newData := new char[newSize + 1];
        CopySeq(str + ['\0'], newData, 0);
        SetHeapData(newSize, newSize, newData);
        assert newData[..newSize + 1] == str + ['\0'];
      } else {
        SetSmallData(newSize, str + ['\0']);
        assert buffer[..newSize + 1][newSize] == '\0';
      }
    }

    /** Copy construction: the same form choice as from a C string, by the other's size. */
    constructor Copied(other: String)
      requires other.Valid() && other.Size() < MAX_SIZE
      ensures Valid() && fresh(buffer) && fresh(Data())
      ensures Contents() == other.Contents()
      ensures UseHeap() <==> other.Size() > SSO_CAPACITY
      ensures Capacity() == if other.Size() > SSO_CAPACITY then other.Size() else SSO_CAPACITY
    {
      buffer := new char[SSO_BUFFER_SIZE];
      heap := HeapStringData(buffer, 0, 0);
      new;
      var newSize := other.Size();
      var src := other.Data();
      if newSize > SSO_CAPACITY {
        var newData := new char[newSize + 1];
        Copy(src, 0, newData, 0, newSize + 1);
        SetHeapData(newSize, newSize, newData);
        assert newData[..newSize + 1][newSize] == '\0';
      } else {
        SetSmallData(newSize, src[..newSize + 1]);
        assert buffer[..newSize + 1][newSize] == '\0';
        assert buffer[..newSize] == buffer[..newSize + 1][..newSize];
      }
    }

    /**
     * Move construction. A heap source hands over its record and is left the empty inline
     * string; an inline source is copied and left as it was.
     */
    constructor Moved(other: String)
      requires other.Valid()
      modifies other, other.buffer
      ensures Valid() && fresh(buffer)
      ensures Contents() == old(other.Contents()) && Capacity() == old(other.Capacity())
      ensures UseHeap() == old(other.UseHeap())
      ensures other.Valid()
      ensures old(other.UseHeap()) ==> Data() == old(other.Data()) && !other.UseHeap() && other.Contents() == []
      ensures !old(other.UseHeap()) ==> fresh(Data()) && other.Contents() == old(other.Contents())
      ensures !old(other.UseHeap()) ==> unchanged(other, other.buffer)
    {
      buffer := new char[SSO_BUFFER_SIZE];
      heap := HeapStringData(buffer, 0, 0);
      new;
      if other.UseHeap() {
        SetHeapRecord(other.heap);
        other.ClearSmallData();
      } else {
        SetSmallRecord(other);
        assert buffer[..Size()] == other.buffer[..other.Size()];
      }
    }

    /**
     * Copy assignment: storage, form and capacity are kept when the other's size fits the
     * capacity; otherwise a heap buffer of capacity exactly that size replaces them.
     */
    method CopyAssign(other: String)
      requires Valid() && other.Valid() && Repr() !! other.Repr()
      requires other.Size() < MAX_SIZE
      modifies this, Data()
      ensures Valid() && Contents() == other.Contents()
      ensures old(other.Size()) <= old(Capacity()) ==>
        Capacity() == old(Capacity()) && UseHeap() == old(UseHeap()) && Data() == old(Data())
      ensures old(other.Size()) > old(Capacity()) ==>
        UseHeap() && Capacity() == other.Size() && fresh(Data())
    {
      var newSize := other.Size();
      if newSize > Capacity() {
        var newData := new char[newSize + 1];
        Copy(other.Data(), 0, newData, 0, newSize + 1);
        SetHeapData(newSize, newSize, newData);
        assert newData[..newSize + 1][newSize] == '\0';
      } else {
        CopyWithinCapacity(other);
      }
    }

    /** The branch of copy assignment that reuses the storage: the size is stored, then the copy. */
    method CopyWithinCapacity(other: String)
      requires Valid() && other.Valid() && Repr() !! other.Repr()
      requires other.Size() <= Capacity()
      modifies this, Data()
      ensures Valid() && Contents() == other.Contents()
      ensures Capacity() == old(Capacity()) && UseHeap() == old(UseHeap()) && Data() == old(Data())
    {
      var newSize := other.Size();
      var data := Data();
      SetSize(newSize);
      Copy(other.Data(), 0, data, 0, newSize + 1);
      assert data[..newSize + 1][newSize] == '\0';
      assert data[..newSize] == data[..newSize + 1][..newSize];
    }

    /**
     * Move assignment: the old heap buffer (if any) is released. A heap source hands over its
     * record and is left the empty inline string; an inline source is copied and left as it was.
     */
    method MoveAssign(other: String)
      requires Valid() && other.Valid() && Repr() !! other.Repr()
      modifies this, buffer, other, other.buffer
      ensures Valid() && Contents() == old(other.Contents())
      ensures Capacity() == old(other.Capacity()) && UseHeap() == old(other.UseHeap())
      ensures other.Valid()
      ensures old(other.UseHeap()) ==> Data() == old(other.Data()) && !other.UseHeap() && other.Contents() == []
      ensures !old(other.UseHeap()) ==> Data() == buffer && other.Contents() == old(other.Contents())
      ensures !old(other.UseHeap()) ==> unchanged(other, other.buffer)
    {
      if other.UseHeap() {
        SetHeapRecord(other.heap);
        other.ClearSmallData();
      } else {
        SetSmallRecord(other);
        assert buffer[..Size()] == other.buffer[..other.Size()];
      }
    }

    /**
     * swap: size, capacity, form and content are exchanged in all four inline/heap combinations;
     * heap buffers change hands and inline characters are copied, nothing is allocated.
     */
    method Swap(other: String)
      requires Valid() && other.Valid() && Repr() !! other.Repr()
      modifies this, buffer, other, other.buffer
      ensures Valid() && other.Valid() && Repr() !! other.Repr()
      ensures Contents() == old(other.Contents()) && other.Contents() == old(Contents())
      ensures Capacity() == old(other.Capacity()) && other.Capacity() == old(Capacity())
      ensures UseHeap() == old(other.UseHeap()) && other.UseHeap() == old(UseHeap())
      ensures Data() == if UseHeap() then old(other.Data()) else buffer
      ensures other.Data() == if other.UseHeap() then old(Data()) else other.buffer
      decreases if UseHeap() then 0 else 1
    {
      if UseHeap() && other.UseHeap() {
        heap, other.heap := other.heap, heap;
        sizeAndHeapFlag, other.sizeAndHeapFlag := other.sizeAndHeapFlag, sizeAndHeapFlag;
      } else if !UseHeap() && !other.UseHeap() {
        SwapInline(other);
      } else if UseHeap() && !other.UseHeap() {
        HandHeapTo(other);
      } else {
        other.Swap(this);
      }
    }

    /** The swap of two inline strings: the buffers exchange their characters, the words their sizes. */
    method SwapInline(other: String)
      requires Valid() && other.Valid() && Repr() !! other.Repr()
      requires !UseHeap() && !other.UseHeap()
      modifies this, buffer, other, other.buffer
      ensures Valid() && other.Valid() && Repr() !! other.Repr()
      ensures Contents() == old(other.Contents()) && other.Contents() == old(Contents())
      ensures Capacity() == old(other.Capacity()) && other.Capacity() == old(Capacity())
      ensures UseHeap() == old(other.UseHeap()) && other.UseHeap() == old(UseHeap())
      ensures Data() == if UseHeap() then old(other.Data()) else buffer
      ensures other.Data() == if other.UseHeap() then old(Data()) else other.buffer
    {
      var tmp := buffer[..];
      ghost var otherChars := other.buffer[..];
      Copy(other.buffer, 0, buffer, 0, SSO_BUFFER_SIZE);
      assert buffer[..] == otherChars;
      CopySeq(tmp, other.buffer, 0);
      assert other.buffer[..] == tmp;
      sizeAndHeapFlag, other.sizeAndHeapFlag := other.sizeAndHeapFlag, sizeAndHeapFlag;
      assert buffer[..Size()] == otherChars[..Size()];
      assert other.buffer[..other.Size()] == tmp[..other.Size()];
    }

    /**
     * The swap of a heap string (this) with an inline one: this string takes over the other's
     * inline record and the other the heap record.
     */
    method HandHeapTo(other: String)
      requires Valid() && other.Valid() && Repr() !! other.Repr()
      requires UseHeap() && !other.UseHeap()
      modifies this, buffer, other, other.buffer
      ensures Valid() && other.Valid() && Repr() !! other.Repr()
      ensures Contents() == old(other.Contents()) && other.Contents() == old(Contents())
      ensures Capacity() == old(other.Capacity()) && other.Capacity() == old(Capacity())
      ensures UseHeap() == old(other.UseHeap()) && other.UseHeap() == old(UseHeap())
      ensures Data() == if UseHeap() then old(other.Data()) else buffer
      ensures other.Data() == if other.UseHeap() then old(Data()) else other.buffer
    {
      var tmpHeap := heap;
      SetSmallRecord(other);
      other.SetHeapRecord(tmpHeap);
      assert buffer[..Size()] == old(other.buffer[..other.Size()]);
    }

    // ------------------------------------------------------------------------------------------
    // Modifications

    /**
     * insert(index, count, ch), with the growth path as evidently intended (the code copies the
     * tail to the wrong place when it grows; see CharBuffers.FillGrowthAsWritten). In place when
     * the capacity suffices, and a no-op for count 0; otherwise a heap buffer whose capacity is
     * calc_capacity(size + count).
     */
    method InsertFill(index: nat, count: nat, ch: char)
      requires Valid() && index <= Size() && Size() + count < MAX_SIZE
      modifies this, Data()
      ensures Valid() && Contents() == Splice(old(Contents()), index, Repeat(ch, count))
      ensures old(Size()) + count <= old(Capacity()) ==>
        Capacity() == old(Capacity()) && UseHeap() == old(UseHeap()) && Data() == old(Data())
      ensures old(Size()) + count > old(Capacity()) ==>
        UseHeap() && Capacity() == Growth.PolicyCapacity(old(Size()) + count) && fresh(Data())
    {
      var data := Data();
      var size := Size();
      if Capacity() < size + count {
        GrowFilling(index, count, ch);
      } else if count > 0 {
        FillInPlace(data, size, index, ch, count);
        SetSize(size + count);
        assert data[..size + count + 1][size + count] == '\0';
        assert data[..size + count] == data[..size + count + 1][..size + count];
      }
    }

    /** The growth path of insert(index, count, ch). */
    method GrowFilling(index: nat, count: nat, ch: char)
      requires Valid() && index <= Size() && Capacity() < Size() + count < MAX_SIZE
      modifies this
      ensures Valid() && Contents() == Splice(old(Contents()), index, Repeat(ch, count))
      ensures UseHeap() && Capacity() == Growth.PolicyCapacity(old(Size()) + count) && fresh(Data())
    {
      var data := Data();
      var size := Size();
      var newCapacity := Growth.CalcCapacity(Capacity(), size + count);
      var newData := NewWithFill(data[..size], index, count, ch, newCapacity);
      SetHeapData(size + count, newCapacity, newData);
      assert newData[..size + count + 1][size + count] == '\0';
      assert newData[..size + count] == newData[..size + count + 1][..size + count];
    }

    /**
     * insert(index, str) for a C string `str` that is foreign or points into this string's own
     * content: the result is the content with str's characters (up to its terminator, as strlen
     * counts them before anything moves) inserted before `index`. In place when the capacity
     * suffices, even when the source lies inside the buffer before, at or after `index`;
     * otherwise a new heap buffer of capacity calc_capacity(size + count), filled before the old
     * one is released.
     */
    method Insert(index: nat, str: CStr)
      requires Valid() && index <= Size()
      requires str.Foreign? ==> NoZero(str.chars)
      requires str.Inside? ==> str.offset <= Size()
      requires Size() + |Text(Contents(), str)| < MAX_SIZE
      modifies this, Data()
      ensures Valid() && Contents() == Splice(old(Contents()), index, Text(old(Contents()), str))
      ensures old(Size() + |Text(Contents(), str)| <= Capacity()) ==>
        Capacity() == old(Capacity()) && UseHeap() == old(UseHeap()) && Data() == old(Data())
      ensures old(Size() + |Text(Contents(), str)| > Capacity()) ==>
        UseHeap() && Capacity() == Growth.PolicyCapacity(old(Size() + |Text(Contents(), str)|)) &&
        fresh(Data())
    {
      var data := Data();
      var size := Size();
      ghost var content := Contents();
      var count := ArgLength(data, size, str);
      var src := SourceChars(data[..], str, count);
      assert data[..size] == content;
      assert src == Text(content, str) && count == |src|;
      if Capacity() < size + count {
        GrowInserting(index, src);
      } else {
        InsertHere(index, str, count);
      }
    }

    /** The growth path of insert(index, str). */
    method GrowInserting(index: nat, src: seq<char>)
      requires Valid() && index <= Size() && Capacity() < Size() + |src| < MAX_SIZE
      modifies this
      ensures Valid() && Contents() == Splice(old(Contents()), index, src)
      ensures UseHeap() && Capacity() == Growth.PolicyCapacity(old(Size()) + |src|) && fresh(Data())
    {
      var data := Data();
      var size := Size();
      var count := |src|;
      var newCapacity := Growth.CalcCapacity(Capacity(), size + count);
      var newData := NewWithInserted(data[..size], index, src, newCapacity);
      SetHeapData(size + count, newCapacity, newData);
      assert newData[..size + count + 1][size + count] == '\0';
      assert newData[..size + count] == newData[..size + count + 1][..size + count];
    }

    /** The in-place path of insert(index, str), `count` being the source's strlen. */
    method InsertHere(index: nat, str: CStr, count: nat)
      requires Valid() && index <= Size() && Size() + count <= Capacity()
      requires str.Foreign? ==> |str.chars| == count
      requires str.Inside? ==> str.offset + count <= Size()
      modifies this, Data()
      ensures Valid() && Contents() == Splice(old(Contents()), index, SourceChars(old(Data()[..]), str, count))
      ensures Capacity() == old(Capacity()) && UseHeap() == old(UseHeap()) && Data() == old(Data())
    {
      var data := Data();
      var size := Size();
      InsertInPlace(data, size, index, str, count);
      SetSize(size + count);
      assert data[..size + count + 1][size + count] == '\0';
      assert data[..size + count] == data[..size + count + 1][..size + count];
    }

    /**
     * resize(newSize, ch): truncation writes a terminator at newSize; growth within the capacity
     * fills with ch in place; beyond the capacity the string moves to a heap buffer of capacity
     * exactly newSize.
     */
    method Resize(newSize: nat, ch: char)
      requires Valid() && newSize < MAX_SIZE
      modifies this, Data()
      ensures Valid()
      ensures Contents() == if newSize <= old(Size()) then old(Contents())[..newSize]
                            else old(Contents()) + Repeat(ch, newSize - old(Size()))
      ensures newSize <= old(Capacity()) ==>
        Capacity() == old(Capacity()) && UseHeap() == old(UseHeap()) && Data() == old(Data())
      ensures newSize > old(Capacity()) ==> UseHeap() && Capacity() == newSize && fresh(Data())
    {
      var oldSize := Size();
      var data := Data();
      if Capacity() < newSize {
        var newData := NewExtended(data[..oldSize], newSize, ch);
        SetHeapData(newSize, newSize, newData);
        assert newData[..newSize] == newData[..][..newSize];
      } else if newSize < oldSize {
        data[newSize] := '\0';
        SetSize(newSize);
        assert data[..newSize] == old(data[..oldSize])[..newSize];
      } else if newSize > oldSize {
        ExtendInPlace(data, oldSize, newSize, ch);
        SetSize(newSize);
        assert data[..newSize] == data[..newSize + 1][..newSize];
      }
    }

    /**
     * reserve(newCapacity): when newCapacity is at least the capacity (even equal, even 22 from
     * the inline form) the content moves to a heap buffer of capacity exactly newCapacity;
     * otherwise nothing changes.
     */
    method Reserve(newCapacity: nat)
      requires Valid() && newCapacity < MAX_SIZE
      modifies this, Data()
      ensures Valid() && Contents() == old(Contents())
      ensures newCapacity >= old(Capacity()) ==> UseHeap() && Capacity() == newCapacity && fresh(Data())
      ensures newCapacity < old(Capacity()) ==>
        Capacity() == old(Capacity()) && UseHeap() == old(UseHeap()) && Data() == old(Data())
    {
      var size := Size();
      if newCapacity >= Capacity() {
        var newData := Reallocated(Data()[..size], newCapacity);
        SetHeapData(size, newCapacity, newData);
        assert newData[..size] == newData[..size + 1][..size];
      }
    }
  }
}
