/**
 * Character buffers as the string variants use them: the C library primitives they call
 * (memcpy, memmove, memset, strlen) over `array<char>`, the value-level meaning of an insertion
 * (Splice), the alias-safe in-place string insertion that every variant shares, and the two
 * growth-path builders that fill a freshly allocated buffer before the old one is released.
 */
module CharBuffers {
  import Growth

  /**
   * A C-string argument. `Foreign(chars)` lies in storage that the string being changed does not
   * own; `chars` are the characters before its terminator. `Inside(offset)` points `offset`
   * characters into that string's own buffer (as `str.c_str() + offset` does).
   */
  datatype CStr = Foreign(chars: seq<char>) | Inside(offset: nat)

  /** What strlen sees: no terminator among the characters. */
  predicate NoZero(s: seq<char>)
  {
    forall i :: 0 <= i < |s| ==> s[i] != '\0'
  }

  /** The content after inserting `src` before position `index` of `s`. */
  function Splice(s: seq<char>, index: nat, src: seq<char>): (r: seq<char>)
    requires index <= |s|
    ensures |r| == |s| + |src|
  {
    s[..index] + src + s[index..]
  }

  /** Removing what was inserted gives the original back, and the inserted part is `src`. */
  lemma SpliceInverse(s: seq<char>, index: nat, src: seq<char>)
    requires index <= |s|
    ensures Splice(s, index, src)[..index] + Splice(s, index, src)[index + |src|..] == s
    ensures Splice(s, index, src)[index..index + |src|] == src
  {
    var r := Splice(s, index, src);
    assert r[..index] == s[..index];
    assert r[index + |src|..] == s[index..];
  }

  /** Inserting at the end appends; inserting nothing changes nothing. */
  lemma SpliceEdges(s: seq<char>, src: seq<char>)
    ensures Splice(s, |s|, src) == s + src
    ensures forall i :: 0 <= i <= |s| ==> Splice(s, i, []) == s
  {
    assert s[|s|..] == [];
    forall i | 0 <= i <= |s|
      ensures Splice(s, i, []) == s
    {
      assert s[..i] + s[i..] == s;
    }
  }

  /** The content expected by the insert_self test: "6789" inserted at 3 into "0123456789". */
  lemma InsertSelfExpected()
    ensures Splice("0123456789", 3, "6789") == "01267893456789"
  {
  }

  /** `n` copies of `ch`. */
  function Repeat(ch: char, n: nat): (r: seq<char>)
    ensures |r| == n && forall i :: 0 <= i < n ==> r[i] == ch
  {
    seq(n, _ => ch)
  }

  /** The characters a C-string argument denotes, `count` of them, read from buffer contents `buf`. */
  function SourceChars(buf: seq<char>, str: CStr, count: nat): seq<char>
    requires str.Foreign? ==> |str.chars| == count
    requires str.Inside? ==> str.offset + count <= |buf|
  {
    match str
    case Foreign(chars) => chars
    case Inside(offset) => buf[offset..offset + count]
  }

  /** The length strlen reports for characters `s` followed by a terminator: up to the first zero. */
  function CLength(s: seq<char>): (n: nat)
    ensures n <= |s| && NoZero(s[..n])
    ensures n < |s| ==> s[n] == '\0'
  {
    if |s| == 0 || s[0] == '\0' then 0 else 1 + CLength(s[1..])
  }

  /** Any length with the two strlen properties is CLength. */
  lemma {:induction false} CLengthUnique(s: seq<char>, n: nat)
    requires n <= |s| && NoZero(s[..n])
    requires n < |s| ==> s[n] == '\0'
    ensures CLength(s) == n
  {
    if n > 0 {
      assert s[..n][0] == s[0];
      assert s[1..][..n - 1] == s[..n][1..];
      CLengthUnique(s[1..], n - 1);
    }
  }

  /**
   * The characters a C-string argument denotes when the string's content is `content` (its
   * terminator follows): a foreign string's own characters, or those from `offset` up to the
   * first zero of the string's own buffer.
   */
  function Text(content: seq<char>, str: CStr): (r: seq<char>)
    requires str.Inside? ==> str.offset <= |content|
    ensures str.Inside? ==> str.offset + |r| <= |content|
  {
    match str
    case Foreign(chars) => chars
    case Inside(offset) => content[offset..][..CLength(content[offset..])]
  }

  // ---------------------------------------------------------------------------------------------
  // C library primitives

  /** memcpy: copies `n` characters; within one array the two ranges must not overlap. */
  method Copy(src: array<char>, from: nat, dst: array<char>, to: nat, n: nat)
    requires from + n <= src.Length && to + n <= dst.Length
    requires src == dst ==> from + n <= to || to + n <= from
    modifies dst
    ensures dst[to..to + n] == old(src[from..from + n])
    ensures forall k :: 0 <= k < dst.Length && !(to <= k < to + n) ==> dst[k] == old(dst[k])
  {
    var i := 0;
    while i < n
      invariant i <= n
      invariant forall k :: to <= k < to + i ==> dst[k] == old(src[k - to + from])
      invariant forall k :: 0 <= k < dst.Length && !(to <= k < to + i) ==> dst[k] == old(dst[k])
    {
      dst[to + i] := src[from + i];
      i := i + 1;
    }
  }

  /** memcpy from a C string the string does not own. */
  method CopySeq(src: seq<char>, dst: array<char>, to: nat)
    requires to + |src| <= dst.Length
    modifies dst
    ensures dst[to..to + |src|] == src
    ensures forall k :: 0 <= k < dst.Length && !(to <= k < to + |src|) ==> dst[k] == old(dst[k])
  {
    var i := 0;
    while i < |src|
      invariant i <= |src|
      invariant forall k :: to <= k < to + i ==> dst[k] == src[k - to]
      invariant forall k :: 0 <= k < dst.Length && !(to <= k < to + i) ==> dst[k] == old(dst[k])
    {
      dst[to + i] := src[i];
      i := i + 1;
    }
  }

  /** memmove within one buffer: the ranges may overlap; it copies backwards when moving right. */
  method Move(a: array<char>, from: nat, to: nat, n: nat)
    requires from + n <= a.Length && to + n <= a.Length
    modifies a
    ensures a[to..to + n] == old(a[from..from + n])
    ensures forall k :: 0 <= k < a.Length && !(to <= k < to + n) ==> a[k] == old(a[k])
  {
    if to <= from {
      var i := 0;
      while i < n
        invariant i <= n
        invariant forall k :: to <= k < to + i ==> a[k] == old(a[k - to + from])
        invariant forall k :: 0 <= k < a.Length && !(to <= k < to + i) ==> a[k] == old(a[k])
      {
        a[to + i] := a[from + i];
        i := i + 1;
      }
    } else {
      var i := n;
      while i > 0
        invariant 0 <= i <= n
        invariant forall k :: to + i <= k < to + n ==> a[k] == old(a[k - to + from])
        invariant forall k :: 0 <= k < a.Length && !(to + i <= k < to + n) ==> a[k] == old(a[k])
      {
        i := i - 1;
        a[to + i] := a[from + i];
      }
    }
  }

  /** memset: `n` copies of `ch` from position `at`. */
  method Set(a: array<char>, at: nat, ch: char, n: nat)
    requires at + n <= a.Length
    modifies a
    ensures a[at..at + n] == Repeat(ch, n)
    ensures forall k :: 0 <= k < a.Length && !(at <= k < at + n) ==> a[k] == old(a[k])
  {
    var i := 0;
    while i < n
      invariant i <= n
      invariant forall k :: at <= k < at + i ==> a[k] == ch
      invariant forall k :: 0 <= k < a.Length && !(at <= k < at + i) ==> a[k] == old(a[k])
    {
      a[at + i] := ch;
      i := i + 1;
    }
  }

  /** strlen of the C string that starts at `from`; `end` is a terminator the scan must reach. */
  method Strlen(a: array<char>, from: nat, ghost end: nat) returns (n: nat)
    requires from <= end < a.Length && a[end] == '\0'
    ensures from + n <= end && a[from + n] == '\0'
    ensures n == CLength(a[from..end])
  {
    n := 0;
    while a[from + n] != '\0'
      invariant from + n <= end
      invariant NoZero(a[from..from + n])
      decreases end - (from + n)
    {
      n := n + 1;
    }
    assert a[from..end][..n] == a[from..from + n];
    CLengthUnique(a[from..end], n);
  }

  /**
   * strlen of an `insert` argument for a string whose content is data[..size]: a foreign string's
   * length, or a scan of the string's own buffer from the offset.
   */
  method ArgLength(data: array<char>, size: nat, str: CStr) returns (count: nat)
    requires size < data.Length && data[size] == '\0'
    requires str.Foreign? ==> NoZero(str.chars)
    requires str.Inside? ==> str.offset <= size
    ensures count == |Text(data[..size], str)|
    ensures str.Foreign? ==> count == |str.chars|
    ensures str.Inside? ==> str.offset + count <= size
    ensures SourceChars(data[..], str, count) == Text(data[..size], str)
  {
    match str {
      case Foreign(chars) =>
        count := |chars|;
      case Inside(offset) =>
        count := Strlen(data, offset, size);
        assert data[offset..size] == data[..size][offset..];
    }
  }

  // ---------------------------------------------------------------------------------------------
  // Insertion

  /**
   * The in-place path of `insert(index, str)`, identical in every variant: shift the tail
   * [index, size] (terminator included) right by `count` with memmove, then copy the source into
   * the gap. A source inside the buffer whose end lies in [index, size] was partly or wholly moved
   * by the shift: the part before `index` is copied from where it was, the rest is read at its
   * shifted address (+count). A foreign source cannot have moved.
   */
  method InsertInPlace(data: array<char>, size: nat, index: nat, str: CStr, count: nat)
    requires index <= size && size + count < data.Length
    requires str.Foreign? ==> |str.chars| == count
    requires str.Inside? ==> str.offset + count <= size
    modifies data
    ensures data[..size + count + 1] ==
      Splice(old(data[..size]), index, SourceChars(old(data[..]), str, count)) + [old(data[size])]
    ensures data[size + count + 1..] == old(data[size + count + 1..])
  {
    ghost var before := data[..];
    Move(data, index, index + count, size + 1 - index);
    Shifted(data, size, index, count, before);
    FillGap(data, size, index, str, count, before);
    SpliceLayout(data, size, index, count, before, SourceChars(before, str, count));
    assert old(data[..size]) == before[..size];
  }

  /** The copy into the gap that the shift opened: the source's characters as they were before it. */
  method FillGap(data: array<char>, size: nat, index: nat, str: CStr, count: nat, ghost before: seq<char>)
    requires index <= size && size + count < data.Length && |before| == data.Length
    requires str.Foreign? ==> |str.chars| == count
    requires str.Inside? ==> str.offset + count <= size
    requires forall k :: 0 <= k < index ==> data[k] == before[k]
    requires forall k :: index + count <= k <= size + count ==> data[k] == before[k - count]
    modifies data
    ensures forall k :: index <= k < index + count ==> data[k] == SourceChars(before, str, count)[k - index]
    ensures forall k :: 0 <= k < data.Length && !(index <= k < index + count) ==> data[k] == old(data[k])
  {
    match str {
      case Foreign(chars) =>
        CopySeq(chars, data, index);
        assert forall k :: index <= k < index + count ==> data[k] == data[index..index + count][k - index];
      case Inside(offset) =>
        CopySourceAfterShift(data, size, index, offset, count, before);
        forall k | index <= k < index + count
          ensures data[k] == SourceChars(before, str, count)[k - index]
        {
          assert data[k] == before[k - index + offset];
        }
    }
  }

  /** The four regions of the buffer after an in-place insertion, read back as a sequence. */
  lemma SpliceLayout(data: array<char>, size: nat, index: nat, count: nat, before: seq<char>, src: seq<char>)
    requires index <= size && size + count < data.Length && |before| == data.Length && |src| == count
    requires forall k :: 0 <= k < index ==> data[k] == before[k]
    requires forall k :: index <= k < index + count ==> data[k] == src[k - index]
    requires forall k :: index + count <= k <= size + count ==> data[k] == before[k - count]
    requires forall k :: size + count < k < data.Length ==> data[k] == before[k]
    ensures data[..size + count + 1] == Splice(before[..size], index, src) + [before[size]]
    ensures data[size + count + 1..] == before[size + count + 1..]
  {
    var r := Splice(before[..size], index, src) + [before[size]];
    forall k | 0 <= k < size + count + 1
      ensures data[k] == r[k]
    {
      if k < index {
      } else if k < index + count {
        assert r[k] == src[k - index];
      } else if k < size + count {
        assert r[k] == before[k - count];
      }
    }
  }

  /** After the shift, every character of [index, size] sits `count` places further right. */
  lemma Shifted(data: array<char>, size: nat, index: nat, count: nat, before: seq<char>)
    requires index <= size && size + count < data.Length && |before| == data.Length
    requires data[index + count..size + count + 1] == before[index..size + 1]
    ensures forall k :: index + count <= k <= size + count ==> data[k] == before[k - count]
  {
    forall k | index + count <= k <= size + count
      ensures data[k] == before[k - count]
    {
      assert data[index + count..size + count + 1][k - index - count] == before[index..size + 1][k - index - count];
    }
  }

  /**
   * The second half of the in-place path for a source inside the buffer, once memmove has shifted
   * [index, size] to [index + count, size + count]: fills the gap with the source as it was
   * before the shift (`before`), re-partitioning it when its end lies in [index, size].
   */
  method CopySourceAfterShift(data: array<char>, size: nat, index: nat, offset: nat, count: nat,
                              ghost before: seq<char>)
    requires index <= size && size + count < data.Length && offset + count <= size
    requires |before| == data.Length
    requires forall k :: 0 <= k < index ==> data[k] == before[k]
    requires forall k :: index + count <= k <= size + count ==> data[k] == before[k - count]
    modifies data
    ensures forall k :: index <= k < index + count ==> data[k] == before[k - index + offset]
    ensures forall k :: 0 <= k < data.Length && !(index <= k < index + count) ==> data[k] == old(data[k])
  {
    if offset + count >= index && offset + count <= size {
      // the source ends inside the shifted range, so (part of) it now sits `count` further right
      if offset < index {
        CopySplitSource(data, size, index, offset, count, before);
      } else {
        Copy(data, offset + count, data, index, count);
        assert forall k :: index <= k < index + count ==> data[k] == data[index..index + count][k - index];
      }
    } else {
      // the whole source lies before the insertion point and was not moved
      Copy(data, offset, data, index, count);
      assert forall k :: index <= k < index + count ==> data[k] == data[index..index + count][k - index];
    }
  }

  /**
   * A source that straddles `index`: the part before `index` stayed put and is copied first; the
   * rest was shifted with the tail and is read `count` further right.
   */
  method CopySplitSource(data: array<char>, size: nat, index: nat, offset: nat, count: nat,
                         ghost before: seq<char>)
    requires offset < index <= offset + count <= size && size + count < data.Length
    requires |before| == data.Length
    requires forall k :: 0 <= k < index ==> data[k] == before[k]
    requires forall k :: index + count <= k <= size + count ==> data[k] == before[k - count]
    modifies data
    ensures forall k :: index <= k < index + count ==> data[k] == before[k - index + offset]
    ensures forall k :: 0 <= k < data.Length && !(index <= k < index + count) ==> data[k] == old(data[k])
  {
    var firstPart := index - offset;
    ghost var d0 := data[..];
    Copy(data, offset, data, index, firstPart);
    ghost var d1 := data[..];
    Copy(data, index + count, data, index + firstPart, count - firstPart);
    forall k | index <= k < index + count
      ensures data[k] == before[k - index + offset]
    {
      if k < index + firstPart {
        assert data[k] == d1[k] == d1[index..index + firstPart][k - index];
        assert d1[index..index + firstPart][k - index] == d0[offset..index][k - index];
      } else {
        assert data[k] == data[index + firstPart..index + count][k - index - firstPart];
        assert data[k] == d1[k - firstPart + count] == d0[k - firstPart + count];
      }
    }
  }

  /**
   * The in-place path of `insert(index, count, ch)`: shift the tail [index, size] (terminator
   * included) right by `count` with memmove, then memset the gap.
   */
  method FillInPlace(data: array<char>, size: nat, index: nat, ch: char, count: nat)
    requires index <= size && size + count < data.Length
    modifies data
    ensures data[..size + count + 1] == Splice(old(data[..size]), index, Repeat(ch, count)) + [old(data[size])]
    ensures data[size + count + 1..] == old(data[size + count + 1..])
  {
    ghost var before := data[..];
    Move(data, index, index + count, size + 1 - index);
    Shifted(data, size, index, count, before);
    Set(data, index, ch, count);
    assert forall k :: index <= k < index + count ==> data[k] == data[index..index + count][k - index];
    SpliceLayout(data, size, index, count, before, Repeat(ch, count));
  }

  // ---------------------------------------------------------------------------------------------
  // resize and reserve

  /**
   * The growth path of `resize(newSize, ch)`: a fresh buffer of exactly `newSize + 1` characters
   * holding the old characters `prev`, then `ch` up to `newSize`, then a terminator.
   */
  method NewExtended(prev: seq<char>, newSize: nat, ch: char) returns (nd: array<char>)
    requires |prev| <= newSize
    ensures fresh(nd) && nd.Length == newSize + 1
    ensures nd[..] == prev + Repeat(ch, newSize - |prev|) + ['\0']
  {
    nd := new char[newSize + 1];
    CopySeq(prev, nd, 0);
    Set(nd, |prev|, ch, newSize - |prev|);
    nd[newSize] := '\0';
    assert nd[..] == nd[..|prev|] + nd[|prev|..newSize] + [nd[newSize]];
  }

  /** The in-place path of `resize(newSize, ch)` for a larger size: memset, then a terminator. */
  method ExtendInPlace(data: array<char>, size: nat, newSize: nat, ch: char)
    requires size <= newSize < data.Length
    modifies data
    ensures data[..newSize + 1] == old(data[..size]) + Repeat(ch, newSize - size) + ['\0']
    ensures data[newSize + 1..] == old(data[newSize + 1..])
  {
    Set(data, size, ch, newSize - size);
    data[newSize] := '\0';
    assert data[..newSize + 1] == data[..size] + data[size..newSize] + [data[newSize]];
  }

  /**
   * The new buffer of `reserve(newCapacity)`: `newCapacity + 1` characters, the old characters
   * `prev` copied to the front and a terminator after them.
   */
  method Reallocated(prev: seq<char>, newCapacity: nat) returns (nd: array<char>)
    requires |prev| <= newCapacity
    ensures fresh(nd) && nd.Length == newCapacity + 1
    ensures nd[..|prev| + 1] == prev + ['\0']
  {
    nd := new char[newCapacity + 1];
    CopySeq(prev, nd, 0);
    nd[|prev|] := '\0';
    assert nd[..|prev| + 1] == nd[..|prev|] + [nd[|prev|]];
  }

  /**
   * The growth path of `insert(index, str)`: a fresh buffer of `newCapacity + 1` characters
   * receives the prefix, the source and the tail, then a terminator. `prev` is the content of the
   * old buffer, which is still allocated while this runs, so a source inside it is read intact.
   */
  method NewWithInserted(prev: seq<char>, index: nat, src: seq<char>, newCapacity: nat)
    returns (nd: array<char>)
    requires index <= |prev| && |prev| + |src| <= newCapacity
    ensures fresh(nd) && nd.Length == newCapacity + 1
    ensures nd[..|prev| + |src| + 1] == Splice(prev, index, src) + ['\0']
  {
    var end := |prev| + |src|;
    nd := new char[newCapacity + 1];
    CopySeq(prev[..index], nd, 0);
    CopySeq(src, nd, index);
    assert nd[..index] == prev[..index];
    CopySeq(prev[index..], nd, index + |src|);
    assert nd[..index + |src|] == prev[..index] + src by {
      assert nd[..index + |src|] == nd[..index] + nd[index..index + |src|];
    }
    nd[end] := '\0';
    assert nd[..end + 1] == nd[..index + |src|] + nd[index + |src|..end] + [nd[end]];
  }

  /**
   * The growth path of `insert(index, count, ch)` as evidently intended: prefix, `count` copies
   * of `ch`, tail, terminator. (The code copies the tail to the wrong place; see FillGrowthAsWritten.)
   */
  method NewWithFill(prev: seq<char>, index: nat, count: nat, ch: char, newCapacity: nat)
    returns (nd: array<char>)
    requires index <= |prev| && |prev| + count <= newCapacity
    ensures fresh(nd) && nd.Length == newCapacity + 1
    ensures nd[..|prev| + count + 1] == Splice(prev, index, Repeat(ch, count)) + ['\0']
  {
    nd := new char[newCapacity + 1];
    CopySeq(prev[..index], nd, 0);
    Set(nd, index, ch, count);
    assert nd[..index + count] == prev[..index] + Repeat(ch, count) by {
      assert nd[..index + count] == nd[..index] + nd[index..index + count];
    }
    CopySeq(prev[index..], nd, index + count);
    nd[|prev| + count] := '\0';
    assert nd[..|prev| + count + 1] == nd[..index + count] + nd[index + count..|prev| + count] + [nd[|prev| + count]];
  }

  // ---------------------------------------------------------------------------------------------
  // The fill-insert growth path as the code writes it

  /**
   * The bytes of the new buffer after the growth path of `insert(index, count, ch)` as written:
   * the first `index` characters are copied, `count` copies of `ch` follow them, and then the
   * tail with its terminator (size + 1 - index characters) is copied to offset `size` of the new
   * buffer, where it belongs at offset index + count.
   * `initial` is the indeterminate content of the new buffer; `prev` holds the content and
   * its terminator. None when the last copy runs past the end of the new buffer.
   */
  function FillGrowthAsWritten(prev: seq<char>, index: nat, count: nat, ch: char, initial: seq<char>)
    : (r: Option<seq<char>>)
    requires |prev| >= 1 && index <= |prev| - 1 && |prev| - 1 + count < |initial|
    ensures r.Some? <==> 2 * (|prev| - 1) + 1 - index <= |initial|
    ensures r.Some? ==> |r.value| == |initial| && r.value[..index] == prev[..index]
  {
    var size := |prev| - 1;
    var step1 := prev[..index] + initial[index..];
    var step2 := step1[..index] + Repeat(ch, count) + step1[index + count..];
    if 2 * size + 1 - index <= |initial| then
      Some(step2[..size] + prev[index..] + step2[2 * size + 1 - index..])
    else
      None
  }

  datatype Option<T> = None | Some(value: T)

  /**
   * As written, appending at the end (`index == size`) of a string that has to grow leaves the
   * terminator where the first inserted character belongs, whatever the content and the new
   * capacity: the tail is just the terminator, and it is copied to offset `size`. The string
   * then reads as its old content although its size counts the inserted characters.
   */
  lemma {:induction false} FillGrowthLosesAppendedChars(content: seq<char>, count: nat, ch: char, initial: seq<char>)
    requires count >= 1 && ch != '\0' && |content| + count < |initial|
    ensures FillGrowthAsWritten(content + ['\0'], |content|, count, ch, initial).Some?
    ensures FillGrowthAsWritten(content + ['\0'], |content|, count, ch, initial).value[|content|] == '\0'
    ensures Splice(content, |content|, Repeat(ch, count))[|content|] == ch
  {
    var prev := content + ['\0'];
    var size := |content|;
    var step1 := prev[..size] + initial[size..];
    var step2 := step1[..size] + Repeat(ch, count) + step1[size + count..];
    var r := step2[..size] + prev[size..] + step2[size + 1..];
    assert prev[size..] == ['\0'];
    assert r[size] == '\0';
    assert Splice(content, size, Repeat(ch, count))[size] == Repeat(ch, count)[0];
  }

  /**
   * The instances the tests would hit: 22 characters at the inline capacity 22 of `sso3::string`
   * and `sso2::string`, or 15 at the inline capacity 15 of `sso::string`, with insert(size, 1,
   * 'x') grow to calc_capacity(size + 1) = 31, and "ab" at capacity 2 of the heap-only
   * preparation string with insert(2, 3, 'x') grows to calc_capacity(5) = 15. In each case the
   * new buffer holds the terminator at the old size.
   */
  lemma FillGrowthLosesAppendedCharsInstances(initial22: seq<char>, initial15: seq<char>, initialAb: seq<char>)
    requires |initial22| == Growth.PolicyCapacity(23) + 1
    requires |initial15| == Growth.PolicyCapacity(16) + 1
    requires |initialAb| == Growth.PolicyCapacity(5) + 1
    ensures Growth.PolicyCapacity(23) == 31 && Growth.PolicyCapacity(16) == 31 && Growth.PolicyCapacity(5) == 15
    ensures FillGrowthAsWritten(seq(22, _ => 'a') + ['\0'], 22, 1, 'x', initial22).value[22] == '\0'
    ensures FillGrowthAsWritten(seq(15, _ => 'a') + ['\0'], 15, 1, 'x', initial15).value[15] == '\0'
    ensures FillGrowthAsWritten("ab\0", 2, 3, 'x', initialAb).value[2] == '\0'
  {
    assert Growth.FirstDoubling(16, 24) == 32;
    assert Growth.FirstDoubling(16, 17) == 32;
    assert Growth.FirstDoubling(16, 6) == 16;
    FillGrowthLosesAppendedChars(seq(22, _ => 'a'), 1, 'x', initial22);
    FillGrowthLosesAppendedChars(seq(15, _ => 'a'), 1, 'x', initial15);
    assert "ab\0" == "ab" + ['\0'];
    FillGrowthLosesAppendedChars("ab", 3, 'x', initialAb);
  }

  /**
   * As written, inserting into a long tail writes past the new buffer: the heap-only string
   * "abc" (capacity 3) with insert(1, 1, 'x') grows to exactly 4 and then copies 3 characters
   * to offset 3 of a 5-character buffer.
   */
  lemma FillGrowthOverruns(initial: seq<char>)
    requires |initial| == 5
    ensures FillGrowthAsWritten("abc\0", 1, 1, 'x', initial).None?
  {
  }
}
