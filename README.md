# string_demo in Dafny

This project models the six hand-written variants of a growable, zero-terminated `char` string
in the `string_demo` teaching repository, and proves what each operation does to the string.

- `sso3::string` is a small-string-optimised (SSO) string. A 23-byte inline buffer (capacity 22)
  and a `{data, size, capacity}` heap record share storage. The inline/heap tag is packed into
  bit 63 of the heap record's capacity word. The inline record keeps it in bit 7 of its last byte,
  which overlays that word's top byte.
- `sso2::string` has the same shape, with a separate `bool` tag.
- `sso::string` has a 16-byte inline buffer (capacity 15) and a `_data` pointer that aims at it or
  at a heap buffer.
- The two `simple::string`s are heap only and start from a null buffer of capacity 0. One is in
  `preparations/` and grows by the power-of-two policy. The other, at the repository root, grows
  to the exact size, guards self-assignment and swaps through three moves.
- `v1::string` is in the demo program. It grows through `reserve_impl` and appends with the
  bounded doubling of `next_capacity`, which `v2::string` shares.

Layout of the model:

- `growth.dfy` (module `Growth`): both growth policies.
  - `calc_capacity` gives the smallest 16·2^k − 1 that holds the request.
  - `next_capacity` is a bounded doubling that throws `std::bad_alloc`.
- `buffers.dfy` (module `CharBuffers`):
  - the C library primitives the strings call (memcpy, memmove, memset, strlen) over
    `array<char>`, with exact frames;
  - `Splice(s, i, src) == s[..i] + src + s[i..]`, the value-level meaning of an insertion;
  - the alias-safe in-place `insert(index, str)` that every variant shares;
  - the builders that fill a new buffer on a growth path before the old one is released.
- `sso3.dfy`, `sso2.dfy`, `sso.dfy`, `simple_prep.dfy`, `simple.dfy`, `v1.dfy`: one class per
  variant.
  - The C++ fields are class fields and each member is a method.
  - `Valid()` states the representation invariant: the tag agrees with the storage, the inline
    form has the fixed capacity, `size <= capacity`, and there is a terminator at `size`.
  - `Contents()` is the string's value.

A C-string argument is the datatype `CStr`:

- `Foreign(chars)` is a string the object does not own. Its characters contain no zero, since
  strlen measures them.
- `Inside(offset)` is a pointer `offset` characters into the object's own buffer, as
  `s.c_str() + offset` is.

`Text(content, str)` is what strlen reads from such an argument.

## Model

| member | source | states |
|---|---|---|
| Growth.FirstDoubling | string_demo/preparations/sso_string3.h:90-93 | doubling `start` until it reaches `target` gives a value ≥ target and ≥ start, below 2·target when start < target |
| Growth.FirstDoublingIsLeast | string_demo/preparations/sso_string3.h:90-94 | that value is start·2^k for some k, and no doubling of start that reaches target is smaller |
| Growth.PolicyCapacity | string_demo/preparations/sso_string3.h:88-95 | the policy capacity for a request is ≥ the request and ≥ 15, and below 2·request + 1 once the request is ≥ 16 |
| Growth.PolicyCapacityIsLeast | string_demo/preparations/sso_string3.h:88-95 | the policy capacity has the form 16·2^k − 1 and is the least such value that holds the request |
| Growth.CalcCapacity | string_demo/preparations/sso_string3.h:88-95 | calc_capacity keeps the capacity when it suffices; otherwise it returns the policy capacity of the request. The same loop is in sso_string2.h (lines 39-46), sso_string.h (lines 34-41) and the preparation simple_string.h (lines 12-19) |
| Growth.DoublingStart | string_demo/string_demo.cpp:78-79 | the doubling starts at capacity + 1, raised to 16 only when that is below 15 (so capacity 14 starts at 15); it is at least 15 and at least capacity + 1 |
| Growth.NextCapacityOf | string_demo/string_demo.cpp:72-84 | bad_alloc exactly when the request exceeds both the capacity and SIZE_MAX − 1; any capacity returned holds the request and never shrinks; a request within the capacity keeps it |
| Growth.NextCapacity | string_demo/string_demo.cpp:72-84 | next_capacity returns exactly `NextCapacityOf`: the capacity itself, bad_alloc, the SIZE_MAX − 1 clamp, or the first doubling of the start value that holds request + 1, minus one. The next_capacity of `v2::string` (lines 185-197) is textually identical |
| Growth.NextCapacitySound | string_demo/string_demo.cpp:72-84 | it throws exactly for an uncovered request above SIZE_MAX − 1; otherwise the result holds the request, never shrinks and stays ≤ SIZE_MAX − 1; below the clamp it is the least doubling of the start value that holds request + 1 |
| CharBuffers.Splice | string_demo/preparations/sso_string3.h:242-283 | an insertion lengthens the content by exactly the inserted characters |
| CharBuffers.SpliceInverse | string_demo/preparations/sso_string3.h:242-283 | after an insertion, the inserted characters sit at [index, index + count), and removing them gives back the old content |
| CharBuffers.SpliceEdges | string_demo/string_test.cpp:268-279 | inserting "" changes nothing at any index; inserting at the end appends |
| CharBuffers.Repeat | string_demo/preparations/sso_string3.h:224 | memset's fill: exactly n characters, each equal to ch |
| CharBuffers.CLength | string_demo/preparations/sso_string3.h:243 | the strlen value contains no zero and is followed by one, unless it runs to the end |
| CharBuffers.CLengthUnique | string_demo/preparations/sso_string3.h:243 | any length with those two properties is the strlen value |
| CharBuffers.Text | string_demo/preparations/sso_string3.h:243 | an argument inside the string ends within its content |
| CharBuffers.Strlen | string_demo/preparations/sso_string3.h:243 | the strlen loop stops at the first zero, which is the `CLength` of the scanned characters |
| CharBuffers.ArgLength | string_demo/preparations/sso_string3.h:243 | strlen of an insert argument equals the length of `Text`, and the characters it covers are `Text` |
| CharBuffers.Copy | string_demo/preparations/sso_string3.h:78 | memcpy of n characters between non-overlapping ranges; nothing else in the destination changes |
| CharBuffers.CopySeq | string_demo/preparations/sso_string3.h:116 | memcpy from a string the object does not own; nothing else changes |
| CharBuffers.Move | string_demo/preparations/sso_string3.h:259 | memmove within one buffer gives the old source range at the destination, even when the ranges overlap; nothing else changes |
| CharBuffers.Set | string_demo/preparations/sso_string3.h:233 | memset writes n copies of ch; nothing else changes |
| CharBuffers.InsertInPlace | string_demo/preparations/sso_string3.h:258-282 | the in-place string insert: the buffer holds `Splice(old content, index, source)` followed by the old terminator, and nothing after it changes. The source may be foreign, or inside the buffer before, at or after `index` |
| CharBuffers.FillGap | string_demo/preparations/sso_string3.h:261-275 | the copy into the gap the shift opened: the gap holds the source characters as they were before the shift, and nothing outside it changes |
| CharBuffers.CopySourceAfterShift | string_demo/preparations/sso_string3.h:261-275 | after the shift, the gap receives the source as it was before the shift: the part before `index` from its old place, the moved part from `count` further right |
| CharBuffers.CopySplitSource | string_demo/preparations/sso_string3.h:263-270 | a source that straddles `index`: its unmoved first part and its moved rest together fill the gap with the source as it was |
| CharBuffers.FillInPlace | string_demo/preparations/sso_string3.h:231-233 | the in-place fill insert: the buffer holds `Splice(old, index, ch^count)` followed by the old terminator; nothing after it changes |
| CharBuffers.NewExtended | string_demo/preparations/sso_string3.h:296-304 | resize's growth path: a new buffer of newSize + 1 holding the old content, ch up to newSize, and a terminator |
| CharBuffers.ExtendInPlace | string_demo/preparations/sso_string3.h:316-326 | resize's in-place growth: ch from the old size to newSize, then a terminator; the rest is unchanged |
| CharBuffers.Reallocated | string_demo/preparations/sso_string3.h:336-343 | reserve's new buffer: capacity + 1 characters, starting with the content and a terminator |
| CharBuffers.NewWithInserted | string_demo/preparations/sso_string3.h:246-256 | the string insert's growth path: a new buffer starting with `Splice(old, index, source)` and a terminator |
| CharBuffers.NewWithFill | string_demo/preparations/sso_string3.h:220-229 | the fill insert's growth path as evidently intended: `Splice(old, index, ch^count)` and a terminator |
| CharBuffers.FillGrowthAsWritten | string_demo/preparations/sso_string3.h:220-229 | the fill insert's growth path as written: it exists exactly when the tail copy to offset `size` fits in the new buffer, and it keeps the prefix |
| CharBuffers.FillGrowthLosesAppendedChars | string_demo/preparations/sso_string3.h:225 | as written, appending count ≥ 1 non-zero characters at the end through a growth whose new buffer is longer than size + count leaves a terminator at offset size, where the first inserted character belongs |
| CharBuffers.FillGrowthLosesAppendedCharsInstances | string_demo/preparations/sso_string3.h:217-229 | the reaching inputs: 22 characters with insert(22, 1, 'x') (sso3, sso2: capacity 22 grows to 31), 15 characters with insert(15, 1, 'x') (sso: 15 grows to 31), "ab" with insert(2, 3, 'x') (preparation simple: 2 grows to 15) all get the terminator at the old size |
| CharBuffers.FillGrowthOverruns | string_demo/simple_string.h:113 | as written, "abc" at capacity 3 with insert(1, 1, 'x') copies past the end of its exact-size new buffer |
| Sso3.HeapStringData.Capacity | string_demo/preparations/sso_string3.h:15-17 | capacity() masks off the flag bit, so it is below 2^63 |
| Sso3.HeapWordDecodes | string_demo/preparations/sso_string3.h:15-20 | for a 64-bit word, use_heap() holds exactly when bit 63 is set (the word is ≥ 2^63), and capacity() plus the flag bit, when set, is the word again |
| Sso3.FlagByteDecodes | string_demo/preparations/sso_string3.h:40-45 | for a byte, the inline use_heap() holds exactly when bit 7 is set (the byte is ≥ 128), and with it clear the inline size() is below 128 |
| Sso3.TopByte | string_demo/preparations/sso_string3.h:54-58 | the byte of the capacity word that the union overlays with the inline flag byte is below 256 |
| Sso3.TopByteOfWord | string_demo/preparations/sso_string3.h:54-58 | for a 64-bit word that byte is the word shifted right by 56 bits |
| Sso3.HeapStringData.WithCapacityAndHeapFlag | string_demo/preparations/sso_string3.h:21-23 | set_capacity_and_heap_flag leaves data and size alone, sets the heap flag, and stores the capacity modulo the flag bit |
| Sso3.CapacityFlagRoundTrip | string_demo/preparations/sso_string3.h:8-23 | setting a capacity below the flag bit reads back that capacity and use_heap(); the overlaid inline flag byte then reads "heap" too |
| Sso3.FlagOverlay | string_demo/preparations/sso_string3.h:43-45 | bit 7 of a 64-bit word's top byte is the word's bit 63, so both tags agree |
| Sso3.SizeFlagRoundTrip | string_demo/preparations/sso_string3.h:40-49 | set_size_and_reset_heap_flag(s) with s ≤ 22 reads back size s with the inline flag |
| Sso3.String.SetHeapData | string_demo/preparations/sso_string3.h:67-71 | the heap record gets size, data and the flagged capacity; the string reads as heap form with those values |
| Sso3.String.SetHeapRecord | string_demo/preparations/sso_string3.h:63-65 | copies a whole flagged heap record |
| Sso3.String.SetSmallData | string_demo/preparations/sso_string3.h:77-81 | copies size + 1 characters into the inline buffer and sets the inline size and flag |
| Sso3.String.SetSmallRecord | string_demo/preparations/sso_string3.h:73-75 | copies the whole inline record of another string |
| Sso3.String.ClearSmallData | string_demo/preparations/sso_string3.h:83-86 | the empty inline string |
| Sso3.String.constructor | string_demo/preparations/sso_string3.h:107-109 | default construction: empty, inline, capacity 22 |
| Sso3.String.FromCString | string_demo/preparations/sso_string3.h:112-122 | inline exactly when the length is ≤ 22, otherwise heap with capacity exactly the length; content copied |
| Sso3.String.Copied | string_demo/preparations/sso_string3.h:124-134 | the same choice of form by the other's size; equal content |
| Sso3.String.Moved | string_demo/preparations/sso_string3.h:136-144 | a heap source hands over its buffer and is left empty inline; an inline source is copied and left unchanged, record and buffer |
| Sso3.String.CopyAssign | string_demo/preparations/sso_string3.h:146-167 | equal content; storage, form and capacity are kept when the other's size fits, otherwise a new heap buffer of capacity exactly that size |
| Sso3.String.CopyWithinCapacity | string_demo/preparations/sso_string3.h:156-165 | copy assignment within the capacity: equal content, with storage, form and capacity kept |
| Sso3.String.MoveAssign | string_demo/preparations/sso_string3.h:168-182 | takes the other's content, capacity and form; a heap source hands over its buffer and is left empty inline; an inline source is left unchanged |
| Sso3.String.Swap | string_demo/preparations/sso_string3.h:191-206 | content, capacity and form are exchanged in all four inline/heap combinations; heap buffers change hands and nothing is allocated |
| Sso3.String.SwapInline | string_demo/preparations/sso_string3.h:195-197 | two inline strings exchange their characters and sizes; both stay inline with storage unchanged |
| Sso3.String.HandHeapTo | string_demo/preparations/sso_string3.h:198-202 | a heap string and an inline one exchange form, content and capacity: the heap buffer changes hands, the inline characters land in the receiver's own buffer |
| Sso3.String.InsertFill | string_demo/preparations/sso_string3.h:217-241 | content becomes `Splice(old, index, ch^count)`; in place with the capacity kept when it fits, otherwise heap form with the policy capacity of size + count |
| Sso3.String.GrowFilling | string_demo/preparations/sso_string3.h:220-230 | the growth path of the fill insert (as evidently intended): spliced content in a fresh heap buffer of the policy capacity |
| Sso3.String.Insert | string_demo/preparations/sso_string3.h:242-283 | content becomes `Splice(old, index, Text(old, str))`, also when str points into the string itself; the capacity is kept when it fits, otherwise heap form with the policy capacity |
| Sso3.String.GrowInserting | string_demo/preparations/sso_string3.h:246-257 | the growth path: spliced content in a fresh heap buffer of the policy capacity |
| Sso3.String.InsertHere | string_demo/preparations/sso_string3.h:258-282 | the in-place path: spliced content; buffer, form and capacity kept |
| Sso3.String.Resize | string_demo/preparations/sso_string3.h:294-328 | truncates, or extends with ch; capacity and form are kept within the capacity, otherwise heap form with capacity exactly newSize |
| Sso3.String.Reserve | string_demo/preparations/sso_string3.h:334-345 | when newCapacity ≥ capacity (even 22 from inline) the content moves to a heap buffer of capacity exactly newCapacity; otherwise nothing changes |
| Sso3.String.SetSize | string_demo/preparations/sso_string3.h:234-239 | the size store follows the form: heap size or inline size byte; data, form and capacity unchanged, and a heap string keeps its flagged capacity word |
| Sso2.String.ClearSmall | string_demo/preparations/sso_string2.h:102-104 | the empty inline form |
| Sso2.String.constructor | string_demo/preparations/sso_string2.h:58-62 | default construction: empty, inline, capacity 22 |
| Sso2.String.InitFrom | string_demo/preparations/sso_string2.h:65-95 | the shared body of both constructors: inline exactly when the length is ≤ 22, otherwise heap with capacity exactly the length |
| Sso2.String.FromCString | string_demo/preparations/sso_string2.h:65-79 | inline exactly when the length is ≤ 22, otherwise heap with capacity exactly the length; content copied |
| Sso2.String.Copied | string_demo/preparations/sso_string2.h:81-95 | the same choice of form by the other's size; equal content |
| Sso2.String.Moved | string_demo/preparations/sso_string2.h:97-110 | a heap source hands over its record and is left empty inline; an inline source is copied and left unchanged, record and buffer |
| Sso2.String.CopyAssign | string_demo/preparations/sso_string2.h:112-135 | equal content; storage, tag and capacity are kept when the other's size fits, otherwise a heap buffer of capacity exactly that size |
| Sso2.String.MoveAssign | string_demo/preparations/sso_string2.h:136-155 | takes the other's content, capacity and tag; a heap source hands over its record and is left empty inline; an inline source is left unchanged |
| Sso2.String.Swap | string_demo/preparations/sso_string2.h:164-183 | content, capacity and tag are exchanged in all four combinations without allocating |
| Sso2.String.SwapInline | string_demo/preparations/sso_string2.h:168-170 | two inline strings exchange their characters and sizes |
| Sso2.String.HandHeapTo | string_demo/preparations/sso_string2.h:171-179 | a heap string and an inline one exchange tag, content and capacity; the heap buffer changes hands |
| Sso2.String.SetSize | string_demo/preparations/sso_string2.h:214-219 | the size store follows the tag; buffer, tag and capacity are unchanged |
| Sso2.String.InsertFill | string_demo/preparations/sso_string2.h:194-221 | content becomes `Splice(old, index, ch^count)`; in place with the capacity kept, otherwise heap form with the policy capacity |
| Sso2.String.GrowFilling | string_demo/preparations/sso_string2.h:197-210 | the growth path of the fill insert (as evidently intended): spliced content in a fresh heap buffer of the policy capacity |
| Sso2.String.Insert | string_demo/preparations/sso_string2.h:222-266 | content becomes `Splice(old, index, Text(old, str))` for a foreign or self-pointing str; capacity kept when it fits, otherwise the policy capacity |
| Sso2.String.GrowInserting | string_demo/preparations/sso_string2.h:226-240 | the growth path: spliced content in a fresh heap buffer of the policy capacity |
| Sso2.String.InsertHere | string_demo/preparations/sso_string2.h:241-265 | the in-place path: spliced content; buffer, tag and capacity kept |
| Sso2.String.Resize | string_demo/preparations/sso_string2.h:277-314 | truncates, or extends with ch; within the capacity nothing else changes, beyond it heap form with capacity exactly newSize |
| Sso2.String.Reserve | string_demo/preparations/sso_string2.h:320-334 | when newCapacity ≥ capacity, heap form with capacity exactly newCapacity and the same content; otherwise nothing changes |
| Sso.String.constructor | string_demo/sso_string.h:26-32 | default construction: `_data` is the inline buffer, size 0, capacity 15, inline tag |
| Sso.String.InitFrom | string_demo/sso_string.h:47-66 | the shared body of both constructors: heap with capacity exactly n only when n > 15 |
| Sso.String.FromCString | string_demo/sso_string.h:47-55 | heap with capacity exactly the length only above 15, otherwise the inline buffer; content copied |
| Sso.String.Copied | string_demo/sso_string.h:58-66 | the same choice by the other's size; equal content |
| Sso.String.ResetToBuffer | string_demo/sso_string.h:75-79 | the source's reset: `_data` is the inline buffer, empty, capacity 15, inline tag |
| Sso.String.Moved | string_demo/sso_string.h:68-85 | a heap source hands over pointer, size and capacity and is reset to the empty inline form; an inline source is copied and left unchanged, record and buffer |
| Sso.String.CopyAssign | string_demo/sso_string.h:87-99 | equal content; storage kept when the other's size fits, otherwise a heap buffer of capacity exactly that size |
| Sso.String.MoveAssign | string_demo/sso_string.h:100-124 | takes the other's content, capacity and tag; a heap source is reset to the empty inline form; an inline source is left unchanged |
| Sso.String.Swap | string_demo/sso_string.h:133-154 | size, capacity, tag and content are exchanged; heap pointers change hands, inline characters go to the receiver's own buffer |
| Sso.String.SwapInline | string_demo/sso_string.h:137-139 | two inline strings exchange buffer characters and sizes; `_data` stays at each own buffer |
| Sso.String.HandHeapTo | string_demo/sso_string.h:140-153 | a heap string and an inline one: the heap pointer changes hands, the inline characters and terminator move into the other's own buffer, and tag, size and capacity are exchanged |
| Sso.String.InsertFill | string_demo/sso_string.h:165-184 | content becomes `Splice(old, index, ch^count)`; in place when it fits, otherwise heap form with the policy capacity |
| Sso.String.GrowFilling | string_demo/sso_string.h:166-178 | the growth path of the fill insert (as evidently intended): spliced content in a fresh heap buffer of the policy capacity |
| Sso.String.Insert | string_demo/sso_string.h:185-224 | content becomes `Splice(old, index, Text(old, str))` for a foreign or self-pointing str; capacity kept when it fits, otherwise the policy capacity |
| Sso.String.GrowInserting | string_demo/sso_string.h:187-200 | the growth path: spliced content in a fresh heap buffer of the policy capacity |
| Sso.String.InsertHere | string_demo/sso_string.h:201-223 | the in-place path: spliced content; buffer, tag and capacity kept |
| Sso.String.Resize | string_demo/sso_string.h:234-257 | truncates, or extends with ch; beyond the capacity, heap form with capacity exactly newSize |
| Sso.String.Reserve | string_demo/sso_string.h:262-274 | when newCapacity ≥ capacity, heap form with capacity newCapacity, same content and terminator; otherwise nothing changes |
| SimplePrep.String.CStr | string_demo/preparations/simple_string.h:165-167 | c_str() is the content and its terminator, and "" for a null buffer |
| SimplePrep.String.constructor | string_demo/preparations/simple_string.h:8-10 | default construction: null, size 0, capacity 0 |
| SimplePrep.String.FromCString | string_demo/preparations/simple_string.h:25-32 | allocates exactly when the string is non-empty, with capacity exactly its length; content copied |
| SimplePrep.String.Copied | string_demo/preparations/simple_string.h:35-47 | an empty source gives null/0/0, otherwise an exact-size copy |
| SimplePrep.String.Moved | string_demo/preparations/simple_string.h:49-57 | takes all three fields; the source is left null/0/0 |
| SimplePrep.String.CopyAssign | string_demo/preparations/simple_string.h:59-78 | equal content; buffer and capacity kept when the other's size fits (an empty source just empties the string), otherwise capacity exactly that size |
| SimplePrep.String.MoveAssign | string_demo/preparations/simple_string.h:79-91 | takes all three fields; the source is left null/0/0 |
| SimplePrep.String.Swap | string_demo/preparations/simple_string.h:98-102 | exchanges buffer, size and capacity |
| SimplePrep.String.InsertFill | string_demo/preparations/simple_string.h:113-129 | content becomes `Splice(old, index, ch^count)`; capacity kept when it fits, otherwise the policy capacity |
| SimplePrep.String.GrowFilling | string_demo/preparations/simple_string.h:114-123 | the growth path of the fill insert (as evidently intended): spliced content in a fresh buffer of the policy capacity |
| SimplePrep.String.Insert | string_demo/preparations/simple_string.h:130-162 | content becomes `Splice(old, index, Text(old, str))`, also for a self-pointing str; capacity kept when it fits, otherwise the policy capacity |
| SimplePrep.String.Argument | string_demo/preparations/simple_string.h:131 | strlen of the argument: the characters `Text(content, str)` and their count, read before anything moves |
| SimplePrep.String.GrowInserting | string_demo/preparations/simple_string.h:132-142 | the growth path: spliced content in a fresh buffer of the policy capacity |
| SimplePrep.String.InsertHere | string_demo/preparations/simple_string.h:143-161 | the in-place path: spliced content; buffer and capacity kept |
| SimplePrep.String.Resize | string_demo/preparations/simple_string.h:172-192 | truncates, or extends with ch; beyond the capacity, a buffer of capacity exactly newSize |
| SimplePrep.String.Reserve | string_demo/preparations/simple_string.h:197-206 | when newCapacity ≥ capacity (even 0 on a null buffer), a buffer of capacity exactly newCapacity with the same content and terminator; otherwise nothing changes |
| SimplePrep.InsertTestExample | string_demo/string_test.cpp:268-285 | the insert test under the power-of-two policy: "", "a", "abc", "123" give size 7 in capacity 15, and after the fill and "y" size 16 in capacity 31, so both size < capacity expectations hold |
| SimplePrep.FillAndGrowExample | string_demo/string_test.cpp:282-285 | 7 characters in capacity 15 filled to the capacity, then "y": size 16 in capacity 31 |
| SimplePrep.InsertSelfInPlaceExample | string_demo/string_test.cpp:288-292 | after reserve(20), "0123456789" with insert(3, c_str() + 6) is "01267893456789" through the in-place alias path |
| CharBuffers.InsertSelfExpected | string_demo/string_test.cpp:291 | the expected result of the insert_self test is the splice of "6789" into "0123456789" at 3 |
| Simple.String.CStr | string_demo/simple_string.h:159-161 | c_str() is "" for a null buffer, and the content and its terminator when the buffer is terminated |
| Simple.String.constructor | string_demo/simple_string.h:16 | default construction: null, size 0, capacity 0 |
| Simple.String.FromCString | string_demo/simple_string.h:18-27 | always allocates, even for "", with capacity exactly the length and a terminator |
| Simple.String.Copied | string_demo/simple_string.h:30-44 | an empty source gives null/0/0, otherwise an exact-size terminated copy |
| Simple.String.CopyTerminated | string_demo/simple_string.h:34-35 | copies the other's characters and writes a terminator after them |
| Simple.String.Moved | string_demo/simple_string.h:45-52 | takes all three fields; the source is left null/0/0 |
| Simple.String.CopyAssign | string_demo/simple_string.h:53-75 | self-assignment changes nothing; otherwise equal, terminated content, with storage kept when it fits and capacity exactly the size when not |
| Simple.String.MoveAssign | string_demo/simple_string.h:76-86 | self-move changes nothing; otherwise takes all three fields and leaves the source null/0/0 |
| Simple.String.Swap | string_demo/simple_string.h:92-96 | the three moves exchange buffer, size and capacity; a self-swap changes nothing |
| Simple.String.InsertFill | string_demo/simple_string.h:107-123 | content becomes `Splice(old, index, ch^count)`; capacity kept when it fits, otherwise exactly size + count |
| Simple.String.GrowFilling | string_demo/simple_string.h:108-117 | the growth path of the fill insert (as evidently intended): spliced, terminated content in a fresh buffer of capacity exactly size + count |
| Simple.String.Insert | string_demo/simple_string.h:124-156 | content becomes `Splice(old, index, Text(old, str))`, also for a self-pointing str; capacity kept when it fits, otherwise exactly size + count |
| Simple.String.GrowInserting | string_demo/simple_string.h:126-136 | the growth path: spliced, terminated content in a fresh buffer of capacity exactly size + count |
| Simple.String.InsertHere | string_demo/simple_string.h:137-155 | the in-place path: spliced content; buffer and capacity kept, terminator carried along |
| Simple.String.Resize | string_demo/simple_string.h:166-187 | truncates, or extends with ch; beyond the capacity, capacity exactly newSize; every change of size leaves a terminator |
| Simple.String.Reserve | string_demo/simple_string.h:192-200 | only newCapacity > capacity allocates: capacity exactly newCapacity, same characters, no terminator written |
| Simple.InsertTestExample | string_demo/string_test.cpp:268-285 | the insert test on the exact-growth string: "", "a", "abc", "123" give size 7 in capacity 7, and after the fill and "y" size 8 in capacity 8, so neither size < capacity expectation holds |
| Simple.FillAndGrowExample | string_demo/string_test.cpp:282-285 | 7 characters in capacity 7: the fill inserts nothing, and "y" grows to exactly 8 |
| Simple.InsertSelfExample | string_demo/string_test.cpp:288-292 | "0123456789" with insert(3, c_str() + 6) is "01267893456789" |
| V1.String.CStr | string_demo/string_demo.cpp:131 | c_str() is the content and its terminator, and "" for a null buffer |
| V1.String.ReserveImpl | string_demo/string_demo.cpp:54-70 | a no-op when the capacity suffices; otherwise capacity exactly newCapacity in a fresh buffer; with copying, the content and terminator are kept |
| V1.String.Reserve | string_demo/string_demo.cpp:151 | reserve keeps the content; the capacity only grows, to exactly newCapacity |
| V1.String.constructor | string_demo/string_demo.cpp:87 | default construction: null, size 0, capacity 0 |
| V1.String.FromCString | string_demo/string_demo.cpp:115-121 | a null pointer gives the empty value; otherwise capacity is exactly strlen and the content is copied |
| V1.String.Copied | string_demo/string_demo.cpp:88 | a default string copy-assigned from the other |
| V1.String.Moved | string_demo/string_demo.cpp:89 | copies, because the named source selects the copy assignment |
| V1.String.CopyAssign | string_demo/string_demo.cpp:90-100 | equal content; the capacity only grows, to exactly the other's size |
| V1.String.Swap | string_demo/string_demo.cpp:101-105 | exchanges the three fields |
| V1.String.MoveAssign | string_demo/string_demo.cpp:106-110 | takes the other's three fields and leaves it null/0/0; a self-move empties the string |
| V1.String.Append | string_demo/string_demo.cpp:123-129 | a null argument changes nothing; bad_alloc exactly when next_capacity throws, and then nothing changes; otherwise content is old + str and capacity is next_capacity(size + count) |
| V1.String.CopyAtEnd | string_demo/string_demo.cpp:127-128 | the append copy: content becomes old + s within the same buffer |
| V1.String.Resize | string_demo/string_demo.cpp:134-147 | equal size is a no-op; smaller truncates; larger reserves exactly newSize and zero-fills |
| V1.String.ZeroFill | string_demo/string_demo.cpp:144-145 | the growing resize once the capacity suffices: the content gains newSize - size zero characters and stays terminated |

## Left out

- Allocation and deallocation are not modelled. A new buffer is a fresh Dafny array and a
  released one is simply no longer referenced. The allocation counters in test_allocator.cpp,
  the `delete`/`delete[]` mismatch and allocation failure are out of scope. The only failure
  modelled is `next_capacity`'s explicit `bad_alloc`.
- The union of `sso3::string` and `sso2::string` is two records side by side. For sso3, every
  write of the heap record also writes the inline flag byte with the top byte of the capacity
  word, as the little-endian overlay does. The `sizeof` static assertions and `char` signedness
  are not modelled.
- `size_t` is unbounded, except:
  - `next_capacity`'s SIZE_MAX − 1 bound;
  - the bound below that `sso3::string` needs to keep capacities under the flag bit.
- Sso3.String.FromCString, Sso3.String.Copied, Sso3.String.CopyAssign, Sso3.String.InsertFill,
  Sso3.String.GrowFilling, Sso3.String.Insert, Sso3.String.GrowInserting, Sso3.String.Resize and
  Sso3.String.Reserve require sizes below 2^62. A capacity at or above the flag bit would
  corrupt the tag.
- Copy, move and swap of the SSO variants, of the preparation `simple::string` and the copy
  assignment of `v1::string` require two distinct objects with disjoint storage. Self-assignment
  is unguarded in that code and is not modelled. The root `simple::string` has self guards and is
  modelled with them.
- Moving an inline SSO value leaves the source unchanged. The move contracts state exactly this.
- The fill `insert` growth path of all five variants that have one is modelled as evidently
  intended. The code as written is CharBuffers.FillGrowthAsWritten, and its failures are under
  "Findings".
- In both heap-only `simple::string`s, the growth path of the fill insert on a null buffer copies
  the tail, which is just the terminator, from the null pointer. The corrected model writes the
  terminator itself. The other copies from a null buffer have length 0 and copy nothing.
- Simple.String.Reserve does not establish a terminator, because the code writes none. Insert
  with an argument inside the string therefore requires `Terminated()`, which strlen needs.
- V1.String.FromCString requires a non-empty string. For "" the code copies the terminator
  through a null buffer.
- V1.String.Append requires a buffer when appending "". The code otherwise writes the
  terminator through a null pointer. An argument pointing into the string's own buffer is not
  modelled: `reserve` may release that buffer before the copy reads from it.
- `v2::string` is modelled only through its `next_capacity` (Growth.NextCapacity). Its ownership
  is inconsistent: the destructor frees the inline buffer and the tag is never cleared.
- The declaration-only interfaces (string_api.h, string1.h, `v0`), the `make_const` and
  `make_mutable` wrappers in sso_string.h and the disabled `main` are not part of this model.
- The iterators `begin()`/`end()` and the accessors `size()`, `capacity()`, `data()` are the
  fields and functions of each class. They have no contracts of their own.

## Findings

| source | as written | input that shows it | evidently intended | confidence | as-written member | corrected member |
|---|---|---|---|---|---|---|
| string_demo/preparations/sso_string3.h:225 | the growth path of `insert(index, count, ch)` copies the tail to offset `size` of the new buffer | 22 characters (inline, capacity 22), insert(22, 1, 'x'): the string grows to capacity 31 and the terminator lands at offset 22 where 'x' belongs, so it reads as its old 22 characters with size 23 | copy the tail to offset index + count | high, not executed | CharBuffers.FillGrowthAsWritten, CharBuffers.FillGrowthLosesAppendedCharsInstances | CharBuffers.NewWithFill, Sso3.String.InsertFill |
| string_demo/preparations/sso_string2.h:202 | the same tail copy to offset `size` | 22 characters, insert(22, 1, 'x'): capacity 31, terminator at offset 22, size 23 | copy the tail to offset index + count | high, not executed | CharBuffers.FillGrowthAsWritten, CharBuffers.FillGrowthLosesAppendedCharsInstances | CharBuffers.NewWithFill, Sso2.String.InsertFill |
| string_demo/sso_string.h:171 | the same tail copy to offset `size` | 15 characters (inline, capacity 15), insert(15, 1, 'x'): capacity 31, terminator at offset 15, size 16 | copy the tail to offset index + count | high, not executed | CharBuffers.FillGrowthAsWritten, CharBuffers.FillGrowthLosesAppendedCharsInstances | CharBuffers.NewWithFill, Sso.String.InsertFill |
| string_demo/preparations/simple_string.h:119 | the same tail copy to offset `size` | "ab" at capacity 2, insert(2, 3, 'x'): capacity 15, terminator at offset 2, so the string reads "ab" with size 5 | copy the tail to offset index + count | high, not executed | CharBuffers.FillGrowthAsWritten, CharBuffers.FillGrowthLosesAppendedCharsInstances | CharBuffers.NewWithFill, SimplePrep.String.InsertFill |
| string_demo/simple_string.h:113 | the same tail copy to offset `size`, into a buffer of exactly size + count + 1 | "abc" at capacity 3, insert(1, 1, 'x'): 3 characters are copied to offset 3 of a 5-character buffer | copy the tail to offset index + count | high, not executed | CharBuffers.FillGrowthAsWritten, CharBuffers.FillGrowthOverruns | CharBuffers.NewWithFill, Simple.String.InsertFill |
| string_demo/string_test.cpp:281 | the insert test expects size < capacity after its inserts, but the type under test (simple::string, line 13) grows to the exact size (simple_string.h:127) | "", "a", "abc", "123" inserted into an empty string: size 7 and capacity 7; the check at line 285 fails the same way with size and capacity 8 | growth with headroom, the power-of-two policy of the preparation string | medium, not executed | Simple.InsertTestExample | SimplePrep.InsertTestExample |
