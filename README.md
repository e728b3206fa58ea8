# Channels buffer segments, in Dafny

This project models the buffer segments of the Channels library. A
`BufferSegment` is a window `[Start, End)` onto a reference-counted memory
region (`OwnedMemory<byte>`). Segments are linked through `Next` into chains
that hold discontiguous data. The model covers:

- the segment's two constructors (leasing and cloning);
- its `ReadableBytes` and `WritableBytes` properties;
- its `Dispose`;
- the static `Clone`, which snapshots the bytes between two read cursors as a
  fresh read-only chain;
- the heap-backed `OwnedBuffer` region kind.

The project has three modules:

- `Regions` (`regions.dfy`) is the region class `OwnedMemory`. It has a kind
  (`Owned` for an `OwnedBuffer`, `Unowned` for an `UnownedBuffer`), a fixed
  backing array, a reference count and a disposed flag.
  - The `OwnedBuffer` overrides are modelled from their source.
  - `AddReference`, `Release`, the base `Dispose` and `UnownedBuffer.MakeCopy`
    get contracts that state what the segment code relies on.
  - The accessors `Length` and `ReferenceCount` return the backing array's
    length and the count field. `WritableBytes` measures against the first,
    and `Dispose` tests the second.
- `Chains` (`chains.dfy`) gives a chain its meaning as a value.
  - Each segment is a `View` (the region's bytes plus the window).
  - A chain denotes the concatenation of its active windows (`Content`).
  - A cursor denotes an absolute offset into that content (`Position`).
  - `CloneViews` is the sequence of windows `Clone` builds: the first cut at
    the begin cursor, the last cut at the end cursor, and the ones between
    kept whole.
  - `CloneContent` proves that these windows hold exactly the requested range
    of the original content.
- `Segments` (`segments.dfy`) is the `BufferSegment` class. `Clone` keeps the
  source's shape. It handles the one-segment case, or it clones the first
  segment, runs a `while` loop over the interior segments, then clones the
  last one. The work is spread over small static methods, one per step of
  that shape, so that each proof stays small.
  - Every clone is a new segment. The clones are linked in order, read-only,
    and mirror the cut windows.
  - A clone of a segment over an unowned region stands on a new owned copy.
    The copy and its array are new, the copy holds only that clone's
    reference, and its active bytes are those of the cut window. Two clones
    never share a copy, even when their segments share an unowned region.
  - The content of the clone is the original content from `begin` to `end`.
  - Each region's reference count moves by exactly one step per segment over
    it: plus one on an owned region, minus one on an unowned one. No other
    field of any object changes.

The original chain is passed to `Clone` as ghost parameters:

- `chain`: the segments from the begin cursor's segment to the end cursor's;
- `regions`: their regions;
- `vs`: their windows as values.

The requirement that the end segment is reachable from the begin segment is
the precondition `IsPath`.

## Model

| member | source | states |
|---|---|---|
| Regions.OwnedMemory.OwnedBuffer | src/Channels/OwnedBuffer.cs:16-19 | a new owned region wraps the given array itself (no copy); its bytes are the array's |
| Regions.OwnedMemory.UnownedBuffer | src/Channels/BufferSegment.cs:78 | a region of the unowned kind, the kind the cloning constructor tests for, over the given array, with no references and not disposed |
| Regions.OwnedMemory.GetSpanCore | src/Channels/OwnedBuffer.cs:21-24 | the span is the whole backing array, from offset 0 over its full length, and denotes exactly the region's bytes |
| Regions.OwnedMemory.DisposeCore | src/Channels/OwnedBuffer.cs:26-29 | disposing an owned region changes neither the region nor its array |
| Regions.OwnedMemory.TryGetArrayCore | src/Channels/OwnedBuffer.cs:31-35 | always succeeds, with an array segment over the whole backing array that denotes exactly the region's bytes |
| Regions.OwnedMemory.TryGetPointerCore | src/Channels/OwnedBuffer.cs:37-41 | always fails, with a null pointer |
| Regions.OwnedMemory.AddReference | src/Channels/BufferSegment.cs:65 | the reference count grows by one |
| Regions.OwnedMemory.Release | src/Channels/BufferSegment.cs:92 | the reference count drops by one; the caller must hold a reference |
| Regions.OwnedMemory.Dispose | src/Channels/BufferSegment.cs:96 | the region is marked disposed; its count is unchanged |
| Regions.OwnedMemory.MakeCopy | src/Channels/BufferSegment.cs:81 | a fresh owned region with a fresh array, no references, and a window of `length` bytes equal to the requested bytes of the unowned region |
| Segments.BufferSegment.AsView | src/Channels/BufferSegment.cs:18-30 | the segment as a value is well formed exactly when the documented invariant 0 <= Start <= End <= Buffer.Length holds |
| Segments.BufferSegment.ReadableBytes | src/Channels/BufferSegment.cs:47-50 | for a valid segment: non-negative, and the number of active bytes of the window |
| Segments.BufferSegment.WritableBytes | src/Channels/BufferSegment.cs:52-55 | for a valid segment: non-negative, and readable plus writable bytes make up the region from Start to its end |
| Segments.BufferSegment.Leasing | src/Channels/BufferSegment.cs:58-66 | an empty, writable, unlinked window at offset 0 over the region, with all of the region writable; the region gains one reference |
| Segments.BufferSegment.Cloning | src/Channels/BufferSegment.cs:68-88 | a read-only, unlinked segment. Non-unowned region: same region and window, one more reference. Unowned region: a fresh owned copy holding exactly the window's bytes with one reference, and the unowned region gives one back |
| Segments.BufferSegment.Dispose | src/Channels/BufferSegment.cs:90-98 | the region loses one reference and is disposed when that leaves it with none; otherwise its disposed flag is untouched |
| Segments.BufferSegment.CloneSegment | src/Channels/BufferSegment.cs:68-88 | a new, read-only, unlinked clone that mirrors the window; for an unowned region, the owned copy under it is new, with a new array, and holds one reference; none of the new objects is an original region or one made before; the region's count moves by one step |
| Segments.BufferSegment.CloneOne | src/Channels/BufferSegment.cs:124 | a new unlinked clone that mirrors the next window, extending the clones made so far; the objects it creates join those the clone has made, apart from every original region, and its copy, for an unowned region, is none of the earlier clones' copies; the region's count moves by one step |
| Segments.BufferSegment.Append | src/Channels/BufferSegment.cs:135-137 | the new clone is linked after the current tail; links, mirroring, the objects made and count steps all extend by one |
| Segments.BufferSegment.Step | src/Channels/BufferSegment.cs:133-139 | one loop pass keeps the loop invariant `Walk` (path, linked clones mirroring the windows so far, their copies private, counts accounted), one segment further along, and every object it makes is new |
| Segments.BufferSegment.CloneInterior | src/Channels/BufferSegment.cs:131-139 | the loop stops at the end segment, having cloned every segment before it, linked in order, with counts accounted; every object made in the loop is new |
| Segments.BufferSegment.CloneHead | src/Channels/BufferSegment.cs:128-131 | the first clone is cut at the begin cursor, its objects are new, and it establishes the loop invariant at the second segment |
| Segments.BufferSegment.Finish | src/Channels/BufferSegment.cs:141-142 | the last clone is cut at the end cursor, linked after the loop's tail, and ends the chain; the objects it makes are new |
| Segments.BufferSegment.CloneRest | src/Channels/BufferSegment.cs:131-142 | after the first clone, the loop and the last clone complete a linked chain, one clone per segment, mirroring the cut windows, with counts accounted and every object made since the first clone new |
| Segments.BufferSegment.CloneSingleTracked | src/Channels/BufferSegment.cs:122-126 | same-segment cursors give exactly one clone of the window between them; the objects it makes are new and private to it |
| Segments.BufferSegment.CloneSingle | src/Channels/BufferSegment.cs:122-126 | same-segment cursors give exactly one new clone of the window between them, over a new copy holding one reference for an unowned region; the region's count moves by one step |
| Segments.BufferSegment.CloneManyTracked | src/Channels/BufferSegment.cs:128-144 | a chain of one clone per original segment, linked in order, ending in null, mirroring the cut windows, with counts accounted; all the objects made are new, none is an original region, and no two clones share a copy |
| Segments.BufferSegment.CloneMany | src/Channels/BufferSegment.cs:128-144 | a chain of one new clone per original segment, each over its own new copy holding one reference where the region is unowned (no two clones share a copy), linked in order, ending in null, mirroring the cut windows; each region's count moves by one step per segment over it |
| Segments.BufferSegment.CloneWindows | src/Channels/BufferSegment.cs:122-144 | one new clone per segment, whether the cursors share a segment or not, with the same guarantees in both cases |
| Segments.BufferSegment.Clone | src/Channels/BufferSegment.cs:117-145 | one new clone per original segment, linked from head to last, last.next null, each read-only and mirroring its cut window; a clone over an unowned region stands on a new owned copy, with a new array, holding only that clone's reference, and no two clones share a copy; content equals the original content from the begin cursor to the end cursor; each region's count moves by one per segment over it (plus for owned, minus for unowned); only those counts change |
| Segments.FreshClones | src/Channels/BufferSegment.cs:76-87 | when all the objects the clone made are new, every clone is new, and so are the copy under a clone of an unowned region and its array; the copy holds one reference, and no two clones share a copy |
| Segments.ClonedContent | src/Channels/BufferSegment.cs:117-145 | segments mirroring the cut windows are well formed and hold exactly the requested range of the original content |
| Segments.CutWindows | src/Channels/BufferSegment.cs:124-141 | the cut windows are the original windows except the first, cut at the begin index, and the last, cut at the end index |
| Segments.WalkDone | src/Channels/BufferSegment.cs:133 | when the loop meets the end segment it has reached the last segment of the path |
| Segments.Remaining | src/Channels/BufferSegment.cs:84 | an unowned region still holds a reference to give back when its next segment is cloned |
| Segments.AccountedAll | src/Channels/BufferSegment.cs:84-87 | after the last segment, each region's count has moved by one step per segment over it |
| Chains.CloneViews | src/Channels/BufferSegment.cs:124-141 | one window per original segment: the first cut at the begin index, the last at the end index, the rest unchanged; all well formed for a valid range |
| Chains.CloneContent | src/Channels/BufferSegment.cs:117-145 | the cut windows' content is the original content between the two cursor positions, which lie in order within it |
| Chains.CloneContentSingle | src/Channels/BufferSegment.cs:122-126 | for cursors in one segment, the clone's content is that segment's bytes between them |
| Chains.CloneContentSpread | src/Channels/BufferSegment.cs:128-144 | for cursors in different segments, the clone's content is the original content between them |
| Chains.EmptyClone | src/Channels/BufferSegment.cs:122-126 | cloning an empty range yields one empty segment, never an empty chain |

## Left out

- `UvTcpListener`: socket and event-loop code, outside the segment core.
- `BufferSegment.ToString`: debugger display only.
- The atomicity of reference counting. The counts are updated sequentially; concurrent segments are not modelled.
- `Regions.OwnedMemory.TryGetPointerCore`: the unsafe pointer is modelled only by its null-ness.
- `ReferenceCountedBuffer` and the `OwnedMemory<byte>` base class are not part of this model. `AddReference`, `Release` and the base `Dispose` have contracts only, and `ReferenceCount` reads the count field. A new region is taken to start with no references.
- `Regions.OwnedMemory.Release`: requires a held reference. The base class's behaviour on over-release is not modelled.
- `Regions.OwnedMemory.MakeCopy`: `UnownedBuffer` is not part of this model. The copy is given the window `[0, length)` of a fresh array, and only the contract is relied on.
- `Regions.OwnedMemory.Dispose`: only the disposed flag and the call to `DisposeCore` are modelled.
- `Memory`, `Span` slicing and the segment pool (a TODO in the source) are left out.
- Integer width: `Start` and `End` are 32-bit in the source and unbounded here. No operation modelled computes beyond the region's length, so no wrap-around arises.
- `Segments.BufferSegment.Clone`: requires the end segment to be reachable from the begin segment along `Next`. The source would otherwise fail with a null dereference, or loop forever, allocating clones, on a cyclic chain.
- `Segments.BufferSegment.Clone`: requires cursors in valid windows and in order when they share a segment. The source leaves this to its callers.
- `Segments.BufferSegment.Clone`: requires each unowned region to hold at least one reference per segment over it, as every segment holds one. Releasing on the original's behalf then never underflows.
- `Segments.BufferSegment.Cloning`: on a non-unowned region the window is taken as given, as in the source. It is valid only when the caller's window is.
