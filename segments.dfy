/// Buffer segments: windows `[start, end)` onto reference-counted regions,
/// linked through `next` into chains, and the range clone that snapshots part
/// of a chain as a fresh read-only chain sharing (or, for unowned memory,
/// copying) the underlying bytes.
module Segments {
  import opened Regions
  import opened Chains

  /// A position in a chain: a segment and an index into its region.
  datatype ReadCursor = ReadCursor(segment: BufferSegment, index: int)

  class BufferSegment {
    /// The region being tracked; the segment holds one reference on it.
    var buffer: OwnedMemory
    /// Offset into the region where the active bytes begin.
    var start: int
    /// Offset into the region where the active bytes end.
    var end: int
    /// The following segment when the active bytes span several regions.
    var next: BufferSegment?
    /// Set on clones: the active bytes may be shared and must not be written.
    var readOnly: bool

    /// The documented window invariant `0 <= Start <= End <= Buffer.Length`.
    ghost predicate Valid()
      reads this`buffer, this`start, this`end
    {
      0 <= start <= end <= buffer.Length()
    }

    /// This segment as a value: its region's bytes and its window.
    ghost function AsView(): (v: View)
      reads this`buffer, this`start, this`end, buffer.data
      ensures WellFormed(v) <==> Valid()
    {
      View(buffer.data[..], start, end)
    }

    /// `ReadableBytes`: how many bytes the active window holds.
    function ReadableBytes(): (n: int)
      reads this, buffer.data
      ensures Valid() ==> 0 <= n && n == |Active(AsView())|
    {
      end - start
    }

    /// `WritableBytes`: room left in the region after the active window.
    function WritableBytes(): (n: int)
      reads this
      ensures Valid() ==> 0 <= n && n + ReadableBytes() == buffer.Length() - start
    {
      buffer.Length() - end
    }

    /// The leasing constructor: an empty window at the start of a region,
    /// writable, unlinked, holding one new reference on the region.
    constructor Leasing(buffer: OwnedMemory)
      modifies buffer`refCount
      ensures this.buffer == buffer && start == 0 && end == 0
      ensures next == null && !readOnly
      ensures Valid() && ReadableBytes() == 0 && WritableBytes() == buffer.Length()
      ensures buffer.refCount == old(buffer.refCount) + 1
    {
      this.buffer := buffer;
      start := 0;
      end := 0;
      next := null;
      readOnly := false;
      new;
      this.buffer.AddReference();
    }

    /// The cloning (windowing) constructor: a read-only segment over
    /// `[start, end)` of `buffer`. An unowned region is copied first and its
    /// reference given back; the segment then references the copy.
    constructor Cloning(buffer: OwnedMemory, start: int, end: int)
      requires buffer.kind == Unowned ==> 0 <= start <= end <= buffer.Length() && buffer.refCount > 0
      modifies buffer`refCount
      ensures readOnly && next == null
      ensures buffer.kind != Unowned ==>
                this.buffer == buffer && this.start == start && this.end == end
                && buffer.refCount == old(buffer.refCount) + 1
      ensures buffer.kind == Unowned ==>
                fresh(this.buffer) && fresh(this.buffer.data) && this.buffer.kind == Owned
                && this.buffer.refCount == 1 && !this.buffer.disposed
                && Valid() && Active(AsView()) == buffer.data[start..end]
                && buffer.refCount == old(buffer.refCount) - 1
    {
      this.buffer := buffer;
      this.start := start;
      this.end := end;
      readOnly := true;
      next := null;
      new;
      if buffer.kind == Unowned {
        this.buffer, this.start, this.end := buffer.MakeCopy(start, end - start);
        buffer.Release();
      }
      this.buffer.AddReference();
    }

    /// Gives back the segment's reference; the region is disposed exactly
    /// when that leaves it unreferenced.
    method Dispose()
      requires buffer.refCount > 0
      modifies buffer
      ensures buffer.refCount == old(buffer.refCount) - 1
      ensures buffer.refCount == 0 ==> buffer.disposed
      ensures buffer.refCount != 0 ==> buffer.disposed == old(buffer.disposed)
    {
      buffer.Release();
      if buffer.ReferenceCount() == 0 {
        buffer.Dispose();
      }
    }

    /// The cloning constructor at work: a read-only clone of the window `w`,
    /// which is `[start, end)` of `region`, and the step it moves the
    /// region's count by. The objects it makes are new, so none of them is
    /// among the regions `regions` or the objects `made` that exist already.
    static method CloneSegment(region: OwnedMemory, start: int, end: int, ghost w: View,
                               ghost regions: seq<OwnedMemory>, ghost made: set<object>)
      returns (c: BufferSegment)
      requires w == View(region.data[..], start, end) && 0 <= start <= end <= region.Length()
      requires region.kind == Unowned ==> region.refCount > 0
      modifies region`refCount
      ensures fresh(NewObjects(c, region)) && c.next == null && Mirrors(c, w, region)
      ensures forall i :: 0 <= i < |regions| ==> regions[i] !in NewObjects(c, region)
      ensures region.kind == Unowned ==> c.buffer.refCount == 1 && c.buffer !in made
      ensures region.refCount == old(region.refCount) + RefDelta(region.kind, 1)
    {
      c := new BufferSegment.Cloning(region, start, end);
    }

    /// One clone made by `Clone`, before it is linked: a read-only segment
    /// standing for the window `[start, end)` of `region`, the region of the
    /// next segment of the original chain after those `built` stands for.
    /// `made` holds the objects the clones so far brought into being.
    static method CloneOne(region: OwnedMemory, start: int, end: int, ghost built: seq<BufferSegment>,
                           ghost regions: seq<OwnedMemory>, ghost windows: seq<View>, ghost base: seq<int>,
                           ghost made: set<object>)
      returns (c: BufferSegment)
      requires Cloned(built, regions, windows) && |built| < |regions| && region == regions[|built|]
      requires windows[|built|] == View(region.data[..], start, end) && 0 <= start <= end <= region.Length()
      requires Covered(regions, base) && Accounted(regions, base, |built|)
      requires Private(built, regions, made)
      modifies region`refCount
      ensures fresh(NewObjects(c, region)) && c.next == null
      ensures Cloned(built + [c], regions, windows)
      ensures Private(built + [c], regions, made + NewObjects(c, region))
      ensures Accounted(regions, base, |built| + 1)
    {
      Remaining(regions, base, |built|);
      Occurrences(regions, |built|);
      c := CloneSegment(region, start, end, windows[|built|], regions, made);
      ClonedSnoc(built, regions, windows, c);
      PrivateSnoc(built, regions, made, c);
    }

    /// One pass of the loop of `Clone`: a read-only clone of the window
    /// `[start, end)` of `region`, linked after `tail`, the last of the
    /// clones `built` made so far.
    static method Append(tail: BufferSegment, region: OwnedMemory, start: int, end: int, ghost built: seq<BufferSegment>,
                         ghost regions: seq<OwnedMemory>, ghost windows: seq<View>, ghost base: seq<int>,
                         ghost made: set<object>)
      returns (c: BufferSegment)
      requires Cloned(built, regions, windows) && |built| < |regions| && region == regions[|built|]
      requires windows[|built|] == View(region.data[..], start, end) && 0 <= start <= end <= region.Length()
      requires Covered(regions, base) && Accounted(regions, base, |built|)
      requires Private(built, regions, made)
      requires Linked(built) && |built| >= 1 && tail == built[|built| - 1] && tail.next == null
      modifies tail`next, region`refCount
      ensures fresh(NewObjects(c, region)) && c.next == null && tail.next == c
      ensures Linked(built + [c]) && Cloned(built + [c], regions, windows)
      ensures Private(built + [c], regions, made + NewObjects(c, region))
      ensures Accounted(regions, base, |built| + 1)
    {
      c := CloneOne(region, start, end, built, regions, windows, base, made);
      tail.next := c;
    }

    /// The body of the loop of `Clone`: clones `orig`, the `k`-th segment of
    /// the original chain, whole, and links the clone after `tail`.
    static method Step(orig: BufferSegment, tail: BufferSegment, ghost chain: seq<BufferSegment>, ghost regions: seq<OwnedMemory>,
                       ghost windows: seq<View>, ghost base: seq<int>, ghost endOrig: BufferSegment,
                       ghost built: seq<BufferSegment>, ghost k: int, ghost made: set<object>)
      returns (c: BufferSegment, ghost made': set<object>)
      requires Walk(chain, regions, windows, base, endOrig, orig, tail, built, k, made) && orig != endOrig
      modifies tail`next, orig.buffer`refCount
      ensures fresh(c) && made <= made' && fresh(made' - made)
      ensures Walk(chain, regions, windows, base, endOrig, orig.next, c, built + [c], k + 1, made')
    {
      c := Append(tail, orig.buffer, orig.start, orig.end, built, regions, windows, base, made);
      made' := made + NewObjects(c, orig.buffer);
    }

    /// The loop of `Clone`: walks the original chain from its second segment
    /// up to (not including) `endOrig`, cloning each segment whole and
    /// linking the clone after the previous one. On entry `endClone` is the
    /// clone of the first segment; on exit `tail` is the clone of the last
    /// but one, `built` holds the clones made so far and `made` the objects
    /// they brought into being.
    static method CloneInterior(endClone: BufferSegment, beginOrig: BufferSegment?, endOrig: BufferSegment,
                                ghost chain: seq<BufferSegment>, ghost regions: seq<OwnedMemory>, ghost windows: seq<View>,
                                ghost base: seq<int>, ghost rs: set<OwnedMemory>, ghost made0: set<object>)
      returns (tail: BufferSegment, ghost built: seq<BufferSegment>, ghost made: set<object>)
      requires Walk(chain, regions, windows, base, endOrig, beginOrig, endClone, [endClone], 1, made0)
      requires forall i :: 0 <= i < |regions| ==> regions[i] in rs
      modifies endClone`next, rs`refCount
      ensures Walk(chain, regions, windows, base, endOrig, endOrig, tail, built, |chain| - 1, made)
      ensures built[0] == endClone && (tail == endClone || fresh(tail))
      ensures made0 <= made && fresh(made - made0)
    {
      tail := endClone;
      built := [endClone];
      made := made0;
      var orig := beginOrig;
      ghost var k := 1;
      while orig != endOrig
        invariant Walk(chain, regions, windows, base, endOrig, orig, tail, built, k, made)
        invariant built[0] == endClone && (tail == endClone || fresh(tail))
        invariant made0 <= made && fresh(made - made0)
        decreases |chain| - k
      {
        ghost var before := made;
        label Pass:
        tail, made := Step(orig, tail, chain, regions, windows, base, endOrig, built, k, made);
        forall o | o in made - made0 ensures fresh(o) {
          if o !in before {
            assert !old@Pass(allocated(o));
          }
        }
        orig := orig.next;
        built := built + [tail];
        k := k + 1;
      }
      WalkDone(chain, regions, windows, base, endOrig, tail, built, k, made);
    }

    /// The first clone of a chain of two or more segments: the first window,
    /// cut at the begin cursor, ready for the loop.
    static method CloneHead(begin: ReadCursor, ghost chain: seq<BufferSegment>, ghost regions: seq<OwnedMemory>,
                            ghost windows: seq<View>, ghost base: seq<int>, ghost endOrig: BufferSegment)
      returns (c: BufferSegment, ghost made: set<object>)
      requires |chain| >= 2 && IsPath(chain, begin.segment, endOrig) && Tracks(chain, regions, windows, 1, |chain| - 1)
      requires windows[0] == View(regions[0].data[..], begin.index, begin.segment.end) && WellFormed(windows[0])
      requires Covered(regions, base) && Accounted(regions, base, 0)
      modifies begin.segment.buffer`refCount
      ensures fresh(made)
      ensures Walk(chain, regions, windows, base, endOrig, begin.segment.next, c, [c], 1, made)
    {
      c := CloneOne(begin.segment.buffer, begin.index, begin.segment.end, [], regions, windows, base, {});
      made := {} + NewObjects(c, begin.segment.buffer);
      assert [] + [c] == [c];
    }

    /// The last clone of a chain of two or more segments: the last window,
    /// cut at the end cursor, linked after `tail`.
    static method Finish(tail: BufferSegment, end: ReadCursor, ghost chain: seq<BufferSegment>, ghost regions: seq<OwnedMemory>,
                         ghost windows: seq<View>, ghost base: seq<int>, ghost built: seq<BufferSegment>,
                         ghost made: set<object>)
      returns (last: BufferSegment, ghost made': set<object>)
      requires Walk(chain, regions, windows, base, end.segment, end.segment, tail, built, |chain| - 1, made)
      requires windows[|chain| - 1] == View(regions[|chain| - 1].data[..], end.segment.start, end.index)
      requires WellFormed(windows[|chain| - 1])
      modifies tail`next, end.segment.buffer`refCount
      ensures made' == made + NewObjects(last, end.segment.buffer) && fresh(NewObjects(last, end.segment.buffer))
      ensures last.next == null
      ensures Linked(built + [last]) && Cloned(built + [last], regions, windows) && Accounted(regions, base, |chain|)
      ensures Private(built + [last], regions, made')
    {
      last := Append(tail, end.segment.buffer, end.segment.start, end.index, built, regions, windows, base, made);
      made' := made + NewObjects(last, end.segment.buffer);
    }

    /// One clone, of the window between two cursors in the same segment;
    /// `made` holds the objects it brought into being.
    static method CloneSingleTracked(begin: ReadCursor, end: ReadCursor, ghost regions: seq<OwnedMemory>,
                              ghost windows: seq<View>, ghost base: seq<int>)
      returns (last: BufferSegment, ghost made: set<object>)
      requires 1 <= |regions| == |windows| && begin.segment.buffer == regions[0]
      requires windows[0] == View(regions[0].data[..], begin.index, end.index) && WellFormed(windows[0])
      requires Covered(regions, base) && Accounted(regions, base, 0)
      modifies begin.segment.buffer`refCount
      ensures fresh(made) && last.next == null
      ensures Cloned([last], regions, windows) && Private([last], regions, made) && Accounted(regions, base, 1)
    {
      last := CloneOne(begin.segment.buffer, begin.index, end.index, [], regions, windows, base, {});
      made := {} + NewObjects(last, begin.segment.buffer);
      assert [] + [last] == [last];
    }

    /// `Clone` when both cursors are in the same segment: one new clone, of
    /// the window between them, with the region's count accounted for.
    static method CloneSingle(begin: ReadCursor, end: ReadCursor, ghost regions: seq<OwnedMemory>,
                            ghost windows: seq<View>, ghost base: seq<int>)
      returns (head: BufferSegment, last: BufferSegment, ghost clones: seq<BufferSegment>)
      requires |regions| == |windows| == 1 && begin.segment.buffer == regions[0]
      requires windows[0] == View(regions[0].data[..], begin.index, end.index) && WellFormed(windows[0])
      requires Covered(regions, base) && Accounted(regions, base, 0)
      modifies begin.segment.buffer`refCount
      ensures |clones| == 1 && head == clones[0] && last == clones[|clones| - 1] && last.next == null
      ensures forall i :: 0 <= i < |clones| ==> fresh(clones[i])
      ensures forall i :: 0 <= i < |clones| && regions[i].kind == Unowned ==>
                fresh(clones[i].buffer) && fresh(clones[i].buffer.data) && clones[i].buffer.refCount == 1
      ensures Linked(clones) && Cloned(clones, regions, windows)
      ensures forall i :: 0 <= i < |regions| ==>
                regions[i].refCount == base[i] + RefDelta(regions[i].kind, Count(regions, regions[i]))
    {
      ghost var made;
      last, made := CloneSingleTracked(begin, end, regions, windows, base);
      head := last;
      clones := [last];
      FreshClones(clones, regions, made);
      AccountedAll(regions, base, 1);
    }

    /// The rest of `Clone` after the first clone `head`: the loop, then the
    /// last segment up to the end cursor.
    static method CloneRest(head: BufferSegment, second: BufferSegment?, end: ReadCursor, ghost chain: seq<BufferSegment>,
                            ghost regions: seq<OwnedMemory>, ghost windows: seq<View>, ghost base: seq<int>,
                            ghost rs: set<OwnedMemory>, ghost made0: set<object>)
      returns (last: BufferSegment, ghost clones: seq<BufferSegment>, ghost made: set<object>)
      requires Walk(chain, regions, windows, base, end.segment, second, head, [head], 1, made0)
      requires windows[|chain| - 1] == View(regions[|chain| - 1].data[..], end.segment.start, end.index)
      requires WellFormed(windows[|chain| - 1])
      requires forall i :: 0 <= i < |regions| ==> regions[i] in rs
      modifies head`next, rs`refCount
      ensures |clones| == |chain| && head == clones[0] && last == clones[|clones| - 1] && last.next == null
      ensures made0 <= made && fresh(made - made0) && Private(clones, regions, made)
      ensures Linked(clones) && Cloned(clones, regions, windows) && Accounted(regions, base, |chain|)
    {
      var tail;
      ghost var built, made1;
      tail, built, made1 := CloneInterior(head, second, end.segment, chain, regions, windows, base, rs, made0);
      last, made := Finish(tail, end, chain, regions, windows, base, built, made1);
      clones := built + [last];
    }

    /// One clone per segment from the cursor `begin` to the cursor `end`, in
    /// different segments; `made` holds the objects they brought into being.
    static method CloneManyTracked(begin: ReadCursor, end: ReadCursor, ghost chain: seq<BufferSegment>, ghost regions: seq<OwnedMemory>,
                            ghost windows: seq<View>, ghost base: seq<int>, ghost rs: set<OwnedMemory>)
      returns (head: BufferSegment, last: BufferSegment, ghost clones: seq<BufferSegment>, ghost made: set<object>)
      requires |chain| >= 2 && IsPath(chain, begin.segment, end.segment) && Tracks(chain, regions, windows, 1, |chain| - 1)
      requires windows[0] == View(regions[0].data[..], begin.index, begin.segment.end) && WellFormed(windows[0])
      requires windows[|chain| - 1] == View(regions[|chain| - 1].data[..], end.segment.start, end.index)
      requires WellFormed(windows[|chain| - 1])
      requires Covered(regions, base) && Accounted(regions, base, 0)
      requires forall i :: 0 <= i < |regions| ==> regions[i] in rs
      modifies rs`refCount
      ensures |clones| == |chain| && head == clones[0] && last == clones[|clones| - 1] && last.next == null
      ensures fresh(made) && Private(clones, regions, made)
      ensures Linked(clones) && Cloned(clones, regions, windows) && Accounted(regions, base, |chain|)
    {
      ghost var made0;
      head, made0 := CloneHead(begin, chain, regions, windows, base, end.segment);
      label Headed:
      last, clones, made := CloneRest(head, begin.segment.next, end, chain, regions, windows, base, rs, made0);
      forall o | o in made ensures fresh(o) {
        if o !in made0 {
          assert !old@Headed(allocated(o));
        }
      }
    }

    /// `Clone` when the cursors are in different segments: new clones, one
    /// per segment, with every region's count accounted for.
    static method CloneMany(begin: ReadCursor, end: ReadCursor, ghost chain: seq<BufferSegment>, ghost regions: seq<OwnedMemory>,
                              ghost windows: seq<View>, ghost base: seq<int>, ghost rs: set<OwnedMemory>)
      returns (head: BufferSegment, last: BufferSegment, ghost clones: seq<BufferSegment>)
      requires |chain| >= 2 && IsPath(chain, begin.segment, end.segment) && Tracks(chain, regions, windows, 1, |chain| - 1)
      requires windows[0] == View(regions[0].data[..], begin.index, begin.segment.end) && WellFormed(windows[0])
      requires windows[|chain| - 1] == View(regions[|chain| - 1].data[..], end.segment.start, end.index)
      requires WellFormed(windows[|chain| - 1])
      requires Covered(regions, base) && Accounted(regions, base, 0)
      requires forall i :: 0 <= i < |regions| ==> regions[i] in rs
      modifies rs`refCount
      ensures |clones| == |chain| && head == clones[0] && last == clones[|clones| - 1] && last.next == null
      ensures forall i :: 0 <= i < |clones| ==> fresh(clones[i])
      ensures forall i :: 0 <= i < |clones| && regions[i].kind == Unowned ==>
                fresh(clones[i].buffer) && fresh(clones[i].buffer.data) && clones[i].buffer.refCount == 1
      ensures SeparateCopies(clones, regions)
      ensures Linked(clones) && Cloned(clones, regions, windows)
      ensures forall i :: 0 <= i < |regions| ==>
                regions[i].refCount == base[i] + RefDelta(regions[i].kind, Count(regions, regions[i]))
    {
      ghost var made;
      head, last, clones, made := CloneManyTracked(begin, end, chain, regions, windows, base, rs);
      FreshClones(clones, regions, made);
      AccountedAll(regions, base, |clones|);
    }

    /// The clones for the windows `windows` of `chain`, one segment or many
    /// as the cursors share a segment or not.
    static method CloneWindows(begin: ReadCursor, end: ReadCursor, ghost chain: seq<BufferSegment>,
                               ghost regions: seq<OwnedMemory>, ghost windows: seq<View>, ghost base: seq<int>)
      returns (head: BufferSegment, last: BufferSegment, ghost clones: seq<BufferSegment>)
      requires IsPath(chain, begin.segment, end.segment) && |regions| == |windows| == |chain|
      requires chain[0].buffer == regions[0] && chain[|chain| - 1].buffer == regions[|chain| - 1]
      requires |chain| >= 2 ==> Tracks(chain, regions, windows, 1, |chain| - 1)
      requires windows[0] == View(regions[0].data[..], begin.index, if |chain| == 1 then end.index else chain[0].end)
      requires windows[|chain| - 1]
            == View(regions[|chain| - 1].data[..], if |chain| == 1 then begin.index else chain[|chain| - 1].start, end.index)
      requires WellFormed(windows[0]) && WellFormed(windows[|chain| - 1])
      requires Covered(regions, base) && Accounted(regions, base, 0)
      modifies regions`refCount
      ensures |clones| == |chain| && head == clones[0] && last == clones[|clones| - 1] && last.next == null
      ensures forall i :: 0 <= i < |clones| ==> fresh(clones[i])
      ensures forall i :: 0 <= i < |clones| && regions[i].kind == Unowned ==>
                fresh(clones[i].buffer) && fresh(clones[i].buffer.data) && clones[i].buffer.refCount == 1
      ensures SeparateCopies(clones, regions)
      ensures Linked(clones) && Cloned(clones, regions, windows)
      ensures forall i :: 0 <= i < |regions| ==>
                regions[i].refCount == base[i] + RefDelta(regions[i].kind, Count(regions, regions[i]))
    {
      if begin.segment == end.segment {
        assert |chain| == 1;
        head, last, clones := CloneSingle(begin, end, regions, windows, base);
      } else {
        ghost var rs := set i | 0 <= i < |regions| :: regions[i];
        head, last, clones := CloneMany(begin, end, chain, regions, windows, base, rs);
      }
    }

    /// `Clone`: a read-only snapshot of the bytes from the cursor `begin` up
    /// to the cursor `end`, as a new chain of segments running from `head` to
    /// `last`. `chain` is the original chain from `begin`'s segment to
    /// `end`'s, over `regions` and holding the windows `vs`. The counts of
    /// those regions are all the clone changes.
    static method Clone(begin: ReadCursor, end: ReadCursor, ghost chain: seq<BufferSegment>,
                        ghost regions: seq<OwnedMemory>, ghost vs: seq<View>)
      returns (head: BufferSegment, last: BufferSegment, ghost clones: seq<BufferSegment>)
      requires IsPath(chain, begin.segment, end.segment)
      requires Tracks(chain, regions, vs, 0, |chain|) && CloneRange(vs, begin.index, end.index)
      requires forall i :: 0 <= i < |regions| && regions[i].kind == Unowned ==> regions[i].refCount >= Count(regions, regions[i])
      modifies regions`refCount
      ensures |clones| == |chain| == |regions| && head == clones[0] && last == clones[|clones| - 1] && last.next == null
      ensures forall i :: 0 <= i < |clones| ==> fresh(clones[i])
      ensures forall i :: 0 <= i < |clones| && regions[i].kind == Unowned ==>
                fresh(clones[i].buffer) && fresh(clones[i].buffer.data) && clones[i].buffer.refCount == 1
      ensures SeparateCopies(clones, regions)
      ensures Linked(clones) && Cloned(clones, regions, CloneViews(vs, begin.index, end.index))
      ensures AllWellFormed(Views(clones))
      ensures 0 <= Position(vs, 0, begin.index) <= Position(vs, |vs| - 1, end.index) <= |Content(vs)|
      ensures Content(Views(clones)) == Content(vs)[Position(vs, 0, begin.index)..Position(vs, |vs| - 1, end.index)]
      ensures forall i :: 0 <= i < |regions| ==>
                regions[i].refCount == old(regions[i].refCount) + RefDelta(regions[i].kind, Count(regions, regions[i]))
    {
      ghost var base := Counts(regions);
      ghost var windows := CloneViews(vs, begin.index, end.index);
      CutWindows(chain, regions, vs, begin.index, end.index);
      assert regions[..0] == [];
      head, last, clones := CloneWindows(begin, end, chain, regions, windows, base);
      ClonedContent(clones, regions, vs, begin.index, end.index);
    }
  }

  /// `chain` runs along `next` links from `first` to `final`, meeting `final`
  /// only at its end.
  ghost predicate IsPath(chain: seq<BufferSegment>, first: BufferSegment, final: BufferSegment)
    reads chain`next
  {
    |chain| >= 1 && chain[0] == first && chain[|chain| - 1] == final
    && (forall i {:trigger chain[i].next} :: 0 <= i < |chain| - 1 ==> chain[i].next == chain[i + 1])
    && (forall i :: 0 <= i < |chain| - 1 ==> chain[i] != final)
  }

  /// The segments `chain[lo..hi]` reference `regions` and hold `windows`.
  ghost predicate Tracks(chain: seq<BufferSegment>, regions: seq<OwnedMemory>, windows: seq<View>, lo: int, hi: int)
    reads chain`buffer, chain`start, chain`end, set r | r in regions :: r.data
  {
    |regions| == |chain| && |windows| == |chain| && 0 <= lo <= hi <= |chain|
    && (forall i :: 0 <= i < |chain| ==> chain[i].buffer == regions[i])
    && (forall i :: lo <= i < hi ==>
          windows[i] == View(regions[i].data[..], chain[i].start, chain[i].end) && WellFormed(windows[i]))
  }

  /// The state of the loop of `Clone` once the first `k` segments of `chain`
  /// are cloned into `built`, ending with `tail`, and `orig` is the next
  /// segment to clone.
  ghost predicate Walk(chain: seq<BufferSegment>, regions: seq<OwnedMemory>, windows: seq<View>, base: seq<int>,
                       endOrig: BufferSegment, orig: BufferSegment?, tail: BufferSegment, built: seq<BufferSegment>, k: int,
                       made: set<object>)
    reads chain`next, chain`buffer, chain`start, chain`end, set r | r in regions :: r.data, regions`refCount
    reads built`next, built`buffer, built`start, built`end, built`readOnly, set c | c in built :: c.buffer.data
    reads (set o: OwnedMemory | o in made)`refCount, tail`next
  {
    |chain| >= 2 && IsPath(chain, chain[0], endOrig) && Tracks(chain, regions, windows, 1, |chain| - 1)
    && Covered(regions, base)
    && 1 <= k < |chain| && orig == chain[k]
    && |built| == k && tail == built[k - 1] && tail.next == null && tail !in chain
    && Linked(built) && Cloned(built, regions, windows) && Accounted(regions, base, k)
    && Private(built, regions, made)
  }

  /// The loop stops at the last segment of the chain.
  lemma WalkDone(chain: seq<BufferSegment>, regions: seq<OwnedMemory>, windows: seq<View>, base: seq<int>,
                 endOrig: BufferSegment, tail: BufferSegment, built: seq<BufferSegment>, k: int, made: set<object>)
    requires Walk(chain, regions, windows, base, endOrig, endOrig, tail, built, k, made)
    ensures k == |chain| - 1
  {
    if k < |chain| - 1 {
      assert false;
    }
  }

  /// The windows `CloneViews` cuts, seen on the original chain: the first and
  /// last cut at the cursors, those in between the original ones.
  lemma CutWindows(chain: seq<BufferSegment>, regions: seq<OwnedMemory>, vs: seq<View>, beginIndex: int, endIndex: int)
    requires Tracks(chain, regions, vs, 0, |chain|) && CloneRange(vs, beginIndex, endIndex)
    ensures |chain| >= 2 ==> Tracks(chain, regions, CloneViews(vs, beginIndex, endIndex), 1, |chain| - 1)
    ensures CloneViews(vs, beginIndex, endIndex)[0]
         == View(regions[0].data[..], beginIndex, if |chain| == 1 then endIndex else chain[0].end)
    ensures CloneViews(vs, beginIndex, endIndex)[|chain| - 1]
         == View(regions[|chain| - 1].data[..], if |chain| == 1 then beginIndex else chain[|chain| - 1].start, endIndex)
  {
    var ws := CloneViews(vs, beginIndex, endIndex);
    forall i | 1 <= i < |chain| - 1 ensures ws[i] == vs[i] {
      assert ws[i] == Cut(vs, beginIndex, endIndex, i);
    }
  }

  /// Every unowned region of the chain holds at least one reference per
  /// segment over it (`base` being the counts), as each segment holds one.
  ghost predicate Covered(regions: seq<OwnedMemory>, base: seq<int>)
  {
    |base| == |regions|
    && forall i :: 0 <= i < |regions| && regions[i].kind == Unowned ==> base[i] >= Count(regions, regions[i])
  }

  /// A clone `c` stands for the window `w` over the region `orig`: it is
  /// read-only and covers the same region and window, unless `orig` is
  /// unowned, in which case it covers an owned copy of the window's bytes.
  ghost predicate Mirrors(c: BufferSegment, w: View, orig: OwnedMemory)
    reads c`buffer, c`start, c`end, c`readOnly, c.buffer.data
  {
    c.readOnly && WellFormed(w)
    && (orig.kind != Unowned ==> c.buffer == orig && c.AsView() == w)
    && (orig.kind == Unowned ==> c.buffer.kind == Owned && c.Valid() && Active(c.AsView()) == Active(w))
  }

  /// `clones` stand, one by one, for the first `|clones|` of `windows` over
  /// `regions`.
  ghost predicate Cloned(clones: seq<BufferSegment>, regions: seq<OwnedMemory>, windows: seq<View>)
    reads clones`buffer, clones`start, clones`end, clones`readOnly, set c | c in clones :: c.buffer.data
    decreases |clones|
  {
    |clones| <= |regions| == |windows|
    && (clones != [] ==>
          Cloned(clones[..|clones| - 1], regions, windows)
          && Mirrors(clones[|clones| - 1], windows[|clones| - 1], regions[|clones| - 1]))
  }

  lemma ClonedSnoc(clones: seq<BufferSegment>, regions: seq<OwnedMemory>, windows: seq<View>, c: BufferSegment)
    requires Cloned(clones, regions, windows) && |clones| < |regions|
    requires Mirrors(c, windows[|clones|], regions[|clones|])
    ensures Cloned(clones + [c], regions, windows)
  {
    assert (clones + [c])[..|clones|] == clones;
  }

  lemma {:induction false} ClonedAt(clones: seq<BufferSegment>, regions: seq<OwnedMemory>, windows: seq<View>, i: int)
    requires Cloned(clones, regions, windows) && 0 <= i < |clones|
    ensures Mirrors(clones[i], windows[i], regions[i])
    decreases |clones|
  {
    if i < |clones| - 1 {
      ClonedAt(clones[..|clones| - 1], regions, windows, i);
    }
  }

  /// The objects that cloning a segment over `orig` into `c` brings into
  /// being: the segment, and for an unowned `orig` the owned copy and its
  /// array as well.
  ghost function NewObjects(c: BufferSegment, orig: OwnedMemory): set<object>
    reads c`buffer
  {
    var copy := c.buffer;
    if orig.kind == Unowned then {c, copy, copy.data} else {c}
  }

  /// The clones, and the copies standing in for unowned regions, are among
  /// the objects `made` by the clone, which holds no original region; each
  /// copy, with its array, is private to its clone and holds just the
  /// clone's reference.
  ghost predicate Private(clones: seq<BufferSegment>, regions: seq<OwnedMemory>, made: set<object>)
    reads clones`buffer, (set o: OwnedMemory | o in made)`refCount
  {
    |clones| <= |regions|
    && (forall i :: 0 <= i < |regions| ==> regions[i] !in made)
    && (forall i :: 0 <= i < |clones| ==> clones[i] in made)
    && (forall i :: 0 <= i < |clones| && regions[i].kind == Unowned ==>
          clones[i].buffer in made && clones[i].buffer.data in made && clones[i].buffer.refCount == 1)
    && SeparateCopies(clones, regions)
  }

  /// Clones over unowned regions stand on pairwise different copies, one
  /// made by each cloning.
  ghost predicate SeparateCopies(clones: seq<BufferSegment>, regions: seq<OwnedMemory>)
    reads clones`buffer
  {
    |clones| <= |regions|
    && forall i, j :: 0 <= i < j < |clones| && regions[i].kind == Unowned && regions[j].kind == Unowned ==>
         clones[i].buffer != clones[j].buffer
  }

  /// Clones whose objects are all new are themselves new, and so are the
  /// copies, with their arrays, standing in for unowned regions.
  twostate lemma FreshClones(new clones: seq<BufferSegment>, regions: seq<OwnedMemory>, new made: set<object>)
    requires fresh(made) && Private(clones, regions, made)
    ensures forall i :: 0 <= i < |clones| ==> fresh(clones[i])
    ensures forall i :: 0 <= i < |clones| && regions[i].kind == Unowned ==>
              fresh(clones[i].buffer) && fresh(clones[i].buffer.data) && clones[i].buffer.refCount == 1
    ensures SeparateCopies(clones, regions)
  {
  }

  lemma PrivateSnoc(clones: seq<BufferSegment>, regions: seq<OwnedMemory>, made: set<object>, c: BufferSegment)
    requires Private(clones, regions, made) && |clones| < |regions|
    requires forall i :: 0 <= i < |regions| ==> regions[i] !in NewObjects(c, regions[|clones|])
    requires regions[|clones|].kind == Unowned ==> c.buffer.refCount == 1 && c.buffer !in made
    ensures Private(clones + [c], regions, made + NewObjects(c, regions[|clones|]))
  {
  }

  /// The reference counts of `regions`, in order.
  ghost function Counts(regions: seq<OwnedMemory>): (counts: seq<int>)
    reads regions`refCount
    ensures |counts| == |regions| && forall i :: 0 <= i < |regions| ==> counts[i] == regions[i].refCount
  {
    if regions == [] then [] else Counts(regions[..|regions| - 1]) + [regions[|regions| - 1].refCount]
  }

  /// Each segment of `clones` links to the following one.
  ghost predicate Linked(clones: seq<BufferSegment>)
    reads clones`next
  {
    forall i {:trigger clones[i].next} :: 0 <= i < |clones| - 1 ==> clones[i].next == clones[i + 1]
  }

  /// Each region's count has moved from `base` by one step per clone made
  /// over it among the first `k` segments.
  ghost predicate Accounted(regions: seq<OwnedMemory>, base: seq<int>, k: int)
    reads regions`refCount
  {
    |base| == |regions| && 0 <= k <= |regions|
    && forall i :: 0 <= i < |regions| ==>
         regions[i].refCount == base[i] + RefDelta(regions[i].kind, Count(regions[..k], regions[i]))
  }

  /// Once every segment is cloned, each region's count has moved by one
  /// step per segment over it.
  lemma AccountedAll(regions: seq<OwnedMemory>, base: seq<int>, k: int)
    requires Accounted(regions, base, k) && k == |regions|
    ensures forall i :: 0 <= i < |regions| ==>
              regions[i].refCount == base[i] + RefDelta(regions[i].kind, Count(regions, regions[i]))
  {
    assert regions[..k] == regions;
  }

  /// An unowned region still holds a reference for each segment over it not
  /// yet cloned, so releasing one for the `k`-th segment is allowed.
  lemma Remaining(regions: seq<OwnedMemory>, base: seq<int>, k: int)
    requires Covered(regions, base) && 0 <= k < |regions|
    ensures regions[k].kind == Unowned ==> base[k] - Count(regions[..k], regions[k]) > 0
  {
    Occurrences(regions, k);
  }

  /// The windows of the segments `clones`, as values.
  ghost function Views(clones: seq<BufferSegment>): (r: seq<View>)
    reads clones`buffer, clones`start, clones`end, set c | c in clones :: c.buffer.data
    ensures |r| == |clones|
    ensures forall i :: 0 <= i < |clones| ==> r[i] == clones[i].AsView()
  {
    if clones == [] then [] else Views(clones[..|clones| - 1]) + [clones[|clones| - 1].AsView()]
  }

  /// Segments standing for the windows that `CloneViews` cuts hold, between
  /// them, exactly the requested range of the original content.
  lemma ClonedContent(clones: seq<BufferSegment>, regions: seq<OwnedMemory>, vs: seq<View>, beginIndex: int, endIndex: int)
    requires CloneRange(vs, beginIndex, endIndex) && |clones| == |vs|
    requires Cloned(clones, regions, CloneViews(vs, beginIndex, endIndex))
    ensures AllWellFormed(Views(clones))
    ensures 0 <= Position(vs, 0, beginIndex) <= Position(vs, |vs| - 1, endIndex) <= |Content(vs)|
    ensures Content(Views(clones)) == Content(vs)[Position(vs, 0, beginIndex)..Position(vs, |vs| - 1, endIndex)]
  {
    var ws := CloneViews(vs, beginIndex, endIndex);
    var cs := Views(clones);
    CloneContent(vs, beginIndex, endIndex);
    forall i | 0 <= i < |cs| ensures WellFormed(cs[i]) && Active(cs[i]) == Active(ws[i])
    {
      ClonedAt(clones, regions, ws, i);
    }
    ContentPointwise(cs, ws);
  }

  /// How a clone moves a region's count per segment it clones: one reference
  /// taken on an owned region, one given back on an unowned one.
  function RefDelta(kind: Kind, segments: nat): int
  {
    if kind == Unowned then 0 - segments else segments
  }

  /// How many entries of `s` are `x`.
  function Count(s: seq<OwnedMemory>, x: OwnedMemory): nat
  {
    if s == [] then 0 else Count(s[..|s| - 1], x) + (if s[|s| - 1] == x then 1 else 0)
  }

  /// Extending a prefix by one entry counts that entry once more, and a
  /// prefix never counts more than the whole.
  lemma Occurrences(s: seq<OwnedMemory>, k: nat)
    requires k < |s|
    ensures forall x :: Count(s[..k + 1], x) == Count(s[..k], x) + (if s[k] == x then 1 else 0)
    ensures Count(s[..k + 1], s[k]) <= Count(s, s[k])
  {
    assert s[..k + 1][..k] == s[..k];
    CountPrefix(s, k + 1, s[k]);
  }

  lemma {:induction false} CountPrefix(s: seq<OwnedMemory>, k: nat, x: OwnedMemory)
    requires k <= |s|
    ensures Count(s[..k], x) <= Count(s, x)
    decreases |s|
  {
    if k < |s| {
      var m := |s| - 1;
      assert s[..m][..k] == s[..k];
      CountPrefix(s[..m], k, x);
    } else {
      assert s[..k] == s;
    }
  }
}
