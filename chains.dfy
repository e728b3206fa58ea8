/// The value-level meaning of a segment chain: each segment is a window
/// `[start, end)` onto the bytes of its region, and a chain denotes the
/// concatenation of its active windows. Range cloning is specified here on
/// values; the segment class is proved against these definitions.
module Chains {
  import opened Regions

  /// One segment seen as a value: its region's bytes and its window.
  datatype View = View(bytes: seq<byte>, start: int, end: int)

  /// The window invariant `0 <= Start <= End <= Length`.
  predicate WellFormed(v: View)
  {
    0 <= v.start <= v.end <= |v.bytes|
  }

  predicate AllWellFormed(vs: seq<View>)
  {
    forall i :: 0 <= i < |vs| ==> WellFormed(vs[i])
  }

  /// The "active" bytes of a segment.
  function Active(v: View): seq<byte>
    requires WellFormed(v)
  {
    v.bytes[v.start..v.end]
  }

  /// The logical byte run a chain represents.
  function Content(vs: seq<View>): (c: seq<byte>)
    requires AllWellFormed(vs)
    ensures |c| == Length(vs)
  {
    if vs == [] then [] else Active(vs[0]) + Content(vs[1..])
  }

  /// The total number of readable bytes of a chain.
  function Length(vs: seq<View>): int
  {
    if vs == [] then 0 else vs[0].end - vs[0].start + Length(vs[1..])
  }

  /// A cursor `(k, index)` is valid when it points into, or just past, the
  /// active window of the chain's `k`-th segment.
  predicate ValidCursor(vs: seq<View>, k: int, index: int)
  {
    0 <= k < |vs| && vs[k].start <= index <= vs[k].end
  }

  /// The absolute offset, within the chain's content, of the cursor `(k, index)`.
  function Position(vs: seq<View>, k: int, index: int): int
    requires 0 <= k < |vs|
  {
    Length(vs[..k]) + (index - vs[k].start)
  }

  /// The range a clone is asked for: both cursors valid and in chain order.
  predicate CloneRange(vs: seq<View>, beginIndex: int, endIndex: int)
  {
    |vs| >= 1 && AllWellFormed(vs)
    && ValidCursor(vs, 0, beginIndex) && ValidCursor(vs, |vs| - 1, endIndex)
    && (|vs| == 1 ==> beginIndex <= endIndex)
  }

  /// The `i`-th window `BufferSegment.Clone` builds for the chain `vs`
  /// running from the begin cursor's segment to the end cursor's one: the
  /// original window, cut at `beginIndex` in the first segment and at
  /// `endIndex` in the last (both, when they are the same segment).
  function Cut(vs: seq<View>, beginIndex: int, endIndex: int, i: int): View
    requires 0 <= i < |vs|
  {
    View(vs[i].bytes, if i == 0 then beginIndex else vs[i].start, if i == |vs| - 1 then endIndex else vs[i].end)
  }

  /// All the windows of the clone, in chain order.
  function CloneViews(vs: seq<View>, beginIndex: int, endIndex: int): (r: seq<View>)
    ensures |r| == |vs|
    ensures forall i :: 0 <= i < |vs| ==> r[i] == Cut(vs, beginIndex, endIndex, i)
    ensures CloneRange(vs, beginIndex, endIndex) ==> AllWellFormed(r)
  {
    seq(|vs|, i requires 0 <= i < |vs| => Cut(vs, beginIndex, endIndex, i))
  }

  lemma {:induction false} LengthAppend(a: seq<View>, b: seq<View>)
    ensures Length(a + b) == Length(a) + Length(b)
  {
    if a == [] {
      assert a + b == b;
    } else {
      assert (a + b)[1..] == a[1..] + b;
      LengthAppend(a[1..], b);
    }
  }

  /// Concatenating chains concatenates their contents.
  lemma {:induction false} ContentAppend(a: seq<View>, b: seq<View>)
    requires AllWellFormed(a) && AllWellFormed(b)
    ensures AllWellFormed(a + b)
    ensures Content(a + b) == Content(a) + Content(b)
  {
    assert AllWellFormed(a + b) by {
      forall i | 0 <= i < |a + b| ensures WellFormed((a + b)[i]) {
        if i < |a| { assert WellFormed(a[i]); } else { assert WellFormed(b[i - |a|]); }
      }
    }
    if a == [] {
      assert a + b == b;
    } else {
      assert (a + b)[1..] == a[1..] + b;
      assert AllWellFormed(a[1..]) by {
        forall i | 0 <= i < |a[1..]| ensures WellFormed(a[1..][i]) { assert a[1..][i] == a[i + 1]; }
      }
      ContentAppend(a[1..], b);
    }
  }

  /// Two chains whose segments have the same active bytes, position by
  /// position, have the same content, whatever regions back them.
  lemma {:induction false} ContentPointwise(a: seq<View>, b: seq<View>)
    requires AllWellFormed(a) && AllWellFormed(b) && |a| == |b|
    requires forall i :: 0 <= i < |a| ==> Active(a[i]) == Active(b[i])
    ensures Content(a) == Content(b)
  {
    if a != [] {
      assert AllWellFormed(a[1..]) by {
        forall i | 0 <= i < |a[1..]| ensures WellFormed(a[1..][i]) { assert a[1..][i] == a[i + 1]; }
      }
      assert AllWellFormed(b[1..]) by {
        forall i | 0 <= i < |b[1..]| ensures WellFormed(b[1..][i]) { assert b[1..][i] == b[i + 1]; }
      }
      forall i | 0 <= i < |a[1..]| ensures Active(a[1..][i]) == Active(b[1..][i]) {
        assert a[1..][i] == a[i + 1] && b[1..][i] == b[i + 1];
      }
      ContentPointwise(a[1..], b[1..]);
    }
  }

  /// A chain of two or more segments is its first window, the windows in
  /// between and its last window.
  lemma {:induction false} SplitEnds(vs: seq<View>)
    requires |vs| >= 2 && AllWellFormed(vs)
    ensures AllWellFormed(vs[1..|vs| - 1])
    ensures Content(vs) == Active(vs[0]) + Content(vs[1..|vs| - 1]) + Active(vs[|vs| - 1])
    ensures Length(vs[..|vs| - 1]) == |Active(vs[0])| + |Content(vs[1..|vs| - 1])|
  {
    var n := |vs|;
    var first, mid, last := vs[..1], vs[1..n - 1], vs[n - 1..];
    assert vs == first + mid + last;
    assert vs[..n - 1] == first + mid;
    assert AllWellFormed(first) && AllWellFormed(mid) && AllWellFormed(last) by {
      forall i | 0 <= i < |mid| ensures WellFormed(mid[i]) { assert mid[i] == vs[i + 1]; }
      assert first[0] == vs[0] && last[0] == vs[n - 1];
    }
    ContentAppend(first, mid);
    ContentAppend(first + mid, last);
    LengthAppend(first, mid);
    assert first[1..] == [] && last[1..] == [];
  }

  /// Cutting `a + m + z` from offset `p` of `a` to offset `t` of `z`.
  lemma SliceAcross(cut: seq<byte>, whole: seq<byte>, a: seq<byte>, m: seq<byte>, z: seq<byte>, p: int, t: int)
    requires 0 <= p <= |a| && 0 <= t <= |z|
    requires cut == a[p..] + m + z[..t] && whole == a + m + z
    ensures 0 <= p <= |a| + |m| + t <= |whole|
    ensures cut == whole[p..|a| + |m| + t]
  {
  }

  /// Narrowing a window to `[b, e)` keeps the matching part of its active bytes.
  lemma ActiveCut(v: View, b: int, e: int)
    requires WellFormed(v) && v.start <= b <= e <= v.end
    ensures WellFormed(View(v.bytes, b, e))
    ensures Active(View(v.bytes, b, e)) == Active(v)[b - v.start..e - v.start]
  {
    var x, y := Active(View(v.bytes, b, e)), Active(v)[b - v.start..e - v.start];
    forall k | 0 <= k < |x| ensures x[k] == y[k] {
      assert y[k] == Active(v)[b - v.start + k];
    }
  }

  /// A one-segment chain denotes that segment's active bytes.
  lemma ContentOne(vs: seq<View>)
    requires |vs| == 1 && WellFormed(vs[0])
    ensures AllWellFormed(vs) && Content(vs) == Active(vs[0])
  {
    assert vs[1..] == [];
    assert Active(vs[0]) + [] == Active(vs[0]);
  }

  lemma CloneContentSingle(vs: seq<View>, beginIndex: int, endIndex: int)
    requires CloneRange(vs, beginIndex, endIndex) && |vs| == 1
    ensures AllWellFormed(CloneViews(vs, beginIndex, endIndex))
    ensures Position(vs, 0, beginIndex) == beginIndex - vs[0].start
    ensures Position(vs, 0, endIndex) == endIndex - vs[0].start
    ensures Content(CloneViews(vs, beginIndex, endIndex)) == Content(vs)[beginIndex - vs[0].start..endIndex - vs[0].start]
  {
    var r := CloneViews(vs, beginIndex, endIndex);
    var v := vs[0];
    assert ValidCursor(vs, 0, beginIndex) && ValidCursor(vs, 0, endIndex);
    assert WellFormed(v) && r[0] == View(v.bytes, beginIndex, endIndex);
    assert vs[..0] == [];
    ActiveCut(v, beginIndex, endIndex);
    ContentOne(r);
    ContentOne(vs);
  }

  /// The windows strictly between the first and the last are cloned whole.
  lemma CloneMiddle(vs: seq<View>, beginIndex: int, endIndex: int)
    requires |vs| >= 2
    ensures CloneViews(vs, beginIndex, endIndex)[1..|vs| - 1] == vs[1..|vs| - 1]
  {
    var n, r := |vs|, CloneViews(vs, beginIndex, endIndex);
    forall i | 1 <= i < n - 1 ensures r[i] == vs[i] {
      assert r[i] == Cut(vs, beginIndex, endIndex, i);
    }
  }

  lemma CloneContentMulti(vs: seq<View>, beginIndex: int, endIndex: int)
    requires CloneRange(vs, beginIndex, endIndex) && |vs| >= 2
    ensures AllWellFormed(CloneViews(vs, beginIndex, endIndex)) && AllWellFormed(vs[1..|vs| - 1])
    ensures Content(CloneViews(vs, beginIndex, endIndex))
         == Active(vs[0])[beginIndex - vs[0].start..] + Content(vs[1..|vs| - 1])
            + Active(vs[|vs| - 1])[..endIndex - vs[|vs| - 1].start]
  {
    var n := |vs|;
    var r := CloneViews(vs, beginIndex, endIndex);
    var first, last := vs[0], vs[n - 1];
    assert ValidCursor(vs, 0, beginIndex) && ValidCursor(vs, n - 1, endIndex);
    assert WellFormed(first) && WellFormed(last);
    assert r[0] == View(first.bytes, beginIndex, first.end);
    assert r[n - 1] == View(last.bytes, last.start, endIndex);
    ActiveCut(first, beginIndex, first.end);
    ActiveCut(last, last.start, endIndex);
    CloneMiddle(vs, beginIndex, endIndex);
    SplitEnds(r);
  }

  lemma PositionsMulti(vs: seq<View>, beginIndex: int, endIndex: int)
    requires |vs| >= 2 && AllWellFormed(vs)
    ensures AllWellFormed(vs[1..|vs| - 1])
    ensures Position(vs, 0, beginIndex) == beginIndex - vs[0].start
    ensures Position(vs, |vs| - 1, endIndex)
         == |Active(vs[0])| + |Content(vs[1..|vs| - 1])| + (endIndex - vs[|vs| - 1].start)
  {
    assert vs[..0] == [];
    SplitEnds(vs);
  }

  /// `CloneContent` for a chain of two or more segments.
  lemma CloneContentSpread(vs: seq<View>, beginIndex: int, endIndex: int)
    requires CloneRange(vs, beginIndex, endIndex) && |vs| >= 2
    ensures AllWellFormed(CloneViews(vs, beginIndex, endIndex))
    ensures 0 <= Position(vs, 0, beginIndex) <= Position(vs, |vs| - 1, endIndex) <= |Content(vs)|
    ensures Content(CloneViews(vs, beginIndex, endIndex))
         == Content(vs)[Position(vs, 0, beginIndex)..Position(vs, |vs| - 1, endIndex)]
  {
    var n := |vs|;
    var first, last := vs[0], vs[n - 1];
    assert WellFormed(first) && WellFormed(last);
    CloneContentMulti(vs, beginIndex, endIndex);
    PositionsMulti(vs, beginIndex, endIndex);
    SplitEnds(vs);
    SliceAcross(Content(CloneViews(vs, beginIndex, endIndex)), Content(vs),
                Active(first), Content(vs[1..n - 1]), Active(last),
                beginIndex - first.start, endIndex - last.start);
  }

  /// The clone is a snapshot of exactly the requested range: its content is
  /// the original chain's content from the begin cursor up to the end cursor.
  lemma CloneContent(vs: seq<View>, beginIndex: int, endIndex: int)
    requires CloneRange(vs, beginIndex, endIndex)
    ensures AllWellFormed(CloneViews(vs, beginIndex, endIndex))
    ensures 0 <= Position(vs, 0, beginIndex) <= Position(vs, |vs| - 1, endIndex) <= |Content(vs)|
    ensures Content(CloneViews(vs, beginIndex, endIndex))
         == Content(vs)[Position(vs, 0, beginIndex)..Position(vs, |vs| - 1, endIndex)]
  {
    if |vs| == 1 {
      CloneContentSingle(vs, beginIndex, endIndex);
    } else {
      CloneContentSpread(vs, beginIndex, endIndex);
    }
  }

  /// Cloning an empty range (both cursors at the same place) yields one
  /// segment with nothing to read, never an empty chain.
  lemma EmptyClone(v: View, index: int)
    requires WellFormed(v) && v.start <= index <= v.end
    ensures CloneViews([v], index, index) == [View(v.bytes, index, index)]
    ensures Content(CloneViews([v], index, index)) == []
  {
  }
}
