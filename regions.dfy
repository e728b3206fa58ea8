/// Reference-counted memory regions: the capability contract a buffer segment
/// relies on, the heap-backed `OwnedBuffer` kind, and the caller-supplied
/// `UnownedBuffer` kind that must be copied before it is retained.
module Regions {

  newtype byte = x: int | 0 <= x < 256

  /// The concrete region kinds the segment code distinguishes. `Owned` is an
  /// `OwnedBuffer` (one heap array it owns); `Unowned` is an `UnownedBuffer`
  /// over memory its caller may reuse as soon as the exposing call returns.
  datatype Kind = Owned | Unowned

  /// A view onto an array: the part `[offset, offset + length)` of `buffer`.
  datatype Span = Span(buffer: array<byte>, offset: nat, length: nat)

  /// .NET's `ArraySegment<byte>`: an array with an offset and a count.
  datatype ArraySegment = ArraySegment(buffer: array<byte>, offset: nat, count: nat)

  /// The outcome of asking for a raw pointer; only its null-ness is modelled.
  datatype Pointer = Null | Pinned(address: nat)

  /// The bytes a span denotes, when it lies within its array.
  ghost function SpanBytes(s: Span): seq<byte>
    reads s.buffer
    requires s.offset + s.length <= s.buffer.Length
  {
    s.buffer[s.offset..s.offset + s.length]
  }

  /// The bytes an array segment denotes, when it lies within its array.
  ghost function SegmentBytes(a: ArraySegment): seq<byte>
    reads a.buffer
    requires a.offset + a.count <= a.buffer.Length
  {
    a.buffer[a.offset..a.offset + a.count]
  }

  /// A memory region with a reference count (`OwnedMemory<byte>`). The
  /// backing array is fixed at construction; the count and the liveness flag
  /// are the only state that changes.
  class OwnedMemory {
    const kind: Kind
    /// The backing store (`OwnedBuffer._buffer`; for an unowned region the
    /// caller-supplied memory).
    const data: array<byte>
    var refCount: nat
    var disposed: bool

    /// `OwnedBuffer(byte[] buffer)`: wraps the given array without copying it.
    constructor OwnedBuffer(buffer: array<byte>)
      ensures kind == Owned && data == buffer
      ensures refCount == 0 && !disposed
      ensures Bytes() == old(buffer[..])
    {
      kind := Owned;
      data := buffer;
      refCount := 0;
      disposed := false;
    }

    /// A region over caller-supplied memory that may not be retained.
    constructor UnownedBuffer(buffer: array<byte>)
      ensures kind == Unowned && data == buffer
      ensures refCount == 0 && !disposed
    {
      kind := Unowned;
      data := buffer;
      refCount := 0;
      disposed := false;
    }

    /// The length of the region in bytes: that of its backing array, fixed
    /// for the region's lifetime.
    function Length(): nat
    {
      data.Length
    }

    /// The region's bytes, as a value.
    ghost function Bytes(): seq<byte>
      reads data
    {
      data[..]
    }

    /// The number of references currently held on the region.
    function ReferenceCount(): nat
      reads this
    {
      refCount
    }

    /// Takes one more reference on the region (atomic in the source; applied
    /// sequentially here).
    method AddReference()
      modifies this`refCount
      ensures refCount == old(refCount) + 1
    {
      refCount := refCount + 1;
    }

    /// Gives one reference back. Releasing more references than were taken is
    /// a programming error, so the caller must hold one.
    method Release()
      requires refCount > 0
      modifies this`refCount
      ensures refCount == old(refCount) - 1
    {
      refCount := refCount - 1;
    }

    /// Reclaims the region: marks it dead and runs the kind's own disposal
    /// step. The backing bytes are left as they are.
    method Dispose()
      modifies this`disposed
      ensures disposed
      ensures refCount == old(refCount)
    {
      disposed := true;
      if kind == Owned {
        DisposeCore();
      }
    }

    /// `OwnedBuffer.GetSpanCore`: a view over the whole backing array.
    function GetSpanCore(): (s: Span)
      requires kind == Owned
      reads data
      ensures s.buffer == data && s.offset == 0 && s.length == Length()
      ensures SpanBytes(s) == Bytes()
    {
      Span(data, 0, data.Length)
    }

    /// `OwnedBuffer.DisposeCore`: nothing to return anywhere, so nothing changes.
    method DisposeCore()
      requires kind == Owned
      ensures unchanged(this) && unchanged(data)
    {
    }

    /// `OwnedBuffer.TryGetArrayCore`: always succeeds, with a segment that
    /// covers the whole backing array.
    method TryGetArrayCore() returns (ok: bool, segment: ArraySegment)
      requires kind == Owned
      ensures ok
      ensures segment.buffer == data && segment.offset == 0 && segment.count == Length()
      ensures SegmentBytes(segment) == Bytes()
    {
      segment := ArraySegment(data, 0, data.Length);
      ok := true;
    }

    /// `OwnedBuffer.TryGetPointerCore`: heap memory offers no pointer access.
    method TryGetPointerCore() returns (ok: bool, pointer: Pointer)
      requires kind == Owned
      ensures !ok && pointer == Null
    {
      pointer := Null;
      ok := false;
    }

    /// `UnownedBuffer.MakeCopy`: a fresh owned region whose window
    /// `[newStart, newEnd)` holds the `length` bytes at `offset`.
    method MakeCopy(offset: int, length: int) returns (copy: OwnedMemory, newStart: int, newEnd: int)
      requires kind == Unowned
      requires 0 <= offset && 0 <= length && offset + length <= Length()
      ensures fresh(copy) && fresh(copy.data)
      ensures copy.kind == Owned && copy.refCount == 0 && !copy.disposed
      ensures 0 <= newStart <= newEnd <= copy.Length() && newEnd - newStart == length
      ensures copy.data[newStart..newEnd] == data[offset..offset + length]
    {
      var bytes := new byte[length];
      forall i | 0 <= i < length {
        bytes[i] := data[offset + i];
      }
      copy := new OwnedMemory.OwnedBuffer(bytes);
      newStart, newEnd := 0, length;
    }
  }
}
