/** The offset/length buffer of VecBuffer.hpp in place, over a shared vector. */
module VecBuffers {
  import opened BufferValues
  import opened Options

  /** The vector that buffers share. */
  class VecData {
    var bytes: seq<Byte>

    constructor (size: nat)
      ensures bytes == Zeros(size)
    {
      bytes := Zeros(size);
    }
  }

  class VecBuffer {
    var offset: nat
    var len: nat
    const buffer: VecData

    ghost function View(): Buf
      reads this, buffer
    {
      Buf(buffer.bytes, offset, len)
    }

    ghost predicate Valid()
      reads this, buffer
    {
      View().Fits()
    }

    ghost function Contents(): seq<Byte>
      requires Valid()
      reads this, buffer
    {
      View().Contents()
    }

    constructor (size: nat)
      ensures Valid() && fresh(buffer)
      ensures View() == Buf(Zeros(size), 0, 0)
    {
      offset, len := 0, 0;
      buffer := new VecData(size);
    }

    constructor Shared(buffer: VecData, offset: nat, len: nat)
      requires offset + len <= |buffer.bytes|
      ensures Valid() && this.buffer == buffer
      ensures View() == Buf(buffer.bytes, offset, len)
    {
      this.offset, this.len, this.buffer := offset, len, buffer;
    }

    method MarkRead(size: nat)
      requires Valid() && size <= len
      modifies `offset, `len
      ensures Valid() && View() == BufferValues.MarkRead(old(View()), size)
    {
      offset := offset + size;
      len := len - size;
    }

    /** Copies bytes to the writable end and marks them written. */
    method Append(data: seq<Byte>)
      requires Valid() && |data| <= View().WrittableSize()
      modifies `len, buffer
      ensures Valid() && View() == BufferValues.Append(old(View()), data)
      ensures Contents() == old(Contents()) + data
    {
      AppendContents(View(), data);
      var at := offset + len;
      buffer.bytes := buffer.bytes[..at] + data + buffer.bytes[at + |data|..];
      len := len + |data|;
    }

    method Enlarge(size: nat)
      requires Valid()
      modifies buffer
      ensures Valid() && View() == BufferValues.Enlarge(old(View()), size)
    {
      buffer.bytes := buffer.bytes + Zeros(size);
    }

    method Ensure(size: nat)
      requires Valid()
      modifies buffer
      ensures Valid() && View() == BufferValues.Ensure(old(View()), size)
    {
      if size + offset > |buffer.bytes| {
        buffer.bytes := buffer.bytes + Zeros(size + offset - |buffer.bytes|);
      }
    }

    /** `peekInt16`, a signed number. */
    method PeekInt16() returns (x: int)
      requires Valid() && len >= 2
      ensures x == Signed(FromBe16(Contents()), 0x1_0000)
      ensures var high: int, low: int := Contents()[0], Contents()[1];
        x == if high < 128 then 256 * high + low else 256 * high + low - 0x1_0000
    {
      x := Signed(FromBe16(buffer.bytes[offset..offset + 2]), 0x1_0000);
    }

    /** A buffer on the first `size` readable bytes, sharing the vector, which
        this buffer leaves behind; nothing when fewer are readable. */
    method Split(size: nat) returns (piece: Option<VecBuffer>)
      requires Valid()
      modifies `offset, `len
      ensures Valid()
      ensures piece.Some? <==> size <= old(len)
      ensures piece.None? ==> View() == old(View())
      ensures piece.Some? ==>
        && fresh(piece.value) && piece.value.buffer == buffer
        && piece.value.View() == Buf(buffer.bytes, old(offset), size)
        && View() == BufferValues.MarkRead(old(View()), size)
    {
      if len >= size {
        var splited := new VecBuffer.Shared(buffer, offset, size);
        MarkRead(size);
        return Some(splited);
      }
      return None;
    }
  }
}
