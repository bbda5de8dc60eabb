/** The in-memory file the MZM codec reads and writes: a byte buffer and a
    cursor (`struct memfile`: start, current, end). Reads and writes do not
    check the end of the buffer, so each one here demands that its bytes
    are there; moving the cursor by hand (`mf->current += n`) is not
    checked either, and may leave it past the end. Values are written as
    their low bytes, words and double words little-endian. */
module MemFiles {
  import opened Bytes

  /** A memfile opened for reading over `data`. */
  class MemFile {
    const data: seq<int>
    var pos: int

    ghost predicate Valid()
      reads this
    {
      AllBytes(data) && pos >= 0
    }

    /** mfopen */
    constructor Open(contents: seq<int>)
      requires AllBytes(contents)
      ensures Valid() && data == contents && pos == 0
    {
      data := contents;
      pos := 0;
    }

    /** mfgetc: one unsigned byte. */
    method GetC() returns (c: int)
      requires Valid() && pos < |data|
      modifies this
      ensures Valid() && IsByte(c)
      ensures c == data[old(pos)] && pos == old(pos) + 1
    {
      c := data[pos];
      pos := pos + 1;
    }

    /** mfgetw: an unsigned little-endian word. */
    method GetW() returns (w: int)
      requires Valid() && pos + 2 <= |data|
      modifies this
      ensures Valid()
      ensures w == LeWord(data, old(pos)) && pos == old(pos) + 2
    {
      var a := GetC();
      var b := GetC();
      w := a + 256 * b;
    }

    /** mfgetd: a little-endian double word read into a C `int`. */
    method GetD() returns (d: int)
      requires Valid() && pos + 4 <= |data|
      modifies this
      ensures Valid()
      ensures d == LeDword(data, old(pos)) && pos == old(pos) + 4
    {
      var lo := GetW();
      var hi := GetW();
      d := Wrap32(lo + 0x1_0000 * hi);
    }

    /** mfread of `n` bytes. */
    method Read(n: int) returns (bytes: seq<int>)
      requires Valid() && 0 <= n && pos + n <= |data|
      modifies this
      ensures Valid()
      ensures bytes == data[old(pos)..old(pos) + n] && pos == old(pos) + n
    {
      bytes := data[pos..pos + n];
      pos := pos + n;
    }

    /** `mf->current += n` */
    method Skip(n: int)
      requires Valid() && pos + n >= 0
      modifies this
      ensures Valid() && pos == old(pos) + n
    {
      pos := pos + n;
    }

    /** mfseek(mf, offset, SEEK_SET) */
    method SeekSet(offset: int)
      requires Valid() && offset >= 0
      modifies this
      ensures Valid() && pos == offset
    {
      pos := offset;
    }

    /** mfseek(mf, 0, SEEK_END) */
    method SeekEnd()
      requires Valid()
      modifies this
      ensures Valid() && pos == |data|
    {
      pos := |data|;
    }

    /** mftell */
    method Tell() returns (p: int)
      ensures p == pos
    {
      p := pos;
    }
  }

  /** A memfile opened for writing over a caller's buffer. */
  class MemWriter {
    const buf: array<int>
    var pos: int

    ghost predicate Valid()
      reads this
    {
      0 <= pos <= buf.Length
    }

    /** mfopen over `buffer`, whose whole length is writable. */
    constructor Open(buffer: array<int>)
      ensures Valid() && buf == buffer && pos == 0
    {
      buf := buffer;
      pos := 0;
    }

    /** mfputc: the low byte of `x`. */
    method PutC(x: int)
      requires Valid() && pos < buf.Length
      modifies this, buf
      ensures Valid() && pos == old(pos) + 1
      ensures buf[..] == old(buf[..])[old(pos) := Low8(x)]
      ensures buf[..pos] == old(buf[..pos]) + [Low8(x)]
      ensures buf[pos..] == old(buf[..])[pos..]
    {
      buf[pos] := Low8(x);
      pos := pos + 1;
      assert buf[..pos] == old(buf[..pos]) + [Low8(x)];
    }

    /** mfwrite of `bytes` (already bytes, as a C string's chars are). */
    method Write(bytes: seq<int>)
      requires Valid() && pos + |bytes| <= buf.Length && AllBytes(bytes)
      modifies this, buf
      ensures Valid() && pos == old(pos) + |bytes|
      ensures buf[..pos] == old(buf[..pos]) + bytes
      ensures buf[pos..] == old(buf[..])[pos..]
    {
      ghost var start := pos;
      ghost var end := pos + |bytes|;
      var i := 0;
      while i < |bytes|
        invariant 0 <= i <= |bytes| && Valid() && pos == start + i
        invariant buf[..pos] == old(buf[..start]) + bytes[..i]
        invariant buf[end..] == old(buf[..])[end..]
      {
        assert bytes[..i + 1] == bytes[..i] + [bytes[i]];
        PutC(bytes[i]);
        assert buf[end..] == buf[pos..][end - pos..];
        i := i + 1;
      }
      assert bytes[..i] == bytes;
    }

    /** mfputw: the low 16 bits of `x`, little-endian. */
    method PutW(x: int)
      requires Valid() && pos + 2 <= buf.Length
      modifies this, buf
      ensures Valid() && pos == old(pos) + 2
      ensures buf[..pos] == old(buf[..pos]) + WordBytes(x)
      ensures buf[pos..] == old(buf[..])[pos..]
    {
      Write(WordBytes(x));
    }

    /** mfputd: the low 32 bits of `x`, little-endian. */
    method PutD(x: int)
      requires Valid() && pos + 4 <= buf.Length
      modifies this, buf
      ensures Valid() && pos == old(pos) + 4
      ensures buf[..pos] == old(buf[..pos]) + DwordBytes(x)
      ensures buf[pos..] == old(buf[..])[pos..]
    {
      Write(DwordBytes(x));
    }

    /** `mf->current += n` within the buffer. */
    method Skip(n: int)
      requires Valid() && 0 <= pos + n <= buf.Length
      modifies this
      ensures Valid() && pos == old(pos) + n
    {
      pos := pos + n;
    }

    /** mfseek(mf, offset, SEEK_SET) */
    method SeekSet(offset: int)
      requires 0 <= offset <= buf.Length
      modifies this
      ensures Valid() && pos == offset
    {
      pos := offset;
    }

    /** mftell */
    method Tell() returns (p: int)
      ensures p == pos
    {
      p := pos;
    }
  }
}
