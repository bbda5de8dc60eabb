/** The stdio `FILE` the legacy world reader walks: a byte sequence and a
    position. Reading semantics follow C on a regular file: fgetc past the
    end yields EOF and does not move; fseek to any non-negative position
    succeeds, even beyond the end; fread of `n` bytes fails unless all `n`
    are there, and a failed fread leaves the position at the end of file.
    fgetw/fgetd are the repository's helpers: little-endian, and EOF as
    soon as any of their bytes is missing. */
module CFiles {
  import opened Bytes

  datatype Whence = SeekSet | SeekCur | SeekEnd

  /** fgetc: (value, new position). */
  function GetCAt(data: seq<int>, pos: int): (r: (int, int))
    requires AllBytes(data) && pos >= 0
    ensures r.1 >= pos
    ensures r.0 == EOF || IsByte(r.0)
    ensures r.0 == EOF <==> pos >= |data|
  {
    if pos < |data| then (data[pos], pos + 1) else (EOF, pos)
  }

  /** Where a read of `n` bytes from `pos` leaves the position when the
      bytes are not all there: every fgetc before the end moves by one. */
  function StopAt(data: seq<int>, pos: int): int
  {
    if pos < |data| then |data| else pos
  }

  /** Where `n` successive fgetc calls leave the position. */
  function SkipAt(data: seq<int>, pos: int, n: nat): (p: int)
    requires pos >= 0
    ensures p >= pos
    ensures p == pos + n || (pos + n > |data| && p == StopAt(data, pos))
  {
    if pos + n <= |data| then pos + n else StopAt(data, pos)
  }

  /** fgetw: (value, new position). */
  function GetWAt(data: seq<int>, pos: int): (r: (int, int))
    requires AllBytes(data) && pos >= 0
    ensures r.1 >= pos
    ensures r.0 == EOF || 0 <= r.0 < 0x1_0000
    ensures r.0 != EOF <==> pos + 2 <= |data|
  {
    if pos + 2 <= |data| then (LeWord(data, pos), pos + 2) else (EOF, StopAt(data, pos))
  }

  /** fgetd: (value, new position); a stored 0xFFFFFFFF reads as EOF too. */
  function GetDAt(data: seq<int>, pos: int): (r: (int, int))
    requires AllBytes(data) && pos >= 0
    ensures r.1 >= pos
  {
    if pos + 4 <= |data| then (LeDword(data, pos), pos + 4) else (EOF, StopAt(data, pos))
  }

  /** fread(buf, n, 1): (succeeded, new position). A size of zero reads
      nothing and reports failure; a negative size is a huge size_t. */
  function ReadAt(data: seq<int>, pos: int, n: int): (r: (bool, int))
    requires pos >= 0
    ensures r.0 <==> n > 0 && pos + n <= |data|
    ensures r.0 ==> r.1 == pos + n
    ensures !r.0 && n != 0 ==> r.1 == (if pos < |data| then |data| else pos)
    ensures n == 0 ==> r.1 == pos
  {
    if n == 0 then (false, pos)
    else if n > 0 && pos + n <= |data| then (true, pos + n)
    else (false, if pos < |data| then |data| else pos)
  }

  /** The bytes a read of `n` bytes at `pos` delivers, complete or not. */
  function Available(data: seq<int>, pos: int, n: int): (r: seq<int>)
    requires pos >= 0
    ensures n >= 0 && pos + n <= |data| ==> r == data[pos..pos + n]
    ensures |r| <= if n < 0 then 0 else n
  {
    if pos >= |data| || n <= 0 then []
    else if pos + n <= |data| then data[pos..pos + n]
    else data[pos..]
  }

  /** fseek: the new position, or None when the target is negative. */
  function SeekAt(size: int, pos: int, offset: int, whence: Whence): (r: Option<int>)
    ensures r.Some? ==> r.value >= 0
  {
    var target := match whence
      case SeekSet => offset
      case SeekCur => pos + offset
      case SeekEnd => size + offset;
    if target < 0 then None else Some(target)
  }

  class CFile {
    const data: seq<int>
    var pos: int

    ghost predicate Valid()
      reads this
    {
      AllBytes(data) && pos >= 0
    }

    constructor Open(contents: seq<int>)
      requires AllBytes(contents)
      ensures Valid() && data == contents && pos == 0
    {
      data := contents;
      pos := 0;
    }

    method GetC() returns (c: int)
      requires Valid()
      modifies this
      ensures Valid()
      ensures (c, pos) == GetCAt(data, old(pos))
    {
      if pos < |data| {
        c := data[pos];
        pos := pos + 1;
      } else {
        c := EOF;
      }
    }

    method GetW() returns (w: int)
      requires Valid()
      modifies this
      ensures Valid()
      ensures (w, pos) == GetWAt(data, old(pos))
    {
      var a := GetC();
      var b := GetC();
      if a == EOF || b == EOF {
        w := EOF;
      } else {
        w := a + 256 * b;
      }
    }

    method GetD() returns (d: int)
      requires Valid()
      modifies this
      ensures Valid()
      ensures (d, pos) == GetDAt(data, old(pos))
    {
      var a := GetC();
      var b := GetC();
      var c := GetC();
      var e := GetC();
      if a == EOF || b == EOF || c == EOF || e == EOF {
        d := EOF;
      } else {
        d := Wrap32(a + 256 * b + 0x1_0000 * c + 0x100_0000 * e);
      }
    }

    /** `n` successive fgetc calls whose values are not kept. */
    method Skip(n: nat)
      requires Valid()
      modifies this
      ensures Valid()
      ensures pos == SkipAt(data, old(pos), n)
    {
      var i := 0;
      while i < n
        invariant 0 <= i <= n && Valid()
        invariant pos == SkipAt(data, old(pos), i)
      {
        var ignored := GetC();
        i := i + 1;
      }
    }

    /** fread(buffer, n, 1, f) != 0, with the bytes that reached the buffer. */
    method Read(n: int) returns (ok: bool, bytes: seq<int>)
      requires Valid()
      modifies this
      ensures Valid()
      ensures (ok, pos) == ReadAt(data, old(pos), n)
      ensures bytes == Available(data, old(pos), n)
    {
      bytes := Available(data, pos, n);
      var r := ReadAt(data, pos, n);
      ok, pos := r.0, r.1;
    }

    /** fseek(f, offset, whence) != 0: true when the seek failed. */
    method Seek(offset: int, whence: Whence) returns (failed: bool)
      requires Valid()
      modifies this
      ensures Valid()
      ensures failed <==> SeekAt(|data|, old(pos), offset, whence).None?
      ensures pos == if failed then old(pos) else SeekAt(|data|, old(pos), offset, whence).value
    {
      var r := SeekAt(|data|, pos, offset, whence);
      failed := r.None?;
      if !failed {
        pos := r.value;
      }
    }
  }
}
