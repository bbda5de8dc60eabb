/** The structural part of `legacy_load_world` (src/legacy_world.c): how
    the reader walks a world or savegame file that has already been
    validated, which records it keeps, which it diverts, and how it
    bounds names and paths. Graphics, the board and robot codecs and the
    many scalar fields it only copies are not modelled; the bytes those
    reads consume are skipped by count. */
module LegacyLoad {
  import opened Bytes
  import opened CFiles
  import LegacyValidate

  const CharsetBytes: int := 3584             // CHAR_SIZE * CHARSET_SIZE
  const LegacyIdCharsSize: int := 323
  const LegacyIdBulletColorSize: int := 3
  const LegacyIdDmgSize: int := 128
  const CounterNameSize: int := 15
  const NumStatusCounters: int := 6
  const NumKeys: int := 16
  const MaxPath: int := 512
  const MaxSprites: int := 256
  const SfxBytes: int := LegacyValidate.NumSfx * LegacyValidate.LegacySfxSize

  /** The ASCII codes of a string literal. */
  function Ascii(s: string): (r: seq<int>)
    ensures |r| == |s|
    ensures forall k :: 0 <= k < |s| ==> r[k] == s[k] as int
  {
    seq(|s|, k requires 0 <= k < |s| => s[k] as int)
  }

  const MzxSpeedName: seq<int> := Ascii("mzx_speed")
  const LockSpeedName: seq<int> := Ascii("_____lock_speed")

  // ---------------------------------------------------------------------
  // Case-insensitive comparison

  /** tolower in the C locale. */
  function Lower(c: int): (r: int)
    ensures r == 0 <==> c == 0
  {
    if 65 <= c <= 90 then c + 32 else c
  }

  /** The literal as the C string holding it: its characters, then NULs. */
  function Padded(lit: seq<int>, k: int): int
  {
    if 0 <= k < |lit| then lit[k] else 0
  }

  /** strncasecmp(buf, lit, n) == 0 from position `k` on: compare up to
      `n` characters case-insensitively, stopping where both strings end. */
  predicate NCaseEqFrom(buf: seq<int>, lit: seq<int>, n: int, k: nat)
    requires n <= |buf|
    decreases n - k
  {
    k >= n ||
    (Lower(buf[k]) == Lower(Padded(lit, k)) && (Padded(lit, k) == 0 || NCaseEqFrom(buf, lit, n, k + 1)))
  }

  predicate NCaseEq(buf: seq<int>, lit: seq<int>, n: int)
    requires n <= |buf|
  {
    NCaseEqFrom(buf, lit, n, 0)
  }

  /** Reference reading: the first `n` characters agree with the literal
      and its terminating NUL, ignoring case; nothing past that NUL counts. */
  predicate CaseMatch(buf: seq<int>, lit: seq<int>, n: int)
    requires n <= |buf|
  {
    forall k :: 0 <= k < n && k <= |lit| ==> Lower(buf[k]) == Lower(Padded(lit, k))
  }

  predicate NoNul(lit: seq<int>)
  {
    forall k :: 0 <= k < |lit| ==> lit[k] != 0
  }

  lemma {:induction false} NCaseEqFromMatches(buf: seq<int>, lit: seq<int>, n: int, k: nat)
    requires n <= |buf| && NoNul(lit) && k <= |lit|
    ensures NCaseEqFrom(buf, lit, n, k) <==>
      forall j :: k <= j < n && j <= |lit| ==> Lower(buf[j]) == Lower(Padded(lit, j))
    decreases n - k
  {
    if k < n {
      if k == |lit| {
        assert Padded(lit, k) == 0;
      } else {
        assert Padded(lit, k) != 0;
        NCaseEqFromMatches(buf, lit, n, k + 1);
      }
    }
  }

  /** strncasecmp's result is the reference reading. */
  lemma NCaseEqMatches(buf: seq<int>, lit: seq<int>, n: int)
    requires n <= |buf| && NoNul(lit)
    ensures NCaseEq(buf, lit, n) <==> CaseMatch(buf, lit, n)
  {
    NCaseEqFromMatches(buf, lit, n, 0);
  }

  // ---------------------------------------------------------------------
  // Records

  /** `if(len && !fread(buffer, len, 1, fp))`: (read succeeded, the bytes
      that reached the buffer, new position). A length of zero reads
      nothing and succeeds; a negative one is a huge size_t and fails. */
  function ReadField(data: seq<int>, pos: int, len: int): (r: (bool, seq<int>, int))
    requires AllBytes(data) && pos >= 0
    ensures r.2 >= pos
    ensures r.0 <==> len == 0 || (len > 0 && pos + len <= |data|)
    ensures r.0 ==> len >= 0 && |r.1| == len && r.2 == pos + len
    ensures r.0 && len > 0 ==> r.1 == data[pos..pos + len]
    ensures |r.1| <= if len < 0 then 0 else len
    ensures AllBytes(r.1)
  {
    if len == 0 then (true, [], pos)
    else
      var (ok, p) := ReadAt(data, pos, len);
      (ok, Available(data, pos, len), p)
  }

  datatype Counter = Counter(name: seq<int>, value: int)

  /** What legacy_load_counter makes of one record. */
  datatype CounterRecord = Unreadable | Speed(value: int) | LockSpeed(value: int) | Insert(counter: Counter)

  /** A name the reader diverts instead of inserting. */
  predicate Reserved(name: seq<int>)
  {
    NCaseEq(name, MzxSpeedName, |name|) || NCaseEq(name, LockSpeedName, |name|)
  }

  /** legacy_load_counter: a dword value, a dword name length and the
      name; (record, new position). */
  function CounterAt(data: seq<int>, pos: int): (r: (CounterRecord, int))
    requires AllBytes(data) && pos >= 0
    ensures r.1 >= pos
  {
    var (value, p1) := GetDAt(data, pos);
    var (nameLength, p2) := GetDAt(data, p1);
    var (ok, name, p3) := ReadField(data, p2, nameLength);
    if !ok then (Unreadable, p3)
    else if NCaseEq(name, MzxSpeedName, nameLength) then (Speed(value), p3)
    else if NCaseEq(name, LockSpeedName, nameLength) then (LockSpeed(value), p3)
    else (Insert(Counter(name, value)), p3)
  }

  /** The counter list with its stored count, and the two world scalars
      the reserved names set. */
  datatype CounterList = CounterList(counters: seq<Counter>, count: int, mzxSpeed: int, lockSpeed: int)

  /** One iteration of the counter loop: every record that is not
      inserted lowers the stored count by one. */
  function ApplyCounter(st: CounterList, r: CounterRecord): (st': CounterList)
    ensures r.Insert? ==> st'.counters == st.counters + [r.counter] && st'.count == st.count
    ensures !r.Insert? ==> st'.counters == st.counters && st'.count == st.count - 1
  {
    match r
    case Unreadable => st.(count := st.count - 1)
    case Speed(v) => st.(count := st.count - 1, mzxSpeed := v)
    case LockSpeed(v) => st.(count := st.count - 1, lockSpeed := v)
    case Insert(c) => st.(counters := st.counters + [c])
  }

  /** The loop over `n` counter records: (final list, new position). */
  function CountersAt(data: seq<int>, pos: int, n: int, st: CounterList): (r: (CounterList, int))
    requires AllBytes(data) && pos >= 0
    ensures r.1 >= pos
    decreases n
  {
    if n <= 0 then (st, pos)
    else
      var (c, p) := CounterAt(data, pos);
      CountersAt(data, p, n - 1, ApplyCounter(st, c))
  }

  lemma CountersAtStep(data: seq<int>, pos: int, n: int, st: CounterList, n1: int)
    requires AllBytes(data) && pos >= 0 && n > 0 && n1 == n - 1
    ensures CountersAt(data, pos, n, st) ==
      CountersAt(data, CounterAt(data, pos).1, n1, ApplyCounter(st, CounterAt(data, pos).0))
  {
  }

  datatype StringEntry = StringEntry(name: seq<int>, length: int, value: seq<int>)

  /** legacy_load_string: name length, value length, name, value. A name
      that cannot be read leaves the slot empty; a value that cannot be
      read keeps the bytes that arrived. */
  function StringAt(data: seq<int>, pos: int): (r: (Option<StringEntry>, int))
    requires AllBytes(data) && pos >= 0
    ensures r.1 >= pos
  {
    var (nameLength, p1) := GetDAt(data, pos);
    var (valueLength, p2) := GetDAt(data, p1);
    var (nameOk, name, p3) := ReadField(data, p2, nameLength);
    if !nameOk then (None, p3)
    else
      var (_, value, p4) := ReadField(data, p3, valueLength);
      (Some(StringEntry(name, valueLength, value)), p4)
  }

  /** The loop over `n` string records: (slots, new position). */
  function StringsAt(data: seq<int>, pos: int, n: int): (r: (seq<Option<StringEntry>>, int))
    requires AllBytes(data) && pos >= 0
    ensures r.1 >= pos
    ensures |r.0| == if n <= 0 then 0 else n
    decreases n
  {
    if n <= 0 then ([], pos)
    else
      var (s, p) := StringAt(data, pos);
      var (rest, q) := StringsAt(data, p, n - 1);
      ([s] + rest, q)
  }

  lemma StringsUnfold(data: seq<int>, pos: int, n: int)
    requires AllBytes(data) && pos >= 0 && n > 0
    ensures var (s, p) := StringAt(data, pos);
      StringsAt(data, pos, n) == ([s] + StringsAt(data, p, n - 1).0, StringsAt(data, p, n - 1).1)
  {
  }

  /** `size_t len = fgetw(fp); if(len >= MAX_PATH) len = MAX_PATH - 1;`
      EOF becomes SIZE_MAX, which is clamped too. */
  function PathLength(w: int): (len: int)
    ensures 0 <= len < MaxPath
    ensures 0 <= w < MaxPath ==> len == w
  {
    if w < 0 || w >= MaxPath then MaxPath - 1 else w
  }

  /** A length-prefixed path: (read succeeded, the path, new position). */
  function PathAt(data: seq<int>, pos: int): (r: (bool, seq<int>, int))
    requires AllBytes(data) && pos >= 0
    ensures r.2 >= pos
    ensures |r.1| < MaxPath
  {
    var (w, p1) := GetWAt(data, pos);
    var len := PathLength(w);
    ReadField(data, p1, len)
  }

  // ---------------------------------------------------------------------
  // Properties of the records

  /** The stored counter count falls by one for every record that is not
      inserted, so it ends equal to the number of counters in the list. */
  lemma {:induction false} CountersBookkeeping(data: seq<int>, pos: int, n: int, st: CounterList)
    requires AllBytes(data) && pos >= 0 && n >= 0
    ensures var r := CountersAt(data, pos, n, st).0;
      r.count - |r.counters| == st.count - |st.counters| - n &&
      |st.counters| <= |r.counters| <= |st.counters| + n &&
      r.counters[..|st.counters|] == st.counters
    decreases n
  {
    if n > 0 {
      var (c, p) := CounterAt(data, pos);
      var st' := ApplyCounter(st, c);
      CountersBookkeeping(data, p, n - 1, st');
      var r := CountersAt(data, pos, n, st).0;
      assert r == CountersAt(data, p, n - 1, st').0;
      assert st'.counters[..|st.counters|] == st.counters;
    }
  }

  lemma LoadedCounterCount(data: seq<int>, pos: int, n: int, mzxSpeed: int, lockSpeed: int)
    requires AllBytes(data) && pos >= 0 && n >= 0
    ensures var r := CountersAt(data, pos, n, CounterList([], n, mzxSpeed, lockSpeed)).0;
      r.count == |r.counters| <= n
  {
    CountersBookkeeping(data, pos, n, CounterList([], n, mzxSpeed, lockSpeed));
  }

  /** No counter the reader inserts carries a reserved name. */
  lemma {:induction false} InsertedNamesNotReserved(data: seq<int>, pos: int, n: int, st: CounterList)
    requires AllBytes(data) && pos >= 0
    requires forall c :: c in st.counters ==> !Reserved(c.name)
    ensures forall c :: c in CountersAt(data, pos, n, st).0.counters ==> !Reserved(c.name)
    decreases n
  {
    if n > 0 {
      var (c, p) := CounterAt(data, pos);
      if c.Insert? {
        assert |c.counter.name| == GetDAt(data, GetDAt(data, pos).1).0;
      }
      InsertedNamesNotReserved(data, p, n - 1, ApplyCounter(st, c));
    }
  }

  lemma ReservedNamesNoNul()
    ensures NoNul(MzxSpeedName) && NoNul(LockSpeedName)
  {
  }

  lemma ReadFieldWhole(data: seq<int>, pos: int, len: int)
    requires AllBytes(data) && pos >= 0 && len >= 0 && pos + len <= |data|
    ensures ReadField(data, pos, len) == (true, data[pos..pos + len], pos + len)
  {
    if len == 0 {
      assert data[pos..pos] == [];
    }
  }

  /** A counter named "mzx_speed" or "_____lock_speed", in any case, sets
      the world scalar; so does every shorter prefix, and the empty name. */
  lemma ReservedNamesDiverted(data: seq<int>, pos: int)
    requires AllBytes(data) && pos >= 0
    ensures var (value, p1) := GetDAt(data, pos);
      var (nameLength, p2) := GetDAt(data, p1);
      ((0 <= nameLength <= |MzxSpeedName| && p2 + nameLength <= |data| &&
        CaseMatch(data[p2..p2 + nameLength], MzxSpeedName, nameLength))
         ==> CounterAt(data, pos).0 == Speed(value)) &&
      ((nameLength == |LockSpeedName| && p2 + nameLength <= |data| &&
        CaseMatch(data[p2..p2 + nameLength], LockSpeedName, nameLength) &&
        !CaseMatch(data[p2..p2 + nameLength], MzxSpeedName, nameLength))
         ==> CounterAt(data, pos).0 == LockSpeed(value))
  {
    var (value, p1) := GetDAt(data, pos);
    var (nameLength, p2) := GetDAt(data, p1);
    if 0 <= nameLength && p2 + nameLength <= |data| {
      var name := data[p2..p2 + nameLength];
      ReadFieldWhole(data, p2, nameLength);
      ReservedNamesNoNul();
      NCaseEqMatches(name, MzxSpeedName, nameLength);
      NCaseEqMatches(name, LockSpeedName, nameLength);
    }
  }

  /** Where the validator's walk over a counter stays inside the file, the
      reader ends the record at the same place. */
  lemma CounterFollowsValidator(data: seq<int>, pos: int)
    requires AllBytes(data) && pos >= 0
    requires LegacyValidate.CounterSpec(data, pos).At?
    requires LegacyValidate.CounterSpec(data, pos).pos <= |data|
    ensures CounterAt(data, pos).1 == LegacyValidate.CounterSpec(data, pos).pos
  {
    var (value, p1) := GetDAt(data, pos);
    assert p1 == pos + 4;
  }

  lemma {:induction false} CountersFollowValidator(data: seq<int>, pos: int, n: int, st: CounterList)
    requires AllBytes(data) && pos >= 0
    requires LegacyValidate.CountersSpec(data, pos, n).At?
    requires LegacyValidate.CountersSpec(data, pos, n).pos <= |data|
    ensures CountersAt(data, pos, n, st).1 == LegacyValidate.CountersSpec(data, pos, n).pos
    decreases n
  {
    if n > 0 {
      var w := LegacyValidate.CounterSpec(data, pos);
      assert w.At?;
      assert LegacyValidate.CountersSpec(data, pos, n) == LegacyValidate.CountersSpec(data, w.pos, n - 1);
      CounterFollowsValidator(data, pos);
      var (c, p) := CounterAt(data, pos);
      CountersFollowValidator(data, p, n - 1, ApplyCounter(st, c));
    }
  }

  /** Where the validator's walk over a string stays inside the file, the
      reader fills the slot with the whole name and value and ends where
      the walk does. */
  lemma StringFollowsValidator(data: seq<int>, pos: int)
    requires AllBytes(data) && pos >= 0
    requires LegacyValidate.StringSpec(data, pos).At?
    requires LegacyValidate.StringSpec(data, pos).pos <= |data|
    ensures var (s, p) := StringAt(data, pos);
      p == LegacyValidate.StringSpec(data, pos).pos && s.Some? && |s.value.value| == s.value.length
  {
  }

  /** A slot holding a string whose whole value arrived. */
  predicate Complete(slot: Option<StringEntry>)
  {
    slot.Some? && |slot.value.value| == slot.value.length
  }

  /** One string of the list, with the rest at plain positions. */
  lemma StringsStep(data: seq<int>, pos: int, n: int, p: int, n1: int)
    requires AllBytes(data) && pos >= 0 && n > 0
    requires LegacyValidate.StringSpec(data, pos).At? && p == LegacyValidate.StringSpec(data, pos).pos
    requires p == StringAt(data, pos).1 && n1 == n - 1
    ensures LegacyValidate.StringsSpec(data, pos, n) == LegacyValidate.StringsSpec(data, p, n1)
    ensures StringsAt(data, pos, n) == ([StringAt(data, pos).0] + StringsAt(data, p, n1).0, StringsAt(data, p, n1).1)
  {
  }

  lemma {:induction false} StringsFollowValidator(data: seq<int>, pos: int, n: int)
    requires AllBytes(data) && pos >= 0
    requires LegacyValidate.StringsSpec(data, pos, n).At?
    requires LegacyValidate.StringsSpec(data, pos, n).pos <= |data|
    ensures StringsAt(data, pos, n).1 == LegacyValidate.StringsSpec(data, pos, n).pos
    ensures forall k :: 0 <= k < |StringsAt(data, pos, n).0| ==> Complete(StringsAt(data, pos, n).0[k])
    decreases n
  {
    if n > 0 {
      var w := LegacyValidate.StringSpec(data, pos);
      assert w.At?;
      StringFollowsValidator(data, pos);
      var (s, p) := StringAt(data, pos);
      var n1 := n - 1;
      StringsStep(data, pos, n, p, n1);
      StringsFollowValidator(data, p, n1);
      var (rest, q) := StringsAt(data, p, n1);
      var slots := [s] + rest;
      forall k | 0 <= k < |slots|
        ensures Complete(slots[k])
      {
        if k > 0 {
          assert slots[k] == rest[k - 1];
        }
      }
    }
  }

  /** A path shorter than MAX_PATH is read whole, and the reader ends
      where the validator's seek over it does. */
  lemma ShortPathReadWhole(data: seq<int>, pos: int)
    requires AllBytes(data) && pos >= 0
    requires var (w, p1) := GetWAt(data, pos); 0 <= w < MaxPath && p1 + w <= |data|
    ensures var (w, p1) := GetWAt(data, pos);
      PathAt(data, pos) == (true, data[p1..p1 + w], p1 + w)
  {
    var (w, p1) := GetWAt(data, pos);
    var r := ReadField(data, p1, PathLength(w));
    assert PathAt(data, pos) == r && PathLength(w) == w;
    if w == 0 {
      assert data[p1..p1 + w] == [];
    }
  }

  /** A stored length of MAX_PATH or more is cut to MAX_PATH - 1 bytes and
      the rest of the path is left in the stream, to be read as the fields
      that follow; the validator's walk seeks over the whole path. */
  lemma LongPathTruncated(data: seq<int>, pos: int)
    requires AllBytes(data) && pos >= 0
    requires var (w, p1) := GetWAt(data, pos); MaxPath <= w && p1 + w <= |data|
    ensures var (w, p1) := GetWAt(data, pos);
      PathAt(data, pos) == (true, data[p1..p1 + MaxPath - 1], p1 + MaxPath - 1) &&
      PathAt(data, pos).2 < p1 + w
  {
  }

  // ---------------------------------------------------------------------
  // C strings, fixed buffers and the board table

  /** The C string a NUL-terminated buffer holds: everything before the
      first NUL. */
  function CString(s: seq<int>): (r: seq<int>)
    ensures |r| <= |s| && r == s[..|r|]
    ensures forall k :: 0 <= k < |r| ==> r[k] != 0
  {
    if s == [] || s[0] == 0 then [] else [s[0]] + CString(s[1..])
  }

  lemma {:induction false} CStringBounded(s: seq<int>, m: int)
    requires 0 <= m < |s| && s[m] == 0
    ensures |CString(s)| <= m
    decreases m
  {
    if s[0] != 0 {
      CStringBounded(s[1..], m - 1);
    }
  }

  /** Byte `k` of the status-name block is the last byte of a name. */
  predicate NameEnd(k: int)
  {
    k % CounterNameSize == CounterNameSize - 1
  }

  /** The name ends below name `i + 1` are those below name `i` and the
      end of name `i`. */
  lemma NameEndBefore(k: int, i: int)
    requires 0 <= k && 0 <= i
    ensures (NameEnd(k) && k < CounterNameSize * (i + 1)) <==>
      ((NameEnd(k) && k < CounterNameSize * i) || k == CounterNameSize * i + CounterNameSize - 1)
  {
    if k == CounterNameSize * i + CounterNameSize - 1 {
      assert k % CounterNameSize == CounterNameSize - 1;
    }
    if NameEnd(k) && CounterNameSize * i <= k < CounterNameSize * (i + 1) {
      assert k / CounterNameSize == i;
    }
  }

  /** The six status counter names after `fread` and the forced NUL at
      the end of each 15-byte name. */
  function StatusNames(bytes: seq<int>): (r: seq<int>)
    requires |bytes| == NumStatusCounters * CounterNameSize
    ensures |r| == |bytes|
  {
    seq(|bytes|, k requires 0 <= k < |bytes| => if NameEnd(k) then 0 else bytes[k])
  }

  /** The last byte of each status counter name is a NUL. */
  lemma StatusNameEnds(bytes: seq<int>)
    requires |bytes| == NumStatusCounters * CounterNameSize
    ensures forall i :: 0 <= i < NumStatusCounters ==>
      StatusNames(bytes)[CounterNameSize * i + CounterNameSize - 1] == 0
  {
    forall i | 0 <= i < NumStatusCounters
      ensures StatusNames(bytes)[CounterNameSize * i + CounterNameSize - 1] == 0
    {
      assert NameEnd(CounterNameSize * i + CounterNameSize - 1);
    }
  }

  /** Each status counter name is a C string of at most 14 characters,
      and it is the file's bytes up to that point. */
  lemma StatusNamesTerminated(bytes: seq<int>, i: int)
    requires |bytes| == NumStatusCounters * CounterNameSize && 0 <= i < NumStatusCounters
    ensures var name := StatusNames(bytes)[CounterNameSize * i..CounterNameSize * (i + 1)];
      |CString(name)| < CounterNameSize &&
      name[..CounterNameSize - 1] == bytes[CounterNameSize * i..CounterNameSize * i + CounterNameSize - 1]
  {
    var name := StatusNames(bytes)[CounterNameSize * i..CounterNameSize * (i + 1)];
    assert name[CounterNameSize - 1] == 0 by {
      assert (CounterNameSize * i + CounterNameSize - 1) % CounterNameSize == CounterNameSize - 1;
    }
    CStringBounded(name, CounterNameSize - 1);
    forall k | 0 <= k < CounterNameSize - 1
      ensures name[k] == bytes[CounterNameSize * i + k]
    {
      assert (CounterNameSize * i + k) % CounterNameSize == k;
    }
  }

  /** `a` with `bytes` written from `off` on. */
  function Overwrite(a: seq<int>, off: int, bytes: seq<int>): (r: seq<int>)
    requires 0 <= off && off + |bytes| <= |a|
    ensures |r| == |a|
    ensures forall k :: 0 <= k < |a| ==> r[k] == if off <= k < off + |bytes| then bytes[k - off] else a[k]
  {
    a[..off] + bytes + a[off + |bytes|..]
  }

  datatype SfxStatus = SfxLoaded | SfxReadFailed | SfxOverrun

  /** One custom sound effect: a length byte, then that many bytes into
      the 69-byte slot at `off`, whose last byte is then cleared. A read
      that fails leaves what arrived and stops the load; a length that
      runs past the end of `custom_sfx` is reported as an overrun. */
  function SfxEntryAt(data: seq<int>, pos: int, off: int, mem: seq<int>): (r: (SfxStatus, seq<int>, int))
    requires AllBytes(data) && pos >= 0
    requires 0 <= off && off + LegacyValidate.LegacySfxSize <= |mem|
    ensures |r.1| == |mem| && r.2 >= pos
  {
    var (size, p1) := GetCAt(data, pos);
    var (ok, bytes, p2) := ReadField(data, p1, size);
    if off + |bytes| > |mem| then (SfxOverrun, mem, p2)
    else
      var written := Overwrite(mem, off, bytes);
      if !ok then (SfxReadFailed, written, p2)
      else (SfxLoaded, written[off + LegacyValidate.LegacySfxSize - 1 := 0], p2)
  }

  /** The custom sound effects from slot `i` on. */
  function SfxTableAt(data: seq<int>, pos: int, i: int, mem: seq<int>): (r: (SfxStatus, seq<int>, int))
    requires AllBytes(data) && pos >= 0 && 0 <= i <= LegacyValidate.NumSfx && |mem| == SfxBytes
    ensures |r.1| == |mem| && r.2 >= pos
    decreases LegacyValidate.NumSfx - i
  {
    if i == LegacyValidate.NumSfx then (SfxLoaded, mem, pos)
    else
      var (status, mem', p) := SfxEntryAt(data, pos, LegacyValidate.LegacySfxSize * i, mem);
      if status != SfxLoaded then (status, mem', p)
      else SfxTableAt(data, p, i + 1, mem')
  }

  lemma SfxTableEnd(data: seq<int>, pos: int, mem: seq<int>)
    requires AllBytes(data) && pos >= 0 && |mem| == SfxBytes
    ensures SfxTableAt(data, pos, LegacyValidate.NumSfx, mem) == (SfxLoaded, mem, pos)
  {
  }

  lemma SfxTableUnfold(data: seq<int>, pos: int, i: int, mem: seq<int>, i1: int)
    requires AllBytes(data) && pos >= 0 && 0 <= i < LegacyValidate.NumSfx && |mem| == SfxBytes && i1 == i + 1
    ensures var e := SfxEntryAt(data, pos, LegacyValidate.LegacySfxSize * i, mem);
      SfxTableAt(data, pos, i, mem) == if e.0 != SfxLoaded then e else SfxTableAt(data, e.2, i1, e.1)
  {
  }

  lemma SlotBound(i: int, j: int)
    requires 0 <= j < i
    ensures LegacyValidate.LegacySfxSize * j + LegacyValidate.LegacySfxSize - 1 < LegacyValidate.LegacySfxSize * i
  {
  }

  /** A complete load leaves every sound effect NUL-terminated in its slot:
      later slots are written only from their own start on. */
  lemma {:induction false} SfxTerminated(data: seq<int>, pos: int, i: int, mem: seq<int>)
    requires AllBytes(data) && pos >= 0 && 0 <= i <= LegacyValidate.NumSfx && |mem| == SfxBytes
    requires forall j :: 0 <= j < i ==> mem[LegacyValidate.LegacySfxSize * j + LegacyValidate.LegacySfxSize - 1] == 0
    ensures var r := SfxTableAt(data, pos, i, mem);
      r.0 == SfxLoaded ==>
        forall j :: 0 <= j < LegacyValidate.NumSfx ==> r.1[LegacyValidate.LegacySfxSize * j + LegacyValidate.LegacySfxSize - 1] == 0
    decreases LegacyValidate.NumSfx - i
  {
    if i < LegacyValidate.NumSfx {
      var off := LegacyValidate.LegacySfxSize * i;
      var (status, mem', p) := SfxEntryAt(data, pos, off, mem);
      if status == SfxLoaded {
        forall j | 0 <= j <= i
          ensures mem'[LegacyValidate.LegacySfxSize * j + LegacyValidate.LegacySfxSize - 1] == 0
        {
          if j < i {
            SlotBound(i, j);
          }
        }
        SfxTerminated(data, p, i + 1, mem');
      }
    }
  }

  /** An effect of at most 69 bytes that lies in the file is loaded whole. */
  lemma SfxEntryInFile(data: seq<int>, pos: int, off: int, mem: seq<int>)
    requires AllBytes(data) && 0 <= pos < |data|
    requires 0 <= off && off + LegacyValidate.LegacySfxSize <= |mem|
    requires data[pos] <= LegacyValidate.LegacySfxSize && pos + 1 + data[pos] <= |data|
    ensures SfxEntryAt(data, pos, off, mem).0 == SfxLoaded
    ensures SfxEntryAt(data, pos, off, mem).2 == pos + 1 + data[pos]
  {
    assert GetCAt(data, pos) == (data[pos], pos + 1);
  }

  /** One step of the table load over an effect that lies in the file. */
  lemma SfxTableStep(data: seq<int>, pos: int, i: int, mem: seq<int>, next: int, i1: int, mem1: seq<int>)
    requires AllBytes(data) && 0 <= pos < |data| && 0 <= i < LegacyValidate.NumSfx && |mem| == SfxBytes
    requires data[pos] <= LegacyValidate.LegacySfxSize && pos + 1 + data[pos] <= |data|
    requires next == pos + 1 + data[pos] && i1 == i + 1
    requires mem1 == SfxEntryAt(data, pos, LegacyValidate.LegacySfxSize * i, mem).1
    ensures SfxTableAt(data, pos, i, mem) == SfxTableAt(data, next, i1, mem1)
  {
    SfxEntryInFile(data, pos, LegacyValidate.LegacySfxSize * i, mem);
  }

  lemma SfxWalkStep(data: seq<int>, pos: int, i: int, next: int, i1: int)
    requires AllBytes(data) && 0 <= pos < |data| && 0 <= i < LegacyValidate.NumSfx
    requires data[pos] <= LegacyValidate.LegacySfxSize && pos + 1 + data[pos] <= |data|
    requires next == pos + 1 + data[pos] && i1 == i + 1
    ensures LegacyValidate.SfxWalk(data, pos, i) == LegacyValidate.SfxWalk(data, next, i1)
  {
    assert GetCAt(data, pos) == (data[pos], pos + 1);
  }

  /** `n` effects from `pos`, each at most 69 bytes long and inside the file. */
  predicate EffectsInFile(data: seq<int>, pos: int, n: int)
    requires AllBytes(data) && pos >= 0
    decreases n
  {
    n <= 0 ||
    (pos < |data| && data[pos] <= LegacyValidate.LegacySfxSize && pos + 1 + data[pos] <= |data| &&
     EffectsInFile(data, pos + 1 + data[pos], n - 1))
  }

  lemma EffectsInFileHead(data: seq<int>, pos: int, n: int)
    requires AllBytes(data) && pos >= 0 && n > 0 && EffectsInFile(data, pos, n)
    ensures pos < |data| && data[pos] <= LegacyValidate.LegacySfxSize && pos + 1 + data[pos] <= |data|
  {
  }

  lemma EffectsInFileNext(data: seq<int>, pos: int, n: int, next: int, n1: int)
    requires AllBytes(data) && pos >= 0 && n > 0 && EffectsInFile(data, pos, n)
    requires pos < |data| && next == pos + 1 + data[pos] && n1 == n - 1
    ensures EffectsInFile(data, next, n1)
  {
  }

  /** Where every effect is at most 69 bytes and lies in the file, the
      reader loads the whole table and ends where the validator's walk does. */
  lemma {:induction false} SfxFollowsValidator(data: seq<int>, pos: int, i: int, mem: seq<int>)
    requires AllBytes(data) && pos >= 0 && 0 <= i <= LegacyValidate.NumSfx && |mem| == SfxBytes
    requires EffectsInFile(data, pos, LegacyValidate.NumSfx - i)
    ensures SfxTableAt(data, pos, i, mem).0 == SfxLoaded
    ensures LegacyValidate.SfxWalk(data, pos, i) == LegacyValidate.Walked(LegacyValidate.NumSfx, SfxTableAt(data, pos, i, mem).2)
    decreases LegacyValidate.NumSfx - i
  {
    if i < LegacyValidate.NumSfx {
      var n, i1 := LegacyValidate.NumSfx - i, i + 1;
      EffectsInFileHead(data, pos, n);
      var next, n1 := pos + 1 + data[pos], LegacyValidate.NumSfx - i1;
      EffectsInFileNext(data, pos, n, next, n1);
      var mem' := SfxEntryAt(data, pos, LegacyValidate.LegacySfxSize * i, mem).1;
      SfxTableStep(data, pos, i, mem, next, i1, mem');
      SfxWalkStep(data, pos, i, next, i1);
      SfxFollowsValidator(data, next, i1, mem');
    } else {
      SfxTableEnd(data, pos, mem);
    }
  }

  /** An `unsigned int` board table entry: fgetd's result, EOF included. */
  function Unsigned(x: int): (r: int)
    ensures 0 <= r < 0x1_0000_0000
  {
    x % 0x1_0000_0000
  }

  datatype TableEntry = TableEntry(size: int, offset: int)

  /** The board size/offset table, `n` pairs of dwords read up front. */
  function BoardTableAt(data: seq<int>, pos: int, n: int): (r: (seq<TableEntry>, int))
    requires AllBytes(data) && pos >= 0
    ensures |r.0| == if n <= 0 then 0 else n
    ensures r.1 >= pos
    decreases n
  {
    if n <= 0 then ([], pos)
    else
      var (size, p1) := GetDAt(data, pos);
      var (offset, p2) := GetDAt(data, p1);
      var (rest, q) := BoardTableAt(data, p2, n - 1);
      ([TableEntry(Unsigned(size), Unsigned(offset))] + rest, q)
  }

  lemma UnsignedOfDword(data: seq<int>, pos: int)
    requires AllBytes(data) && 0 <= pos && pos + 4 <= |data|
    ensures Unsigned(GetDAt(data, pos).0) == LeDwordU(data, pos)
  {
    var u := LeDwordU(data, pos);
    assert (Wrap32(u) - u) % 0x1_0000_0000 == 0;
  }

  /** A table that lies in the file holds its little-endian dwords; one
      past the end reads as 0xFFFFFFFF entries. */
  lemma {:induction false} BoardTableEntries(data: seq<int>, pos: int, n: int, k: int)
    requires AllBytes(data) && pos >= 0 && 0 <= k < n
    ensures var e := BoardTableAt(data, pos, n).0[k];
      (pos + 8 * k + 8 <= |data| ==> e == TableEntry(LeDwordU(data, pos + 8 * k), LeDwordU(data, pos + 8 * k + 4))) &&
      (pos + 8 * k >= |data| ==> e == TableEntry(0xFFFF_FFFF, 0xFFFF_FFFF))
    decreases k
  {
    var (size, p1) := GetDAt(data, pos);
    var (offset, p2) := GetDAt(data, p1);
    if k == 0 {
      if pos + 8 <= |data| {
        UnsignedOfDword(data, pos);
        UnsignedOfDword(data, pos + 4);
      }
    } else if pos + 8 <= |data| {
      BoardTableEntries(data, p2, n - 1, k - 1);
    } else {
      assert pos + 8 * k >= |data| ==> p2 >= |data| && p2 + 8 * (k - 1) >= |data|;
      if pos + 8 * k >= |data| {
        BoardTableEntries(data, p2, n - 1, k - 1);
      }
    }
  }

  // ---------------------------------------------------------------------
  // Boards and robots, as the codecs hand them over

  datatype RobotRef = GlobalRobot | OwnRobot(id: int)

  /** `robot_list`: slot 0 exists whenever the list does. */
  type RobotList = s: seq<RobotRef> | |s| >= 1 witness [GlobalRobot]

  type BoardName = s: seq<int> | |s| == LegacyValidate.LegacyBoardNameSize witness seq(25, k => 0)

  datatype Board = Board(name: BoardName, robots: Option<RobotList>)

  /** The robot codec's result; only `used` is looked at here. */
  datatype Robot = Robot(used: bool, state: seq<int>)

  /** The board and robot codecs: a board from its offset and size (and
      where it leaves the stream), a robot from the current position. */
  datatype Codecs = Codecs(
    board: (seq<int>, int, int, bool, int) -> (Option<Board>, int),
    robot: (seq<int>, int, bool, int) -> Robot)

  /** `robot_list[0] = &mzx_world->global_robot`. */
  function Rebind(b: Option<Board>): (r: Option<Board>)
    ensures r.Some? <==> b.Some?
    ensures r.Some? ==> r.value.name == b.value.name
    ensures r.Some? && r.value.robots.Some? ==>
      b.value.robots.Some? && r.value.robots.value == [GlobalRobot] + b.value.robots.value[1..]
    ensures r.Some? && r.value.robots.None? ==> b.value.robots.None?
  {
    match b
    case None => None
    case Some(board) =>
      match board.robots
      case None => b
      case Some(rs) => Some(board.(robots := Some([GlobalRobot] + rs[1..])))
  }

  /** Slot 0 of every loaded board's robot list is the global robot. */
  predicate RobotsLinked(boards: seq<Option<Board>>)
  {
    forall k :: 0 <= k < |boards| && boards[k].Some? && boards[k].value.robots.Some? ==>
      boards[k].value.robots.value[0] == GlobalRobot
  }

  lemma AppendOne<T>(a: seq<T>, x: T, b: seq<T>)
    ensures a + ([x] + b) == (a + [x]) + b
  {
  }

  /** Every loaded board's name ends in a NUL. */
  predicate NamesTerminated(boards: seq<Option<Board>>)
  {
    forall k :: 0 <= k < |boards| && boards[k].Some? ==>
      boards[k].value.name[LegacyValidate.LegacyBoardNameSize - 1] == 0
  }

  /** One board name: fread of 25 bytes over the old name, the first byte
      cleared when the read fails, the last byte always cleared. */
  function NameRead(previous: BoardName, data: seq<int>, pos: int): (r: (BoardName, int))
    requires AllBytes(data) && pos >= 0
    ensures r.1 >= pos
  {
    var (ok, p) := ReadAt(data, pos, LegacyValidate.LegacyBoardNameSize);
    var avail := Available(data, pos, LegacyValidate.LegacyBoardNameSize);
    var filled := Overwrite(previous, 0, avail);
    var cleared := if ok then filled else filled[0 := 0];
    (cleared[LegacyValidate.LegacyBoardNameSize - 1 := 0], p)
  }

  /** A name read whole is the file's 24 bytes and a NUL; a name that
      cannot be read becomes the empty string. */
  lemma NameReadOutcome(previous: BoardName, data: seq<int>, pos: int)
    requires AllBytes(data) && pos >= 0
    ensures var (name, p) := NameRead(previous, data, pos);
      name[LegacyValidate.LegacyBoardNameSize - 1] == 0 &&
      |CString(name)| < LegacyValidate.LegacyBoardNameSize &&
      (pos + LegacyValidate.LegacyBoardNameSize <= |data| ==>
         name[..LegacyValidate.LegacyBoardNameSize - 1] == data[pos..pos + LegacyValidate.LegacyBoardNameSize - 1] &&
         p == pos + LegacyValidate.LegacyBoardNameSize) &&
      (pos + LegacyValidate.LegacyBoardNameSize > |data| ==> CString(name) == [])
  {
    var (name, p) := NameRead(previous, data, pos);
    CStringBounded(name, LegacyValidate.LegacyBoardNameSize - 1);
  }

  // ---------------------------------------------------------------------
  // Fixed-size sections

  /** Charset, id chars, missile color, bullet colors and damage table;
      every fread must succeed. (read succeeded, new position). */
  function IdBlockAt(data: seq<int>, pos: int): (r: (bool, int))
    requires AllBytes(data) && pos >= 0
    ensures r.1 >= pos
    ensures r.0 ==> r.1 == pos + CharsetBytes + LegacyIdCharsSize + 1 + LegacyIdBulletColorSize + LegacyIdDmgSize
  {
    var (charset, p1) := ReadAt(data, pos, CharsetBytes);
    if !charset then (false, p1)
    else
      var (idChars, p2) := ReadAt(data, p1, LegacyIdCharsSize);
      if !idChars then (false, p2)
      else
        var p3 := GetCAt(data, p2).1;
        var (bullets, p4) := ReadAt(data, p3, LegacyIdBulletColorSize);
        if !bullets then (false, p4)
        else ReadAt(data, p4, LegacyIdDmgSize)
  }

  /** Savegame: keys, effect durations, saved player positions and boards,
      colors; (read succeeded, position of the playing module's path). */
  function SaveGlobalsAt(data: seq<int>, pos: int): (r: (bool, int))
    requires AllBytes(data) && pos >= 0
    ensures r.1 >= pos
  {
    var (keys, p1) := ReadAt(data, pos, NumKeys);
    if !keys then (false, p1)
    else
      var (boards, p2) := ReadAt(data, SkipAt(data, p1, 5 + 16 + 16), 8);
      if !boards then (false, p2)
      else (true, SkipAt(data, p2, 10))
  }

  /** Savegame: sprites, collision list, misc words, then the fread and
      fwrite file names, each followed by its dword position. */
  datatype IoNames = IoNames(ok: bool, input: seq<int>, output: Option<seq<int>>, pos: int)

  function IoNamesAt(data: seq<int>, pos: int): (r: IoNames)
    requires AllBytes(data) && pos >= 0
    ensures r.pos >= pos
    ensures |r.input| < MaxPath && (r.output.Some? ==> |r.output.value| < MaxPath)
    ensures r.ok ==> r.output.Some?
  {
    var (inputOk, input, p1) := PathAt(data, SkipAt(data, pos, 4612 + 12));
    if !inputOk then IoNames(false, input, None, p1)
    else
      var (outputOk, output, p2) := PathAt(data, SkipAt(data, p1, 4));
      if !outputOk then IoNames(false, input, Some(output), p2)
      else IoNames(true, input, Some(output), SkipAt(data, p2, 4))
  }

  /** Savegame: screen mode (with the SMZX palette), commands, and the
      vlayer's size, dimensions, chars and colors. */
  datatype Vlayer = Vlayer(ok: bool, size: int, chars: seq<int>, colors: seq<int>, pos: int)

  function VlayerAt(data: seq<int>, pos: int): (r: Vlayer)
    requires AllBytes(data) && pos >= 0
    ensures r.pos >= pos
  {
    var (screenMode, p1) := GetWAt(data, pos);
    var p2 := SkipAt(data, if screenMode > 1 then SkipAt(data, p1, 768) else p1, 4);
    var (size, p3) := GetDAt(data, p2);
    var p4 := SkipAt(data, p3, 4);
    if size == 0 then Vlayer(true, size, [], [], p4)
    else
      var (charsOk, p5) := ReadAt(data, p4, size);
      var chars := Available(data, p4, size);
      if !charsOk then Vlayer(false, size, chars, [], p5)
      else
        var (colorsOk, p6) := ReadAt(data, p5, size);
        Vlayer(colorsOk, size, chars, Available(data, p5, size), p6)
  }

  /** On names shorter than MAX_PATH that lie in the file, the reader
      reads them whole and ends where the validator's walk does. */
  lemma IoNamesFollowValidator(data: seq<int>, pos: int)
    requires AllBytes(data) && pos >= 0
    requires LegacyValidate.IoNamesSpec(data, pos) <= |data|
    requires GetWAt(data, pos + 4612 + 12).0 < MaxPath
    requires GetWAt(data, GetWAt(data, pos + 4612 + 12).1 + GetWAt(data, pos + 4612 + 12).0 + 4).0 < MaxPath
    ensures IoNamesAt(data, pos).ok && IoNamesAt(data, pos).pos == LegacyValidate.IoNamesSpec(data, pos)
  {
    var (readName, p1) := GetWAt(data, pos + 4612 + 12);
    assert readName >= 0;
    var (writeName, p2) := GetWAt(data, p1 + readName + 4);
    assert writeName >= 0;
  }

  /** Where the validator's screen-mode and vlayer walk stays inside the
      file, the reader loads both vlayer planes whole and ends there too. */
  lemma VlayerFollowsValidator(data: seq<int>, pos: int)
    requires AllBytes(data) && pos >= 0
    requires LegacyValidate.ScreenModeSpec(data, pos).At?
    requires LegacyValidate.VlayerSpec(data, LegacyValidate.ScreenModeSpec(data, pos).pos).At?
    requires LegacyValidate.VlayerSpec(data, LegacyValidate.ScreenModeSpec(data, pos).pos).pos <= |data|
    ensures var v := VlayerAt(data, pos);
      v.ok && v.pos == LegacyValidate.VlayerSpec(data, LegacyValidate.ScreenModeSpec(data, pos).pos).pos &&
      |v.chars| == |v.colors| == v.size
  {
    var (screenMode, p1) := GetWAt(data, pos);
    assert screenMode != EOF;
  }

  // ---------------------------------------------------------------------
  // Reading through the FILE

  /** `if(len && !fread(buffer, len, 1, fp))` */
  method ReadFieldFrom(f: CFile, len: int) returns (ok: bool, bytes: seq<int>)
    requires f.Valid()
    modifies f
    ensures f.Valid()
    ensures (ok, bytes, f.pos) == ReadField(f.data, old(f.pos), len)
  {
    if len == 0 {
      return true, [];
    }
    ok, bytes := f.Read(len);
  }

  /** fread into `a` at `off`: the bytes that arrived replace the old ones. */
  method CopyInto(a: array<int>, off: int, bytes: seq<int>)
    requires 0 <= off && off + |bytes| <= a.Length
    modifies a
    ensures a[..] == Overwrite(old(a[..]), off, bytes)
  {
    for k := 0 to |bytes|
      invariant forall j :: 0 <= j < a.Length ==>
        a[j] == if off <= j < off + k then bytes[j - off] else old(a[j])
    {
      a[off + k] := bytes[k];
    }
  }

  /** A length-prefixed path, cut to MAX_PATH - 1 bytes. */
  method LoadPath(f: CFile) returns (ok: bool, path: seq<int>)
    requires f.Valid()
    modifies f
    ensures f.Valid()
    ensures (ok, path, f.pos) == PathAt(f.data, old(f.pos))
  {
    var len := f.GetW();
    if len < 0 || len >= MaxPath {
      len := MaxPath - 1;
    }
    ok, path := ReadFieldFrom(f, len);
  }

  /** legacy_load_string, reading one record into the slot it returns. */
  method LoadString(f: CFile) returns (slot: Option<StringEntry>)
    requires f.Valid()
    modifies f
    ensures f.Valid()
    ensures (slot, f.pos) == StringAt(f.data, old(f.pos))
  {
    var nameLength := f.GetD();
    var valueLength := f.GetD();
    var nameOk, name := ReadFieldFrom(f, nameLength);
    if !nameOk {
      return None;
    }
    var _, value := ReadFieldFrom(f, valueLength);
    return Some(StringEntry(name, valueLength, value));
  }

  /** The board size/offset table, read before any board is loaded. */
  method ReadBoardTable(f: CFile, n: int) returns (table: seq<TableEntry>)
    requires f.Valid()
    modifies f
    ensures f.Valid()
    ensures (table, f.pos) == BoardTableAt(f.data, old(f.pos), n)
  {
    table := [];
    var i := 0;
    assert table + BoardTableAt(f.data, f.pos, n).0 == BoardTableAt(f.data, f.pos, n).0;
    while i < n
      invariant f.Valid() && 0 <= i && (n >= 0 ==> i <= n)
      invariant BoardTableAt(f.data, old(f.pos), n) ==
        (table + BoardTableAt(f.data, f.pos, n - i).0, BoardTableAt(f.data, f.pos, n - i).1)
    {
      ghost var before := f.pos;
      var size := f.GetD();
      var offset := f.GetD();
      ghost var rest := BoardTableAt(f.data, f.pos, n - i - 1);
      assert BoardTableAt(f.data, before, n - i) == ([TableEntry(Unsigned(size), Unsigned(offset))] + rest.0, rest.1);
      assert table + ([TableEntry(Unsigned(size), Unsigned(offset))] + rest.0) ==
        (table + [TableEntry(Unsigned(size), Unsigned(offset))]) + rest.0;
      table := table + [TableEntry(Unsigned(size), Unsigned(offset))];
      i := i + 1;
    }
    assert table + BoardTableAt(f.data, f.pos, n - i).0 == table;
  }

  /** One board name read over the old one. */
  method ReadBoardName(f: CFile, previous: BoardName) returns (name: BoardName)
    requires f.Valid()
    modifies f
    ensures f.Valid()
    ensures (name, f.pos) == NameRead(previous, f.data, old(f.pos))
  {
    var ok, avail := f.Read(LegacyValidate.LegacyBoardNameSize);
    var filled := Overwrite(previous, 0, avail);
    if !ok {
      filled := filled[0 := 0];
    }
    name := filled[LegacyValidate.LegacyBoardNameSize - 1 := 0];
  }

  // ---------------------------------------------------------------------
  // Board names, as the final loop reads them

  /** The name loop over the loaded boards; a board the codec did not load
      has its name read into a scratch buffer and dropped. */
  function BoardNamesAt(boards: seq<Option<Board>>, data: seq<int>, pos: int): (r: (seq<Option<Board>>, int))
    requires AllBytes(data) && pos >= 0
    ensures |r.0| == |boards| && r.1 >= pos
    ensures forall k :: 0 <= k < |boards| ==> (r.0[k].Some? <==> boards[k].Some?)
    decreases |boards|
  {
    if boards == [] then ([], pos)
    else
      var read := NameRead(if boards[0].Some? then boards[0].value.name else ScratchName(), data, pos);
      var first := if boards[0].Some? then Some(boards[0].value.(name := read.0)) else None;
      var rest := BoardNamesAt(boards[1..], data, read.1);
      ([first] + rest.0, rest.1)
  }

  /** One step of the name loop: the first board's name, then the rest. */
  lemma BoardNamesCons(boards: seq<Option<Board>>, data: seq<int>, pos: int)
    requires AllBytes(data) && pos >= 0 && boards != []
    ensures var read := NameRead(if boards[0].Some? then boards[0].value.name else ScratchName(), data, pos);
      var rest := BoardNamesAt(boards[1..], data, read.1);
      BoardNamesAt(boards, data, pos) ==
        ([if boards[0].Some? then Some(boards[0].value.(name := read.0)) else None] + rest.0, rest.1)
  {
  }

  /** The uninitialised `ignore` buffer; its contents are never used. */
  function ScratchName(): BoardName { seq(25, k => 0) }

  /** Every loaded board's name ends in a NUL and its robot list is
      untouched. */
  lemma {:induction false} BoardNamesTerminated(boards: seq<Option<Board>>, data: seq<int>, pos: int)
    requires AllBytes(data) && pos >= 0
    ensures var r := BoardNamesAt(boards, data, pos).0;
      forall k :: 0 <= k < |boards| && boards[k].Some? ==>
        r[k].value.robots == boards[k].value.robots &&
        r[k].value.name[LegacyValidate.LegacyBoardNameSize - 1] == 0
    ensures NamesTerminated(BoardNamesAt(boards, data, pos).0)
    ensures RobotsLinked(boards) ==> RobotsLinked(BoardNamesAt(boards, data, pos).0)
    decreases |boards|
  {
    if boards != [] {
      var p := NameRead(if boards[0].Some? then boards[0].value.name else ScratchName(), data, pos).1;
      BoardNamesCons(boards, data, pos);
      BoardNamesTerminated(boards[1..], data, p);
      var r := BoardNamesAt(boards, data, pos).0;
      var rest := BoardNamesAt(boards[1..], data, p).0;
      if boards[0].Some? {
        NameReadOutcome(boards[0].value.name, data, pos);
      }
      forall k | 0 <= k < |boards| && boards[k].Some?
        ensures r[k].value.robots == boards[k].value.robots
        ensures r[k].value.name[LegacyValidate.LegacyBoardNameSize - 1] == 0
      {
        if k > 0 {
          assert r[k] == rest[k - 1] && boards[k] == boards[1..][k - 1];
        }
      }
    }
  }

  // ---------------------------------------------------------------------
  // The file, stage by stage

  /** Where fseek leaves the stream: at its target, or where it was when
      the target is negative. */
  function SeekedTo(size: int, pos: int, offset: int, whence: Whence): (p: int)
    requires pos >= 0
    ensures p >= 0
    ensures SeekAt(size, pos, offset, whence).Some? ==> p == SeekAt(size, pos, offset, whence).value
    ensures SeekAt(size, pos, offset, whence).None? ==> p == pos
  {
    var target := SeekAt(size, pos, offset, whence);
    if target.Some? then target.value else pos
  }

  /** Where the opening seek and reads leave the stream: past a
      savegame's version word and current board byte at offset 5, or at
      offset 29, past a world's name and protection bytes. */
  function HeaderEnd(data: seq<int>, savegame: bool): (p: int)
    requires AllBytes(data)
    ensures p >= 0
  {
    if savegame then GetCAt(data, GetWAt(data, 5).1).1 else 29
  }

  /** The strings, the input and output file names and the vlayer of a
      savegame, read from `pos` on; `ok` says whether the names and the
      vlayer were read whole, and `pos` is where the reading stopped. */
  datatype StringsAndFiles = StringsAndFiles(numStrings: int, strings: seq<Option<StringEntry>>, io: IoNames,
                                             vlayer: Vlayer, ok: bool, pos: int)

  function StringsAndFilesAt(data: seq<int>, pos: int): (r: StringsAndFiles)
    requires AllBytes(data) && pos >= 0
    ensures r.ok ==> |r.io.input| < MaxPath && r.pos >= pos
  {
    var (n, p) := GetDAt(data, pos);
    var (strings, q) := StringsAt(data, p, n);
    var io := IoNamesAt(data, q);
    var v := VlayerAt(data, io.pos);
    StringsAndFiles(n, strings, io, v, io.ok && v.ok, v.pos)
  }

  /** The saved state after the globals and the skipped scalars: the
      counter list, started from the speeds already set, then the
      strings, file names and vlayer. */
  datatype SavedState = SavedState(counters: CounterList, rest: StringsAndFiles)

  function SavedStateAt(data: seq<int>, pos: int, mzxSpeed: int, lockSpeed: int): (s: SavedState)
    requires AllBytes(data) && pos >= 0
    ensures s.rest.ok ==> s.rest.pos >= pos
  {
    var (n, p) := GetDAt(data, pos);
    var (counters, q) := CountersAt(data, p, n, CounterList([], n, mzxSpeed, lockSpeed));
    SavedState(counters, StringsAndFilesAt(data, q))
  }

  /** The savegame part of the world info, from the saved globals on:
      the globals with the playing module's path, the world scalars and
      palettes the loader only skips, then the saved state. */
  datatype SavegameInfo = SavegameInfo(ok: bool, modPlaying: seq<int>, saved: SavedState, pos: int)

  function SavegameInfoAt(data: seq<int>, pos: int, mzxSpeed: int, lockSpeed: int): (g: SavegameInfo)
    requires AllBytes(data) && pos >= 0
    ensures g.ok ==> g.pos >= pos && g.saved.rest.ok && |g.modPlaying| < MaxPath
  {
    var (globalsOk, p) := SaveGlobalsAt(data, pos);
    var (pathOk, path, p3) := PathAt(data, p);
    var saved := SavedStateAt(data, SkipAt(data, SkipAt(data, p3, 24 + 48), 16 + 1 + 4 + 3), mzxSpeed, lockSpeed);
    SavegameInfo(globalsOk && pathOk && saved.rest.ok, path, saved, saved.rest.pos)
  }

  /** Everything between the header and the global robot position: the
      id block and the status counter names, then the savegame part or,
      in a world, the skipped scalars and palette. `ok` says whether
      every read that can fail succeeded. */
  datatype WorldInfo = WorldInfo(ok: bool, statusNames: seq<int>, game: Option<SavegameInfo>, pos: int)

  function WorldInfoAt(data: seq<int>, pos: int, savegame: bool, mzxSpeed: int, lockSpeed: int): (w: WorldInfo)
    requires AllBytes(data) && pos >= 0
    ensures w.ok ==> |w.statusNames| == NumStatusCounters * CounterNameSize && w.pos >= 0
    ensures w.game.Some? <==> savegame
  {
    var (idOk, p1) := IdBlockAt(data, pos);
    var (namesOk, p2) := ReadAt(data, p1, NumStatusCounters * CounterNameSize);
    var names := if namesOk then StatusNames(data[p1..p1 + NumStatusCounters * CounterNameSize]) else [];
    if !savegame then WorldInfo(idOk && namesOk, names, None, SkipAt(data, p2, 24 + 48))
    else
      var game := SavegameInfoAt(data, p2, mzxSpeed, lockSpeed);
      WorldInfo(idOk && namesOk && game.ok, names, Some(game), game.pos)
  }

  /** The custom sound effects that follow the global robot position: a
      first board count of zero announces them, and the real count
      follows the table. `ok` is false when an effect cannot be read. */
  datatype SfxSection = SfxSection(ok: bool, customOn: bool, sfx: seq<int>, numBoards: int, pos: int)

  function SfxSectionAt(data: seq<int>, pos: int, mem: seq<int>): (r: SfxSection)
    requires AllBytes(data) && pos >= 0 && |mem| == SfxBytes
    ensures r.pos >= pos && |r.sfx| == |mem|
    ensures r.customOn <==> GetCAt(data, pos).0 == 0
    ensures !r.customOn ==> r.ok && r.sfx == mem && (r.numBoards, r.pos) == GetCAt(data, pos)
    ensures r.ok && r.customOn ==> SfxTableAt(data, GetWAt(data, GetCAt(data, pos).1).1, 0, mem).0 == SfxLoaded
  {
    var (first, p) := GetCAt(data, pos);
    if first != 0 then SfxSection(true, false, mem, first, p)
    else
      var (status, sfx, q) := SfxTableAt(data, GetWAt(data, p).1, 0, mem);
      var (n, r) := GetCAt(data, q);
      SfxSection(status == SfxLoaded, true, sfx, n, r)
  }

  /** Board k of the table, from the board codec at its offset and size,
      with slot 0 of its robot list rebound to the global robot. */
  function LoadedBoards(data: seq<int>, table: seq<TableEntry>, savegame: bool, fileVersion: int, codecs: Codecs)
    : (r: seq<Option<Board>>)
    ensures |r| == |table|
    ensures forall k :: 0 <= k < |table| ==>
      r[k] == Rebind(codecs.board(data, table[k].offset, table[k].size, savegame, fileVersion).0)
  {
    seq(|table|, k requires 0 <= k < |table| =>
      Rebind(codecs.board(data, table[k].offset, table[k].size, savegame, fileVersion).0))
  }

  /** Where the board loop leaves the stream: after each board it seeks
      to where the codec stopped. */
  function BoardsEnd(data: seq<int>, pos: int, table: seq<TableEntry>, savegame: bool, fileVersion: int,
                     codecs: Codecs): (p: int)
    requires pos >= 0
    ensures p >= 0
    decreases |table|
  {
    if table == [] then pos
    else
      var next := codecs.board(data, table[0].offset, table[0].size, savegame, fileVersion).1;
      BoardsEnd(data, SeekedTo(|data|, pos, next, SeekSet), table[1..], savegame, fileVersion, codecs)
  }

  /** The boards and the global robot of a list of `n` boards whose name
      table starts at `pos`: the table of sizes and offsets past the
      names, each board through the codec, the global robot from its
      position, always marked used, and the names read last. */
  datatype BoardList = BoardList(boards: seq<Option<Board>>, globalRobot: Robot)

  function BoardListAt(data: seq<int>, pos: int, n: int, globalRobotPos: int, savegame: bool, fileVersion: int,
                       codecs: Codecs): (l: BoardList)
    requires AllBytes(data) && pos >= 0
    ensures |l.boards| == if n <= 0 then 0 else n
    ensures l.globalRobot.used
  {
    var (table, p) := BoardTableAt(data, SeekedTo(|data|, pos, n * LegacyValidate.LegacyBoardNameSize, SeekCur), n);
    var robotPos := SeekedTo(|data|, BoardsEnd(data, p, table, savegame, fileVersion, codecs), globalRobotPos, SeekSet);
    BoardList(BoardNamesAt(LoadedBoards(data, table, savegame, fileVersion, codecs), data, pos).0,
              codecs.robot(data, robotPos, savegame, fileVersion).(used := true))
  }

  /** Every board of the list shares the global robot and has a
      NUL-terminated name. */
  lemma BoardListInvariants(data: seq<int>, pos: int, n: int, globalRobotPos: int, savegame: bool,
                            fileVersion: int, codecs: Codecs)
    requires AllBytes(data) && pos >= 0
    ensures var l := BoardListAt(data, pos, n, globalRobotPos, savegame, fileVersion, codecs);
      RobotsLinked(l.boards) && NamesTerminated(l.boards)
  {
    var (table, p) := BoardTableAt(data, SeekedTo(|data|, pos, n * LegacyValidate.LegacyBoardNameSize, SeekCur), n);
    var loaded := LoadedBoards(data, table, savegame, fileVersion, codecs);
    assert RobotsLinked(loaded);
    BoardNamesTerminated(loaded, data, pos);
  }

  /** From the global robot position on: the custom sound effects, then
      the board list. */
  datatype BoardSection = BoardSection(sfx: SfxSection, list: BoardList)

  function BoardSectionAt(data: seq<int>, pos: int, mem: seq<int>, savegame: bool, fileVersion: int, codecs: Codecs)
    : (bs: BoardSection)
    requires AllBytes(data) && pos >= 0 && |mem| == SfxBytes
    ensures |bs.sfx.sfx| == SfxBytes
  {
    var (globalRobotPos, p) := GetDAt(data, pos);
    var sfx := SfxSectionAt(data, p, mem);
    BoardSection(sfx, BoardListAt(data, sfx.pos, sfx.numBoards, globalRobotPos, savegame, fileVersion, codecs))
  }

  /** What a world info read without a failure promises the world: six
      NUL-terminated status counter names and, in a savegame, bounded
      paths and a counter list whose count is its length (or negative
      over an empty list) and that holds no reserved name. */
  predicate InfoInvariants(w: WorldInfo, savegame: bool)
  {
    |w.statusNames| == NumStatusCounters * CounterNameSize &&
    (forall i :: 0 <= i < NumStatusCounters ==> w.statusNames[CounterNameSize * i + CounterNameSize - 1] == 0) &&
    (w.game.Some? <==> savegame) && (savegame ==> SavegameInvariants(w.game.value))
  }

  /** Every world info read without a failure keeps those invariants. */
  lemma WorldInfoInvariants(data: seq<int>, pos: int, savegame: bool, mzxSpeed: int, lockSpeed: int)
    requires AllBytes(data) && pos >= 0
    ensures var w := WorldInfoAt(data, pos, savegame, mzxSpeed, lockSpeed);
      w.ok ==> InfoInvariants(w, savegame)
  {
    var w := WorldInfoAt(data, pos, savegame, mzxSpeed, lockSpeed);
    var (idOk, p1) := IdBlockAt(data, pos);
    var (namesOk, p2) := ReadAt(data, p1, NumStatusCounters * CounterNameSize);
    if w.ok {
      StatusNameEnds(data[p1..p1 + NumStatusCounters * CounterNameSize]);
      if savegame {
        var (globalsOk, gp) := SaveGlobalsAt(data, p2);
        var (pathOk, path, p3) := PathAt(data, gp);
        SavedStateInvariants(data, SkipAt(data, SkipAt(data, p3, 24 + 48), 16 + 1 + 4 + 3), mzxSpeed, lockSpeed);
      }
    }
  }

  /** What a savegame part read without a failure promises the world. */
  predicate SavegameInvariants(g: SavegameInfo)
  {
    var st := g.saved.counters;
    |g.modPlaying| < MaxPath && |g.saved.rest.io.input| < MaxPath &&
    g.saved.rest.io.output.Some? && |g.saved.rest.io.output.value| < MaxPath &&
    (st.count == |st.counters| || (st.count < 0 && st.counters == [])) &&
    forall c :: c in st.counters ==> !Reserved(c.name)
  }

  lemma SavedStateInvariants(data: seq<int>, pos: int, mzxSpeed: int, lockSpeed: int)
    requires AllBytes(data) && pos >= 0
    ensures var s := SavedStateAt(data, pos, mzxSpeed, lockSpeed);
      var st := s.counters;
      (st.count == |st.counters| || (st.count < 0 && st.counters == [])) &&
      forall c :: c in st.counters ==> !Reserved(c.name)
  {
    var (n, p) := GetDAt(data, pos);
    if n >= 0 {
      LoadedCounterCount(data, p, n, mzxSpeed, lockSpeed);
    }
    InsertedNamesNotReserved(data, p, n, CounterList([], n, mzxSpeed, lockSpeed));
  }

  /** Read without a failure, the board section has NUL-terminated
      effects when they are custom, and boards that share the global
      robot and have NUL-terminated names. */
  lemma BoardSectionInvariants(data: seq<int>, pos: int, mem: seq<int>, savegame: bool, fileVersion: int,
                               codecs: Codecs)
    requires AllBytes(data) && pos >= 0 && |mem| == SfxBytes
    ensures var bs := BoardSectionAt(data, pos, mem, savegame, fileVersion, codecs);
      bs.sfx.ok && bs.sfx.customOn ==>
        forall j :: 0 <= j < LegacyValidate.NumSfx ==>
          bs.sfx.sfx[LegacyValidate.LegacySfxSize * j + LegacyValidate.LegacySfxSize - 1] == 0
    ensures var bs := BoardSectionAt(data, pos, mem, savegame, fileVersion, codecs);
      RobotsLinked(bs.list.boards) && NamesTerminated(bs.list.boards)
  {
    var (globalRobotPos, p) := GetDAt(data, pos);
    var sfx := SfxSectionAt(data, p, mem);
    if sfx.customOn {
      SfxTerminated(data, GetWAt(data, GetCAt(data, p).1).1, 0, mem);
    }
    BoardListInvariants(data, sfx.pos, sfx.numBoards, globalRobotPos, savegame, fileVersion, codecs);
  }

  /** The world state `legacy_load_world` fills in. The two fixed buffers
      are arrays; lists the loader builds are sequences. */
  class LegacyWorld {
    var version: int
    var currentBoardId: int
    var name: seq<int>
    const statusCountersShown: array<int>
    var realModPlaying: seq<int>
    var counters: seq<Counter>
    var numCounters: int
    var mzxSpeed: int
    var lockSpeed: int
    var strings: seq<Option<StringEntry>>
    var numStrings: int
    var inputFileName: seq<int>
    var outputFileName: seq<int>
    var vlayerSize: int
    var vlayerChars: seq<int>
    var vlayerColors: seq<int>
    var customSfxOn: bool
    const customSfx: array<int>
    var numBoards: int
    var boards: seq<Option<Board>>
    var globalRobot: Robot

    ghost predicate Valid()
    {
      statusCountersShown.Length == NumStatusCounters * CounterNameSize &&
      customSfx.Length == SfxBytes && statusCountersShown != customSfx
    }

    constructor ()
      ensures Valid() && counters == [] && strings == [] && boards == []
    {
      version, currentBoardId, name := 0, 0, [];
      statusCountersShown := new int[NumStatusCounters * CounterNameSize](k => 0);
      realModPlaying := [];
      counters, numCounters, mzxSpeed, lockSpeed := [], 0, 0, 0;
      strings, numStrings := [], 0;
      inputFileName, outputFileName := [], [];
      vlayerSize, vlayerChars, vlayerColors := 0, [], [];
      customSfxOn := false;
      customSfx := new int[SfxBytes](k => 0);
      numBoards, boards := 0, [];
      globalRobot := Robot(false, []);
    }

    ghost predicate StatusNamesTerminated()
      requires Valid()
      reads statusCountersShown
    {
      forall i :: 0 <= i < NumStatusCounters ==> statusCountersShown[CounterNameSize * i + CounterNameSize - 1] == 0
    }

    ghost predicate EffectsTerminated()
      requires Valid()
      reads customSfx
    {
      forall j :: 0 <= j < LegacyValidate.NumSfx ==>
        customSfx[LegacyValidate.LegacySfxSize * j + LegacyValidate.LegacySfxSize - 1] == 0
    }

    /** Every loaded board shares the global robot in slot 0 and has a
        NUL-terminated name. */
    ghost predicate BoardsLinked()
      reads this`boards
    {
      RobotsLinked(boards) && NamesTerminated(boards)
    }

    /** The world holds the strings, file names and vlayer `r` read; an
        output name the file leaves unset stays `priorOutput`, and the
        vlayer is stated only when everything was read. */
    ghost predicate HoldsStringsAndFiles(r: StringsAndFiles, priorOutput: seq<int>)
      reads this`numStrings, this`strings, this`inputFileName, this`outputFileName
      reads this`vlayerSize, this`vlayerChars, this`vlayerColors
    {
      numStrings == r.numStrings && strings == r.strings && inputFileName == r.io.input &&
      outputFileName == (if r.io.output.Some? then r.io.output.value else priorOutput) &&
      (r.ok ==> vlayerSize == r.vlayer.size && vlayerChars == r.vlayer.chars && vlayerColors == r.vlayer.colors)
    }

    /** The world holds the saved counters and speeds, then the rest of
        the saved state. */
    ghost predicate HoldsSavedState(st: SavedState, priorOutput: seq<int>)
      reads this`counters, this`numCounters, this`mzxSpeed, this`lockSpeed
      reads this`numStrings, this`strings, this`inputFileName, this`outputFileName
      reads this`vlayerSize, this`vlayerChars, this`vlayerColors
    {
      CounterList(counters, numCounters, mzxSpeed, lockSpeed) == st.counters &&
      HoldsStringsAndFiles(st.rest, priorOutput)
    }

    /** The world holds the playing module's path and the saved state. */
    ghost predicate HoldsSavegameInfo(g: SavegameInfo, priorOutput: seq<int>)
      reads this`realModPlaying, this`counters, this`numCounters, this`mzxSpeed, this`lockSpeed
      reads this`numStrings, this`strings, this`inputFileName, this`outputFileName
      reads this`vlayerSize, this`vlayerChars, this`vlayerColors
    {
      realModPlaying == g.modPlaying && HoldsSavedState(g.saved, priorOutput)
    }

    /** The world holds the status counter names and, for a savegame, the
        savegame part. */
    ghost predicate HoldsWorldInfo(w: WorldInfo, priorOutput: seq<int>)
      reads statusCountersShown, this`realModPlaying, this`counters, this`numCounters, this`mzxSpeed
      reads this`lockSpeed, this`numStrings, this`strings, this`inputFileName, this`outputFileName
      reads this`vlayerSize, this`vlayerChars, this`vlayerColors
    {
      statusCountersShown[..] == w.statusNames && (w.game.Some? ==> HoldsSavegameInfo(w.game.value, priorOutput))
    }

    /** The world holds the sound effects of the section and, when they
        were read, its board count, boards and global robot. */
    ghost predicate HoldsBoardSection(bs: BoardSection)
      reads customSfx, this`customSfxOn, this`numBoards, this`boards, this`globalRobot
    {
      customSfxOn == bs.sfx.customOn && customSfx[..] == bs.sfx.sfx &&
      (bs.sfx.ok ==> numBoards == bs.sfx.numBoards && boards == bs.list.boards && globalRobot == bs.list.globalRobot)
    }

    /** The invariants a world read without a failure keeps: those of
        its world info and those of its board section. */
    ghost predicate LoadedInvariants(savegame: bool)
      requires Valid()
      reads this, statusCountersShown, customSfx
    {
      InfoLoaded(savegame) && SectionLoaded()
    }

    /** Terminated status counter names and, in a savegame, bounded paths
        and a counter count that matches the list, with no reserved name
        in it. */
    ghost predicate InfoLoaded(savegame: bool)
      requires Valid()
      reads statusCountersShown, this`realModPlaying, this`inputFileName, this`outputFileName
      reads this`numCounters, this`counters
    {
      StatusNamesTerminated() && (savegame ==> SavegameLoaded())
    }

    /** Bounded paths and a counter count that matches the list, with no
        reserved name in it. */
    ghost predicate SavegameLoaded()
      reads this`realModPlaying, this`inputFileName, this`outputFileName, this`numCounters, this`counters
    {
      |realModPlaying| < MaxPath && |inputFileName| < MaxPath && |outputFileName| < MaxPath &&
      (numCounters == |counters| || (numCounters < 0 && counters == [])) &&
      forall c :: c in counters ==> !Reserved(c.name)
    }

    /** Terminated effects and board names, the global robot in every
        board's slot 0 and a board list as long as the count says. */
    ghost predicate SectionLoaded()
      requires Valid()
      reads customSfx, this`customSfxOn, this`numBoards, this`boards, this`globalRobot
    {
      globalRobot.used && BoardsLinked() &&
      |boards| == (if numBoards <= 0 then 0 else numBoards) &&
      (customSfxOn ==> EffectsTerminated())
    }

    /** The opening seek: a savegame's version and current board, or the
        world's name and the version its validator found. */
    method LoadHeader(f: CFile, savegame: bool, fileVersion: int, worldName: seq<int>)
      requires f.Valid()
      modifies this`version, this`currentBoardId, this`name, f
      ensures f.Valid()
      ensures savegame ==>
        var (v, p) := GetWAt(f.data, 5);
        version == v && (currentBoardId, f.pos) == GetCAt(f.data, p) && name == old(name)
      ensures !savegame ==>
        version == fileVersion && currentBoardId == 0 && name == worldName && f.pos == 29
    {
      if savegame {
        var ignored := f.Seek(5, SeekSet);
        version := f.GetW();
        currentBoardId := f.GetC();
      } else {
        var ignored := f.Seek(29, SeekSet);
        name := worldName;
        version := fileVersion;
        currentBoardId := 0;
      }
    }

    /** The six status counter names: one fread of 6 x 15 bytes, then a
        NUL forced into the last byte of each. */
    method LoadStatusCounters(f: CFile) returns (ok: bool)
      requires f.Valid() && Valid()
      modifies statusCountersShown, f
      ensures f.Valid()
      ensures (ok, f.pos) == ReadAt(f.data, old(f.pos), NumStatusCounters * CounterNameSize)
      ensures ok ==>
        statusCountersShown[..] == StatusNames(f.data[old(f.pos)..old(f.pos) + NumStatusCounters * CounterNameSize])
      ensures ok ==> StatusNamesTerminated()
    {
      var bytes;
      ok, bytes := f.Read(NumStatusCounters * CounterNameSize);
      if !ok {
        return;
      }
      CopyInto(statusCountersShown, 0, bytes);
      assert statusCountersShown[..] == bytes;
      for i := 0 to NumStatusCounters
        modifies statusCountersShown
        invariant forall k :: 0 <= k < statusCountersShown.Length ==>
          statusCountersShown[k] == if NameEnd(k) && k < CounterNameSize * i then 0 else bytes[k]
      {
        statusCountersShown[CounterNameSize * i + CounterNameSize - 1] := 0;
        forall k | 0 <= k < statusCountersShown.Length
          ensures statusCountersShown[k] == if NameEnd(k) && k < CounterNameSize * (i + 1) then 0 else bytes[k]
        {
          NameEndBefore(k, i);
        }
      }
      assert statusCountersShown[..] == StatusNames(bytes);
      forall i | 0 <= i < NumStatusCounters
        ensures statusCountersShown[CounterNameSize * i + CounterNameSize - 1] == 0
      {
        assert (CounterNameSize * i + CounterNameSize - 1) % CounterNameSize == CounterNameSize - 1;
      }
    }

    /** Savegame: keys through the playing module's path. */
    method LoadSaveGlobals(f: CFile) returns (ok: bool)
      requires f.Valid()
      modifies this`realModPlaying, f
      ensures f.Valid()
      ensures var (globalsOk, p) := SaveGlobalsAt(f.data, old(f.pos));
        if globalsOk then ok == PathAt(f.data, p).0 && (realModPlaying, f.pos) == (PathAt(f.data, p).1, PathAt(f.data, p).2)
        else !ok && realModPlaying == old(realModPlaying)
    {
      var read, ignoredBytes := f.Read(NumKeys);
      if !read {
        return false;
      }
      f.Skip(5 + 16 + 16);
      read, ignoredBytes := f.Read(8);
      if !read {
        return false;
      }
      f.Skip(10);
      ok, realModPlaying := LoadPath(f);
    }

    /** legacy_load_counter: a reserved name sets its world scalar, any
        other readable record is added to the list. */
    method LoadCounter(f: CFile) returns (inserted: bool)
      requires f.Valid()
      modifies this`counters, this`mzxSpeed, this`lockSpeed, f
      ensures f.Valid()
      ensures var (r, p) := CounterAt(f.data, old(f.pos));
        f.pos == p && inserted == r.Insert? &&
        ApplyCounter(CounterList(old(counters), numCounters, old(mzxSpeed), old(lockSpeed)), r) ==
          CounterList(counters, if inserted then numCounters else numCounters - 1, mzxSpeed, lockSpeed)
    {
      var value := f.GetD();
      var nameLength := f.GetD();
      var ok, name := ReadFieldFrom(f, nameLength);
      if !ok {
        return false;
      }
      if NCaseEq(name, MzxSpeedName, nameLength) {
        mzxSpeed := value;
        return false;
      }
      if NCaseEq(name, LockSpeedName, nameLength) {
        lockSpeed := value;
        return false;
      }
      counters := counters + [Counter(name, value)];
      return true;
    }

    /** The counter count and records; the count is lowered for every
        record that is not inserted. */
    method LoadCounterList(f: CFile)
      requires f.Valid()
      modifies this`counters, this`numCounters, this`mzxSpeed, this`lockSpeed, f
      ensures f.Valid()
      ensures var (n, p) := GetDAt(f.data, old(f.pos));
        (CounterList(counters, numCounters, mzxSpeed, lockSpeed), f.pos) ==
          CountersAt(f.data, p, n, CounterList([], n, old(mzxSpeed), old(lockSpeed)))
      ensures numCounters == |counters| || (numCounters < 0 && counters == [])
      ensures forall c :: c in counters ==> !Reserved(c.name)
    {
      var n := f.GetD();
      ghost var start := f.pos;
      ghost var initial := CounterList([], n, mzxSpeed, lockSpeed);
      counters, numCounters := [], n;
      var i, left := 0, n;
      while i < n
        invariant f.Valid() && 0 <= i && (n >= 0 ==> i <= n) && left == n - i
        invariant CountersAt(f.data, start, n, initial) ==
          CountersAt(f.data, f.pos, left, CounterList(counters, numCounters, mzxSpeed, lockSpeed))
      {
        ghost var before := CounterList(counters, numCounters, mzxSpeed, lockSpeed);
        ghost var record := CounterAt(f.data, f.pos);
        CountersAtStep(f.data, f.pos, left, before, left - 1);
        var inserted := LoadCounter(f);
        if !inserted {
          numCounters := numCounters - 1;
        }
        assert f.pos == record.1;
        assert CounterList(counters, numCounters, mzxSpeed, lockSpeed) == ApplyCounter(before, record.0);
        i, left := i + 1, left - 1;
      }
      if n >= 0 {
        LoadedCounterCount(f.data, start, n, initial.mzxSpeed, initial.lockSpeed);
      }
      InsertedNamesNotReserved(f.data, start, n, initial);
    }

    /** The string count and records, one slot per record. */
    method LoadStringList(f: CFile)
      requires f.Valid()
      modifies this`strings, this`numStrings, f
      ensures f.Valid()
      ensures var (n, p) := GetDAt(f.data, old(f.pos));
        numStrings == n && (strings, f.pos) == StringsAt(f.data, p, n)
    {
      var n := f.GetD();
      ghost var start := f.pos;
      var loaded := [];
      var i := 0;
      assert loaded + StringsAt(f.data, f.pos, n).0 == StringsAt(f.data, f.pos, n).0;
      while i < n
        modifies f
        invariant f.Valid() && 0 <= i && (n >= 0 ==> i <= n)
        invariant StringsAt(f.data, start, n) ==
          (loaded + StringsAt(f.data, f.pos, n - i).0, StringsAt(f.data, f.pos, n - i).1)
      {
        ghost var before := f.pos;
        var slot := LoadString(f);
        StringsUnfold(f.data, before, n - i);
        AppendOne(loaded, slot, StringsAt(f.data, f.pos, n - i - 1).0);
        loaded := loaded + [slot];
        i := i + 1;
      }
      assert loaded + StringsAt(f.data, f.pos, n - i).0 == loaded;
      strings, numStrings := loaded, n;
    }

    /** Savegame: sprites through the fwrite file name and position. */
    method LoadIoNames(f: CFile) returns (ok: bool)
      requires f.Valid()
      modifies this`inputFileName, this`outputFileName, f
      ensures f.Valid()
      ensures var r := IoNamesAt(f.data, old(f.pos));
        ok == r.ok && inputFileName == r.input &&
        outputFileName == (if r.output.Some? then r.output.value else old(outputFileName)) &&
        (ok ==> f.pos == r.pos)
    {
      f.Skip(4612 + 12);
      ok, inputFileName := LoadPath(f);
      if !ok {
        return;
      }
      f.Skip(4);
      ok, outputFileName := LoadPath(f);
      if !ok {
        return;
      }
      f.Skip(4);
    }

    /** Savegame: screen mode, commands and the vlayer. */
    method LoadVlayer(f: CFile) returns (ok: bool)
      requires f.Valid()
      modifies this`vlayerSize, this`vlayerChars, this`vlayerColors, f
      ensures f.Valid()
      ensures var v := VlayerAt(f.data, old(f.pos));
        ok == v.ok && (vlayerSize, vlayerChars, vlayerColors) == (v.size, v.chars, v.colors) &&
        (ok ==> f.pos == v.pos)
    {
      var screenMode := f.GetW();
      if screenMode > 1 {
        f.Skip(768);
      }
      f.Skip(4);
      var size := f.GetD();
      f.Skip(4);
      vlayerSize, vlayerChars, vlayerColors := size, [], [];
      if size != 0 {
        ok, vlayerChars := f.Read(size);
        if !ok {
          return;
        }
        ok, vlayerColors := f.Read(size);
        return;
      }
      ok := true;
    }

    /** One custom sound effect into its slot of `custom_sfx`. */
    method LoadSfxEntry(f: CFile, off: int) returns (status: SfxStatus)
      requires f.Valid() && Valid()
      requires 0 <= off && off + LegacyValidate.LegacySfxSize <= customSfx.Length
      modifies customSfx, f
      ensures f.Valid()
      ensures (status, customSfx[..], f.pos) == SfxEntryAt(f.data, old(f.pos), off, old(customSfx[..]))
    {
      var size := f.GetC();
      var ok, bytes := ReadFieldFrom(f, size);
      if off + |bytes| > customSfx.Length {
        return SfxOverrun;
      }
      CopyInto(customSfx, off, bytes);
      if !ok {
        return SfxReadFailed;
      }
      customSfx[off + LegacyValidate.LegacySfxSize - 1] := 0;
      return SfxLoaded;
    }

    /** The 50 custom sound effects. */
    method LoadSfx(f: CFile) returns (status: SfxStatus)
      requires f.Valid() && Valid()
      modifies customSfx, f
      ensures f.Valid()
      ensures (status, customSfx[..], f.pos) == SfxTableAt(f.data, old(f.pos), 0, old(customSfx[..]))
      ensures status == SfxLoaded ==> EffectsTerminated()
    {
      ghost var start, initial := f.pos, customSfx[..];
      var i := 0;
      while i < LegacyValidate.NumSfx
        invariant f.Valid() && 0 <= i <= LegacyValidate.NumSfx
        invariant SfxTableAt(f.data, start, 0, initial) == SfxTableAt(f.data, f.pos, i, customSfx[..])
      {
        ghost var pos, mem := f.pos, customSfx[..];
        var i1 := i + 1;
        status := LoadSfxEntry(f, LegacyValidate.LegacySfxSize * i);
        SfxTableUnfold(f.data, pos, i, mem, i1);
        if status != SfxLoaded {
          return;
        }
        i := i1;
      }
      status := SfxLoaded;
      SfxTerminated(f.data, start, 0, initial);
    }

    /** Each board from the codec, with slot 0 of its robot list rebound
        to the global robot; the codec moves the stream as it reads. */
    method LoadBoards(f: CFile, table: seq<TableEntry>, savegame: bool, fileVersion: int, codecs: Codecs)
      requires f.Valid()
      modifies this`boards, f
      ensures f.Valid()
      ensures |boards| == |table|
      ensures forall k :: 0 <= k < |table| ==>
        boards[k] == Rebind(codecs.board(f.data, table[k].offset, table[k].size, savegame, fileVersion).0)
      ensures RobotsLinked(boards)
      ensures f.pos == BoardsEnd(f.data, old(f.pos), table, savegame, fileVersion, codecs)
      ensures boards == LoadedBoards(f.data, table, savegame, fileVersion, codecs)
    {
      ghost var start := f.pos;
      boards := [];
      for i := 0 to |table|
        invariant f.Valid() && |boards| == i
        invariant forall k :: 0 <= k < i ==>
          boards[k] == Rebind(codecs.board(f.data, table[k].offset, table[k].size, savegame, fileVersion).0)
        invariant BoardsEnd(f.data, start, table, savegame, fileVersion, codecs) ==
          BoardsEnd(f.data, f.pos, table[i..], savegame, fileVersion, codecs)
      {
        var (board, next) := codecs.board(f.data, table[i].offset, table[i].size, savegame, fileVersion);
        boards := boards + [Rebind(board)];
        assert table[i..][1..] == table[i + 1..];
        var ignored := f.Seek(next, SeekSet);
      }
      assert boards == LoadedBoards(f.data, table, savegame, fileVersion, codecs);
    }

    /** Back at the name table: one 25-byte name per board. */
    method LoadBoardNames(f: CFile)
      requires f.Valid()
      modifies this`boards, f
      ensures f.Valid()
      ensures (boards, f.pos) == BoardNamesAt(old(boards), f.data, old(f.pos))
    {
      ghost var start := f.pos;
      var loaded := boards;
      var named := [];
      assert loaded[0..] == loaded;
      assert named + BoardNamesAt(loaded, f.data, f.pos).0 == BoardNamesAt(loaded, f.data, f.pos).0;
      for i := 0 to |loaded|
        modifies f
        invariant f.Valid()
        invariant BoardNamesAt(loaded, f.data, start) ==
          (named + BoardNamesAt(loaded[i..], f.data, f.pos).0, BoardNamesAt(loaded[i..], f.data, f.pos).1)
      {
        ghost var before := f.pos;
        var slot := loaded[i];
        var name := ReadBoardName(f, if slot.Some? then slot.value.name else ScratchName());
        if slot.Some? {
          slot := Some(slot.value.(name := name));
        }
        BoardNamesCons(loaded[i..], f.data, before);
        assert loaded[i..][1..] == loaded[i + 1..];
        AppendOne(named, slot, BoardNamesAt(loaded[i + 1..], f.data, f.pos).0);
        named := named + [slot];
      }
      assert named + BoardNamesAt(loaded[|loaded|..], f.data, f.pos).0 == named;
      boards := named;
    }

    /** The sound effects that come when the first board count is zero,
        then the real board count. */
    method LoadSfxSection(f: CFile) returns (ok: bool, n: int)
      requires f.Valid() && Valid()
      modifies this`customSfxOn, customSfx, f
      ensures f.Valid()
      ensures var r := SfxSectionAt(f.data, old(f.pos), old(customSfx[..]));
        ok == r.ok && customSfxOn == r.customOn && customSfx[..] == r.sfx && (ok ==> (n, f.pos) == (r.numBoards, r.pos))
      ensures var (first, p) := GetCAt(f.data, old(f.pos));
        customSfxOn == (first == 0) &&
        (first != 0 ==> ok && n == first && f.pos == p && customSfx[..] == old(customSfx[..]))
      ensures ok && customSfxOn ==> EffectsTerminated()
    {
      n := f.GetC();
      if n != 0 {
        customSfxOn := false;
        return true, n;
      }
      customSfxOn := true;
      var sfxSize := f.GetW();
      var status := LoadSfx(f);
      if status != SfxLoaded {
        return false, n;
      }
      n := f.GetC();
      ok := true;
    }

    /** Past the `n` names: the size/offset table, then each board it
        points at. */
    method LoadTableAndBoards(f: CFile, n: int, savegame: bool, fileVersion: int, codecs: Codecs)
      returns (ghost table: seq<TableEntry>, ghost afterTable: int)
      requires f.Valid()
      modifies this`boards, f
      ensures f.Valid()
      ensures (table, afterTable) ==
        BoardTableAt(f.data, SeekedTo(|f.data|, old(f.pos), n * LegacyValidate.LegacyBoardNameSize, SeekCur), n)
      ensures boards == LoadedBoards(f.data, table, savegame, fileVersion, codecs)
      ensures f.pos == BoardsEnd(f.data, afterTable, table, savegame, fileVersion, codecs)
    {
      var ignored := f.Seek(n * LegacyValidate.LegacyBoardNameSize, SeekCur);
      var read := ReadBoardTable(f, n);
      table, afterTable := read, f.pos;
      LoadBoards(f, read, savegame, fileVersion, codecs);
    }

    /** After the boards: the global robot, then the names, back at the
        name table at `namesPos`. */
    method LoadGlobalRobotAndNames(f: CFile, namesPos: int, globalRobotPos: int, savegame: bool, fileVersion: int,
                                   codecs: Codecs)
      requires f.Valid() && namesPos >= 0
      modifies this`boards, this`globalRobot, f
      ensures f.Valid()
      ensures globalRobot ==
        codecs.robot(f.data, SeekedTo(|f.data|, old(f.pos), globalRobotPos, SeekSet), savegame, fileVersion).(used := true)
      ensures boards == BoardNamesAt(old(boards), f.data, namesPos).0
    {
      var ignored := f.Seek(globalRobotPos, SeekSet);
      globalRobot := codecs.robot(f.data, f.pos, savegame, fileVersion);
      globalRobot := globalRobot.(used := true);
      ignored := f.Seek(namesPos, SeekSet);
      LoadBoardNames(f);
    }

    /** From the real board count on: the name table is skipped, the
        size/offset table read, the boards and the global robot loaded,
        and the names read last, back at the skipped table. */
    method LoadBoardList(f: CFile, n: int, globalRobotPos: int, savegame: bool, fileVersion: int, codecs: Codecs)
      requires f.Valid()
      modifies this`numBoards, this`boards, this`globalRobot, f
      ensures f.Valid()
      ensures numBoards == n && globalRobot.used && BoardsLinked()
      ensures |boards| == if n <= 0 then 0 else n
      ensures var l := BoardListAt(f.data, old(f.pos), n, globalRobotPos, savegame, fileVersion, codecs);
        boards == l.boards && globalRobot == l.globalRobot
    {
      numBoards := n;
      var namesPos := f.pos;
      ghost var l := BoardListAt(f.data, namesPos, n, globalRobotPos, savegame, fileVersion, codecs);
      ghost var table, afterTable := LoadTableAndBoards(f, n, savegame, fileVersion, codecs);
      LoadGlobalRobotAndNames(f, namesPos, globalRobotPos, savegame, fileVersion, codecs);
      assert globalRobot == l.globalRobot;
      assert boards == l.boards;
      BoardListInvariants(f.data, namesPos, n, globalRobotPos, savegame, fileVersion, codecs);
    }

    /** From the global robot position to the end of the world file. */
    method LoadBoardSection(f: CFile, savegame: bool, fileVersion: int, codecs: Codecs) returns (ok: bool)
      requires f.Valid() && Valid()
      modifies this`customSfxOn, customSfx, this`numBoards, this`boards, this`globalRobot, f
      ensures f.Valid()
      ensures ok ==> SectionLoaded()
      ensures var bs := BoardSectionAt(f.data, old(f.pos), old(customSfx[..]), savegame, fileVersion, codecs);
        ok == bs.sfx.ok && HoldsBoardSection(bs)
    {
      var globalRobotPos := f.GetD();
      var n;
      ok, n := LoadSfxSection(f);
      if !ok {
        return;
      }
      LoadBoardList(f, n, globalRobotPos, savegame, fileVersion, codecs);
    }

    /** Savegame: the counter and string lists, the file names and the
        vlayer. */
    method LoadSaveState(f: CFile) returns (ok: bool)
      requires f.Valid()
      modifies this`counters, this`numCounters, this`mzxSpeed, this`lockSpeed, this`strings, this`numStrings
      modifies this`inputFileName, this`outputFileName, this`vlayerSize, this`vlayerChars, this`vlayerColors, f
      ensures f.Valid()
      ensures numCounters == |counters| || (numCounters < 0 && counters == [])
      ensures forall c :: c in counters ==> !Reserved(c.name)
      ensures ok ==> |inputFileName| < MaxPath && |outputFileName| < MaxPath
      ensures var st := SavedStateAt(f.data, old(f.pos), old(mzxSpeed), old(lockSpeed));
        ok == st.rest.ok && HoldsSavedState(st, old(outputFileName)) && (ok ==> f.pos == st.rest.pos)
    {
      LoadCounterList(f);
      ok := LoadStringsAndFiles(f);
    }

    /** The part of the saved state after the counters: the strings, the
        input and output file names and the vlayer. */
    method LoadStringsAndFiles(f: CFile) returns (ok: bool)
      requires f.Valid()
      modifies this`strings, this`numStrings, this`inputFileName, this`outputFileName
      modifies this`vlayerSize, this`vlayerChars, this`vlayerColors, f
      ensures f.Valid()
      ensures ok ==> |inputFileName| < MaxPath && |outputFileName| < MaxPath
      ensures var r := StringsAndFilesAt(f.data, old(f.pos));
        ok == r.ok && HoldsStringsAndFiles(r, old(outputFileName)) && (ok ==> f.pos == r.pos)
    {
      LoadStringList(f);
      ok := LoadIoNames(f);
      if !ok {
        return;
      }
      ok := LoadVlayer(f);
    }

    /** Everything between the header and the global robot position: the
        id block, the status counter names and, in a savegame, the saved
        globals and the counter, string, file-name and vlayer state. */
    method LoadWorldInfo(f: CFile, savegame: bool) returns (ok: bool)
      requires f.Valid() && Valid()
      modifies this`realModPlaying, this`counters, this`numCounters, this`mzxSpeed, this`lockSpeed
      modifies this`strings, this`numStrings, this`inputFileName, this`outputFileName
      modifies this`vlayerSize, this`vlayerChars, this`vlayerColors, statusCountersShown, f
      ensures f.Valid()
      ensures ok ==> InfoLoaded(savegame)
      ensures var w := WorldInfoAt(f.data, old(f.pos), savegame, old(mzxSpeed), old(lockSpeed));
        ok == w.ok && (ok ==> HoldsWorldInfo(w, old(outputFileName)) && f.pos == w.pos)
    {
      ok := LoadIdBlock(f);
      if !ok {
        return;
      }
      ok := LoadStatusCounters(f);
      if !ok {
        return;
      }
      if savegame {
        ok := LoadSavegameInfo(f);
      } else {
        f.Skip(24 + 48);         // world scalars and the 16-color palette
      }
    }

    /** The savegame part of the world info: the saved globals, the
        skipped scalars and palettes, then the saved state. */
    method LoadSavegameInfo(f: CFile) returns (ok: bool)
      requires f.Valid()
      modifies this`realModPlaying, this`counters, this`numCounters, this`mzxSpeed, this`lockSpeed
      modifies this`strings, this`numStrings, this`inputFileName, this`outputFileName
      modifies this`vlayerSize, this`vlayerChars, this`vlayerColors, f
      ensures f.Valid()
      ensures ok ==> SavegameLoaded()
      ensures var g := SavegameInfoAt(f.data, old(f.pos), old(mzxSpeed), old(lockSpeed));
        ok == g.ok && (ok ==> HoldsSavegameInfo(g, old(outputFileName)) && f.pos == g.pos)
    {
      ok := LoadSaveGlobals(f);
      if !ok {
        return;
      }
      f.Skip(24 + 48);           // world scalars and the 16-color palette
      f.Skip(16 + 1 + 4 + 3);    // intensities, fade, restart position, under-player
      ok := LoadSaveState(f);
    }

    /** The board section, which leaves in place whether the world holds
        the world info `w` and whether the world info's invariants hold. */
    method LoadBoardSectionAfterInfo(f: CFile, savegame: bool, fileVersion: int, codecs: Codecs,
                                     ghost w: WorldInfo, ghost priorOutput: seq<int>)
      returns (ok: bool)
      requires f.Valid() && Valid()
      modifies this`customSfxOn, customSfx, this`numBoards, this`boards, this`globalRobot, f
      ensures f.Valid()
      ensures HoldsWorldInfo(w, priorOutput) == old(HoldsWorldInfo(w, priorOutput))
      ensures InfoLoaded(savegame) == old(InfoLoaded(savegame))
      ensures ok ==> SectionLoaded()
      ensures var bs := BoardSectionAt(f.data, old(f.pos), old(customSfx[..]), savegame, fileVersion, codecs);
        ok == bs.sfx.ok && HoldsBoardSection(bs)
    {
      ok := LoadBoardSection(f, savegame, fileVersion, codecs);
    }

    /** Everything after the opening seek: the world info, then, when it
        was read, the board section. */
    method LoadSections(f: CFile, savegame: bool, fileVersion: int, codecs: Codecs) returns (ok: bool)
      requires f.Valid() && Valid()
      modifies this`realModPlaying, this`counters, this`numCounters, this`mzxSpeed, this`lockSpeed
      modifies this`strings, this`numStrings, this`inputFileName, this`outputFileName
      modifies this`vlayerSize, this`vlayerChars, this`vlayerColors, statusCountersShown
      modifies this`customSfxOn, customSfx, this`numBoards, this`boards, this`globalRobot, f
      ensures f.Valid()
      ensures ok ==> LoadedInvariants(savegame)
      ensures var w := WorldInfoAt(f.data, old(f.pos), savegame, old(mzxSpeed), old(lockSpeed));
        var bs := BoardSectionAt(f.data, w.pos, old(customSfx[..]), savegame, fileVersion, codecs);
        ok == (w.ok && bs.sfx.ok) && (ok ==> HoldsWorldInfo(w, old(outputFileName)) && HoldsBoardSection(bs))
    {
      ok := LoadWorldInfo(f, savegame);
      if !ok {
        return;
      }
      ok := LoadBoardSectionAfterInfo(f, savegame, fileVersion, codecs,
                                      WorldInfoAt(f.data, old(f.pos), savegame, old(mzxSpeed), old(lockSpeed)),
                                      old(outputFileName));
    }

    /** legacy_load_world on a file that has already been validated. */
    method LoadWorld(f: CFile, savegame: bool, fileVersion: int, worldName: seq<int>, codecs: Codecs)
      returns (ok: bool)
      requires f.Valid() && Valid()
      modifies this, statusCountersShown, customSfx, f
      ensures f.Valid() && Valid()
      ensures savegame ==>
        var (v, p) := GetWAt(f.data, 5);
        version == v && currentBoardId == GetCAt(f.data, p).0 && name == old(name)
      ensures !savegame ==> version == fileVersion && currentBoardId == 0 && name == worldName
      ensures ok ==> LoadedInvariants(savegame)
      ensures var w := WorldInfoAt(f.data, HeaderEnd(f.data, savegame), savegame, old(mzxSpeed), old(lockSpeed));
        var bs := BoardSectionAt(f.data, w.pos, old(customSfx[..]), savegame, fileVersion, codecs);
        ok == (w.ok && bs.sfx.ok) && (ok ==> HoldsWorldInfo(w, old(outputFileName)) && HoldsBoardSection(bs))
    {
      LoadHeader(f, savegame, fileVersion, worldName);
      ok := LoadSections(f, savegame, fileVersion, codecs);
    }
  }

  /** Charset, id chars, missile color, bullet colors, damage table. */
  method LoadIdBlock(f: CFile) returns (ok: bool)
    requires f.Valid()
    modifies f
    ensures f.Valid()
    ensures (ok, f.pos) == IdBlockAt(f.data, old(f.pos))
  {
    var ignoredBytes;
    ok, ignoredBytes := f.Read(CharsetBytes);
    if !ok {
      return;
    }
    ok, ignoredBytes := f.Read(LegacyIdCharsSize);
    if !ok {
      return;
    }
    var missileColor := f.GetC();
    ok, ignoredBytes := f.Read(LegacyIdBulletColorSize);
    if !ok {
      return;
    }
    ok, ignoredBytes := f.Read(LegacyIdDmgSize);
  }
}
