/*
 * The TZif zone-file decoder of `tz_readheader` and `tz_read`
 * (src/tz.c:145-275, tz.c:97-236; the two revisions decode alike).
 *
 * A zone file is the byte sequence the loader reads; its length is the
 * size `stat` reports. Each `fread` and `fseek` is a bounds-checked step
 * on that sequence and each `luaL_error` an `Err` result.
 */
module TZif {
  import opened Base

  type Byte = b: int | 0 <= b < 256

  /** The fixed size of a header, and of a packed local time type record. */
  const HEADER_SIZE: int := 44
  const TYPE_SIZE: int := 6

  /** "TZif" in ASCII. */
  const MAGIC: seq<Byte> := [84, 90, 105, 102]

  /** The accepted version bytes: NUL, '2' and '3'. */
  const VERSION_1: Byte := 0
  const VERSION_2: Byte := 50
  const VERSION_3: Byte := 51

  const TWO_31: int := 0x8000_0000
  const TWO_32: int := 0x1_0000_0000
  const TWO_63: int := 0x8000_0000_0000_0000
  const TWO_64: int := 0x1_0000_0000_0000_0000

  predicate IsInt32(x: int) { -TWO_31 <= x < TWO_31 }
  predicate IsInt64(x: int) { -TWO_63 <= x < TWO_63 }

  /** The header after the counts have been converted to host order. */
  datatype Header = Header(
    version: Byte,
    isgmtcnt: int, isstdcnt: int, leapcnt: int,
    timecnt: int, typecnt: int, charcnt: int)

  /** A local time type: UTC offset, daylight saving flag (0 or 1 once
      loaded) and index of its abbreviation in the character pool. */
  datatype TType = TType(gmtoff: int, isdst: int, abbrind: int)

  /** A loaded zone: the header that describes the data block read, the
      transition instants and the index of each one's type, the types, the
      abbreviation pool and the index of the default type, if any. */
  datatype Zone = Zone(
    header: Header,
    timevalues: seq<int>,
    timetypes: seq<Byte>,
    types: seq<TType>,
    chars: seq<Byte>,
    dfltype: Option<nat>)

  /** The loader's error messages, in the order the code can raise them. */
  datatype Error =
    | CannotReadHeader   // "cannot read TZ file header"
    | MagicMismatch      // "TZ file magic mismatch"
    | VersionUnsupported // "TZ file version unsupported"
    | Malformed          // "malformed TZ file"
    | CannotSeek         // "cannot read TZ file"
    | CannotReadData     // "cannot read TZ data"

  /*
   * Big-endian integers.
   */

  /** The unsigned 32-bit big-endian integer at `i`. */
  function U32(s: seq<Byte>, i: int): (v: int)
    requires 0 <= i && i + 4 <= |s|
    ensures 0 <= v < TWO_32
  {
    var b0, b1, b2, b3 := s[i] as int, s[i + 1] as int, s[i + 2] as int, s[i + 3] as int;
    ((b0 * 256 + b1) * 256 + b2) * 256 + b3
  }

  /** The signed (two's complement) 32-bit big-endian integer at `i`. */
  function Be32(s: seq<Byte>, i: int): (v: int)
    requires 0 <= i && i + 4 <= |s|
    ensures IsInt32(v)
    ensures v % TWO_32 == U32(s, i)
  {
    var u := U32(s, i);
    if u >= TWO_31 then u - TWO_32 else u
  }

  /** The signed 64-bit big-endian integer at `i`. */
  function Be64(s: seq<Byte>, i: int): (v: int)
    requires 0 <= i && i + 8 <= |s|
    ensures IsInt64(v)
    ensures v % TWO_64 == U32(s, i) * TWO_32 + U32(s, i + 4)
  {
    var u := U32(s, i) * TWO_32 + U32(s, i + 4);
    if u >= TWO_63 then u - TWO_64 else u
  }

  /** The four big-endian bytes of a 32-bit two's complement integer. */
  function EncodeU32(u: int): (s: seq<Byte>)
    requires 0 <= u < TWO_32
    ensures |s| == 4
  {
    [u / 0x100_0000, (u / 0x1_0000) % 256, (u / 256) % 256, u % 256]
  }

  function EncodeBe32(x: int): (s: seq<Byte>)
    requires IsInt32(x)
    ensures |s| == 4
  {
    EncodeU32(if x < 0 then x + TWO_32 else x)
  }

  function EncodeBe64(x: int): (s: seq<Byte>)
    requires IsInt64(x)
    ensures |s| == 8
  {
    var u := if x < 0 then x + TWO_64 else x;
    EncodeU32(u / TWO_32) + EncodeU32(u % TWO_32)
  }

  lemma U32RoundTrip(u: int)
    requires 0 <= u < TWO_32
    ensures U32(EncodeU32(u), 0) == u
  {
    var s := EncodeU32(u);
    assert (s[0] as int) * 256 + s[1] == u / 0x1_0000;
    assert ((s[0] as int) * 256 + s[1]) * 256 + s[2] == u / 256;
  }

  /** Decoding a signed 32-bit integer inverts encoding it. */
  lemma Be32RoundTrip(x: int)
    requires IsInt32(x)
    ensures Be32(EncodeBe32(x), 0) == x
  {
    U32RoundTrip(if x < 0 then x + TWO_32 else x);
  }

  /** Decoding a signed 64-bit integer inverts encoding it. */
  lemma Be64RoundTrip(x: int)
    requires IsInt64(x)
    ensures Be64(EncodeBe64(x), 0) == x
  {
    var u := if x < 0 then x + TWO_64 else x;
    var s := EncodeBe64(x);
    U32RoundTrip(u / TWO_32);
    U32RoundTrip(u % TWO_32);
    assert s[0..4] == EncodeU32(u / TWO_32) && s[4..8] == EncodeU32(u % TWO_32);
    U32Slice(s, 0);
    U32Slice(s, 4);
  }

  /** A 32-bit field reads the same from any sequence that holds its bytes. */
  lemma U32Slice(s: seq<Byte>, i: int)
    requires 0 <= i && i + 4 <= |s|
    ensures U32(s, i) == U32(s[i..i + 4], 0)
  {
  }

  /*
   * The header (`tz_readheader`).
   */

  /** The 44-byte header at `pos` is there and carries the magic. */
  predicate HasMagic(file: seq<Byte>, pos: int)
    requires 0 <= pos && pos + HEADER_SIZE <= |file|
  {
    file[pos..pos + 4] == MAGIC
  }

  /** The counts the header promises fit the file: `timecnt` bytes,
      `typecnt` packed records and `charcnt` bytes at most, and no count
      negative (the code casts each to an unsigned size first). */
  predicate CountsFit(h: Header, size: int)
  {
    0 <= h.timecnt <= size
    && 0 <= h.typecnt <= size / TYPE_SIZE
    && 0 <= h.charcnt <= size
  }

  /** Reads and checks the header at `pos`: the counts are stored in the
      order isgmtcnt, isstdcnt, leapcnt, timecnt, typecnt, charcnt, after the
      magic, the version byte and 15 reserved bytes. */
  function ParseHeader(file: seq<Byte>, pos: int): (r: Result<Header, Error>)
    requires 0 <= pos
    ensures r.Ok? <==> pos + HEADER_SIZE <= |file| && HasMagic(file, pos)
                       && file[pos + 4] in {VERSION_1, VERSION_2, VERSION_3}
                       && CountsFit(HeaderAt(file, pos), |file|)
    ensures r.Ok? ==> r.value == HeaderAt(file, pos)
  {
    if pos + HEADER_SIZE > |file| then Err(CannotReadHeader)
    else if file[pos..pos + 4] != MAGIC then Err(MagicMismatch)
    else if file[pos + 4] !in {VERSION_1, VERSION_2, VERSION_3} then Err(VersionUnsupported)
    else
      var h := HeaderAt(file, pos);
      if !CountsFit(h, |file|) then Err(Malformed) else Ok(h)
  }

  /** The header fields at `pos`, before any check. */
  function HeaderAt(file: seq<Byte>, pos: int): (h: Header)
    requires 0 <= pos && pos + HEADER_SIZE <= |file|
    ensures IsInt32(h.timecnt) && IsInt32(h.typecnt) && IsInt32(h.charcnt)
    ensures IsInt32(h.leapcnt) && IsInt32(h.isstdcnt) && IsInt32(h.isgmtcnt)
  {
    Header(file[pos + 4],
      Be32(file, pos + 20), Be32(file, pos + 24), Be32(file, pos + 28),
      Be32(file, pos + 32), Be32(file, pos + 36), Be32(file, pos + 40))
  }

  /** Each check of the header fails with its own message, in order. */
  lemma HeaderRejection(file: seq<Byte>, pos: int)
    requires 0 <= pos
    ensures pos + HEADER_SIZE > |file| ==> ParseHeader(file, pos) == Err(CannotReadHeader)
    ensures pos + HEADER_SIZE <= |file| && !HasMagic(file, pos) ==> ParseHeader(file, pos) == Err(MagicMismatch)
    ensures (pos + HEADER_SIZE <= |file| && HasMagic(file, pos) && file[pos + 4] !in {VERSION_1, VERSION_2, VERSION_3})
            ==> ParseHeader(file, pos) == Err(VersionUnsupported)
    ensures (pos + HEADER_SIZE <= |file| && HasMagic(file, pos) && file[pos + 4] in {VERSION_1, VERSION_2, VERSION_3}
             && !CountsFit(HeaderAt(file, pos), |file|))
            ==> ParseHeader(file, pos) == Err(Malformed)
  {
  }

  /*
   * The data block (`tz_read`).
   */

  /** The byte count of the version 1 data block that a version 2+ file
      skips: `timecnt` 4-byte instants and 1-byte indices, `typecnt`
      6-byte records, `charcnt` bytes, `leapcnt` 8-byte pairs and the
      isstd and isgmt flags. The last three counts are never checked, so
      the sum can be negative. */
  function SkipLength(h: Header): (n: int)
  {
    h.timecnt * 5 + h.typecnt * TYPE_SIZE + h.charcnt
      + h.leapcnt * 8 + h.isstdcnt + h.isgmtcnt
  }

  /** The size of one transition instant: 8 bytes when the 64-bit block is
      read, else 4. */
  function TimeSize(read64: bool): int
  {
    if read64 then 8 else 4
  }

  /** The bytes the data block needs after its header. */
  function DataLength(h: Header, read64: bool): (n: int)
    requires h.timecnt >= 0 && h.typecnt >= 0 && h.charcnt >= 0
    ensures n >= h.timecnt + h.timecnt * TimeSize(read64) + h.typecnt * TYPE_SIZE + h.charcnt
  {
    h.timecnt * TimeSize(read64) + h.timecnt + h.typecnt * TYPE_SIZE + h.charcnt
  }

  /** The instant at `i` of the block at `pos`. */
  function TimeValueAt(file: seq<Byte>, pos: int, i: int, read64: bool): (v: int)
    requires 0 <= pos && 0 <= i && pos + (i + 1) * TimeSize(read64) <= |file|
    ensures IsInt64(v)
  {
    if read64 then Be64(file, pos + 8 * i) else Be32(file, pos + 4 * i)
  }

  /** The 32-bit instant at `i` as src/tz.c:250 converts it: `be32toh`
      yields an unsigned 32-bit value, which widens to the 64-bit instant
      without its sign. */
  function TimeValue32AsWritten(file: seq<Byte>, pos: int, i: int): (v: int)
    requires 0 <= pos && 0 <= i && pos + (i + 1) * 4 <= |file|
    ensures 0 <= v < TWO_32
    ensures v % TWO_32 == TimeValueAt(file, pos, i, false) % TWO_32
  {
    U32(file, pos + 4 * i)
  }

  /** A negative 32-bit instant, one before 1970, comes out of the
      conversion as written 2^32 seconds later, past 2038; the signed
      reading the model uses gives it back. */
  lemma ZeroExtension(x: int)
    requires -TWO_31 <= x < 0
    ensures TimeValue32AsWritten(EncodeBe32(x), 0, 0) == x + TWO_32
    ensures TimeValueAt(EncodeBe32(x), 0, 0, false) == x
  {
    U32RoundTrip(x + TWO_32);
    Be32RoundTrip(x);
  }

  /** The local time type of the packed record at `i` of the block at `pos`:
      big-endian offset, daylight saving byte made 0 or 1, abbreviation
      index. */
  function TypeAt(file: seq<Byte>, pos: int, i: int): (tt: TType)
    requires 0 <= pos && 0 <= i && pos + (i + 1) * TYPE_SIZE <= |file|
    ensures IsInt32(tt.gmtoff) && tt.isdst in {0, 1} && 0 <= tt.abbrind < 256
  {
    var p := pos + TYPE_SIZE * i;
    TType(Be32(file, p), if file[p + 4] != 0 then 1 else 0, file[p + 5])
  }

  /** The lowest index from `i` on of a standard-time type. */
  function FirstStandardFrom(types: seq<TType>, i: nat): (r: Option<nat>)
    decreases |types| - i
  {
    if i >= |types| then None
    else if types[i].isdst == 0 then Some(i)
    else FirstStandardFrom(types, i + 1)
  }

  /** The default type: the first standard-time type if there is one, else
      the first type, else none. */
  function DefaultType(types: seq<TType>): (r: Option<nat>)
    ensures r.None? <==> |types| == 0
    ensures r.Some? ==> r.value < |types|
    ensures r.Some? && types[r.value].isdst == 0 ==> forall k :: 0 <= k < r.value ==> types[k].isdst != 0
    ensures (r.Some? && types[r.value].isdst != 0)
              ==> r.value == 0 && forall k :: 0 <= k < |types| ==> types[k].isdst != 0
  {
    FirstStandardFromSpec(types, 0);
    match FirstStandardFrom(types, 0)
    case Some(j) => Some(j)
    case None => if |types| > 0 then Some(0) else None
  }

  /** The lowest standard-time index at or after `i`, if any. */
  lemma {:induction false} FirstStandardFromSpec(types: seq<TType>, i: nat)
    ensures var r := FirstStandardFrom(types, i);
      && (r.Some? ==> i <= r.value < |types| && types[r.value].isdst == 0
                      && forall k :: i <= k < r.value ==> types[k].isdst != 0)
      && (r.None? ==> forall k :: i <= k < |types| ==> types[k].isdst != 0)
    decreases |types| - i
  {
    if i < |types| && types[i].isdst != 0 {
      FirstStandardFromSpec(types, i + 1);
    }
  }

  /** Every transition names one of the `typecnt` types. */
  predicate IndicesInRange(timetypes: seq<Byte>, typecnt: int)
  {
    forall i :: 0 <= i < |timetypes| ==> timetypes[i] < typecnt
  }

  /** The decoded data block at `pos`, described by `h`: short reads fail
      first, then a transition naming a type past `typecnt`. */
  function DecodeData(file: seq<Byte>, h: Header, pos: int, read64: bool): (r: Result<Zone, Error>)
    requires 0 <= pos && CountsFit(h, |file|)
  {
    var n := h.timecnt;
    if pos + DataLength(h, read64) > |file| then Err(CannotReadData)
    else
      var idx := pos + n * TimeSize(read64);
      var timetypes := file[idx..idx + n];
      if !IndicesInRange(timetypes, h.typecnt) then Err(Malformed)
      else
        var tpos := idx + n;
        var cpos := tpos + h.typecnt * TYPE_SIZE;
        var types := Types(file, tpos, h.typecnt);
        Ok(Zone(h, TimeValues(file, pos, n, read64), timetypes, types,
                file[cpos..cpos + h.charcnt], DefaultType(types)))
  }

  /** A decoded file: after the first header, a version 2+ file skips the
      32-bit block and reads the second header and the 64-bit block; a
      version 1 file reads the 32-bit block. The choice rests on the first
      header's version alone. */
  function Decode(file: seq<Byte>): (r: Result<Zone, Error>)
  {
    match ParseHeader(file, 0)
    case Err(e) => Err(e)
    case Ok(first) =>
      if first.version >= VERSION_2 then
        var pos := HEADER_SIZE + SkipLength(first);
        if pos < 0 then Err(CannotSeek)
        else
          match ParseHeader(file, pos)
          case Err(e) => Err(e)
          case Ok(second) => DecodeData(file, second, pos + HEADER_SIZE, true)
      else
        DecodeData(file, first, HEADER_SIZE, false)
  }

  /** A version 2+ file is read from its second header, which lies past
      the first header and the 32-bit block that header describes, and its
      instants are 64-bit. */
  lemma SecondHeaderRead(file: seq<Byte>)
    requires Decode(file).Ok? && HEADER_SIZE <= |file| && file[4] >= VERSION_2
    ensures var pos := HEADER_SIZE + SkipLength(HeaderAt(file, 0));
            var z := Decode(file).value;
            0 <= pos && pos + HEADER_SIZE <= |file|
            && z.header == HeaderAt(file, pos)
            && pos + HEADER_SIZE + DataLength(z.header, true) <= |file|
            && z.timevalues == TimeValues(file, pos + HEADER_SIZE, z.header.timecnt, true)
  {
    var pos := HEADER_SIZE + SkipLength(HeaderAt(file, 0));
    var second := ParseHeader(file, pos).value;
    DecodeDataWellFormed(file, second, pos + HEADER_SIZE, true);
  }

  /** A version 1 file is read from its first header, with 32-bit
      instants. */
  lemma FirstHeaderRead(file: seq<Byte>)
    requires Decode(file).Ok? && HEADER_SIZE <= |file| && file[4] == VERSION_1
    ensures var z := Decode(file).value;
            z.header == HeaderAt(file, 0)
            && HEADER_SIZE + DataLength(z.header, false) <= |file|
            && z.timevalues == TimeValues(file, HEADER_SIZE, z.header.timecnt, false)
  {
    DecodeDataWellFormed(file, HeaderAt(file, 0), HEADER_SIZE, false);
  }

  /** What a loaded zone satisfies: arrays of the lengths the header gives,
      every transition naming an existing type, every flag 0 or 1, offsets
      and instants within their C widths, and the default type chosen by
      `DefaultType`. */
  predicate WellFormed(z: Zone)
  {
    && |z.timevalues| == z.header.timecnt && |z.timetypes| == z.header.timecnt
    && |z.types| == z.header.typecnt && |z.chars| == z.header.charcnt
    && (forall i :: 0 <= i < |z.timetypes| ==> 0 <= z.timetypes[i] < |z.types|)
    && (forall i :: 0 <= i < |z.timevalues| ==> IsInt64(z.timevalues[i]))
    && (forall j :: 0 <= j < |z.types| ==>
          IsInt32(z.types[j].gmtoff) && z.types[j].isdst in {0, 1} && 0 <= z.types[j].abbrind < 256)
    && z.dfltype == DefaultType(z.types)
  }

  /** Every zone the decoder returns is well formed. */
  lemma DecodeDataWellFormed(file: seq<Byte>, h: Header, pos: int, read64: bool)
    requires 0 <= pos && CountsFit(h, |file|)
    ensures DecodeData(file, h, pos, read64).Ok? ==> WellFormed(DecodeData(file, h, pos, read64).value)
    ensures DecodeData(file, h, pos, read64).Ok? ==> DecodeData(file, h, pos, read64).value.header == h
  {
    var r := DecodeData(file, h, pos, read64);
    if r.Ok? {
      var z := r.value;
      var n := h.timecnt;
      var idx := pos + n * TimeSize(read64);
      var tpos := idx + n;
      var cpos := tpos + h.typecnt * TYPE_SIZE;
      assert cpos + h.charcnt <= |file|;
      assert z.timevalues == TimeValues(file, pos, n, read64);
      assert z.timetypes == file[idx..idx + n];
      assert z.types == Types(file, tpos, h.typecnt);
      assert z.chars == file[cpos..cpos + h.charcnt];
      assert |z.timetypes| == n && |z.chars| == h.charcnt;
      assert forall i :: 0 <= i < |z.timetypes| ==> 0 <= z.timetypes[i] < |z.types|;
      assert forall i :: 0 <= i < |z.timevalues| ==> IsInt64(z.timevalues[i]);
    }
  }

  /** A successful load yields a well-formed zone. */
  lemma DecodeWellFormed(file: seq<Byte>)
    ensures Decode(file).Ok? ==> WellFormed(Decode(file).value)
  {
    match ParseHeader(file, 0)
    case Err(_) =>
    case Ok(first) =>
      if first.version >= VERSION_2 {
        var pos := HEADER_SIZE + SkipLength(first);
        if pos >= 0 && ParseHeader(file, pos).Ok? {
          DecodeDataWellFormed(file, ParseHeader(file, pos).value, pos + HEADER_SIZE, true);
        }
      } else {
        DecodeDataWellFormed(file, first, HEADER_SIZE, false);
      }
  }

  /*
   * The loader step by step.
   */

  /** The instants of the block at `pos`. */
  function TimeValues(file: seq<Byte>, pos: int, n: int, read64: bool): (tv: seq<int>)
    requires 0 <= pos && 0 <= n && pos + n * TimeSize(read64) <= |file|
    ensures |tv| == n
  {
    seq(n, k requires 0 <= k < n => TimeValueAt(file, pos, k, read64))
  }

  /** The types of the records at `pos`. */
  function Types(file: seq<Byte>, pos: int, n: int): (types: seq<TType>)
    requires 0 <= pos && 0 <= n && pos + n * TYPE_SIZE <= |file|
    ensures |types| == n
  {
    seq(n, k requires 0 <= k < n => TypeAt(file, pos, k))
  }

  /** `tz_read`: the headers, then the data block. */
  method Read(file: seq<Byte>) returns (r: Result<Zone, Error>)
    ensures r == Decode(file)
    ensures r.Ok? ==> WellFormed(r.value)
  {
    DecodeWellFormed(file);
    var first := ParseHeader(file, 0);
    if first.Err? {
      return Err(first.error);
    }
    var header := first.value;
    var read64 := header.version >= VERSION_2;
    var pos := HEADER_SIZE;
    if read64 {
      pos := pos + SkipLength(header);
      if pos < 0 {
        return Err(CannotSeek);
      }
      var second := ParseHeader(file, pos);
      if second.Err? {
        return Err(second.error);
      }
      header := second.value;
      pos := pos + HEADER_SIZE;
    }
    r := ReadData(file, header, pos, read64);
  }

  /** The data block of `tz_read`: the reads, the instants converted, the
      index check, the types unpacked. */
  method ReadData(file: seq<Byte>, header: Header, pos: int, read64: bool) returns (r: Result<Zone, Error>)
    requires 0 <= pos && CountsFit(header, |file|)
    ensures r == DecodeData(file, header, pos, read64)
  {
    var n, typecnt := header.timecnt, header.typecnt;
    if pos + DataLength(header, read64) > |file| {
      return Err(CannotReadData);
    }
    var idx := pos + n * TimeSize(read64);
    var tpos := idx + n;
    var cpos := tpos + typecnt * TYPE_SIZE;
    var timetypes := file[idx..idx + n];
    var chars := file[cpos..cpos + header.charcnt];
    var timevalues := ConvertTimes(file, pos, n, read64);
    var ok := CheckIndices(timetypes, typecnt);
    if !ok {
      return Err(Malformed);
    }
    var types, dfltype := UnpackTypes(file, tpos, typecnt);
    r := Ok(Zone(header, timevalues[..], timetypes, types[..], chars, dfltype));
  }

  /** The instants of the block, in the order the C code converts them:
      the 64-bit ones from the first, the 32-bit ones from the last. The C
      code widens the 32-bit ones in place, which is why it walks back; the
      model reads each from the unchanging file bytes into a fresh array,
      so nothing overlaps. */
  method ConvertTimes(file: seq<Byte>, pos: int, n: int, read64: bool) returns (timevalues: array<int>)
    requires 0 <= pos && 0 <= n && pos + n * TimeSize(read64) <= |file|
    ensures fresh(timevalues)
    ensures timevalues[..] == TimeValues(file, pos, n, read64)
  {
    timevalues := new int[n];
    if read64 {
      for i := 0 to n
        invariant forall k :: 0 <= k < i ==> timevalues[k] == TimeValueAt(file, pos, k, true)
      {
        timevalues[i] := Be64(file, pos + 8 * i);
      }
    } else {
      var i := n - 1;
      while i >= 0
        invariant -1 <= i < n
        invariant forall k :: i < k < n ==> timevalues[k] == TimeValueAt(file, pos, k, false)
      {
        timevalues[i] := Be32(file, pos + 4 * i);
        i := i - 1;
      }
    }
  }

  /** The check that every transition names one of the `typecnt` types. */
  method CheckIndices(timetypes: seq<Byte>, typecnt: int) returns (ok: bool)
    ensures ok <==> IndicesInRange(timetypes, typecnt)
  {
    for i := 0 to |timetypes|
      invariant forall k :: 0 <= k < i ==> timetypes[k] < typecnt
    {
      if timetypes[i] >= typecnt {
        return false;
      }
    }
    return true;
  }

  /** The packed records unpacked from the last to the first; each
      standard-time type met becomes the default, so the first one wins,
      and the first type is the fallback. */
  method UnpackTypes(file: seq<Byte>, pos: int, typecnt: int) returns (types: array<TType>, dfltype: Option<nat>)
    requires 0 <= pos && 0 <= typecnt && pos + typecnt * TYPE_SIZE <= |file|
    ensures fresh(types)
    ensures types[..] == Types(file, pos, typecnt)
    ensures dfltype == DefaultType(types[..])
  {
    ghost var spec := Types(file, pos, typecnt);
    types := new TType[typecnt];
    dfltype := None;
    var i := typecnt - 1;
    while i >= 0
      invariant -1 <= i < typecnt
      invariant forall k :: i < k < typecnt ==> types[k] == spec[k]
      invariant dfltype == FirstStandardFrom(spec, i + 1)
    {
      types[i] := TypeAt(file, pos, i);
      if types[i].isdst == 0 {
        dfltype := Some(i);
      }
      i := i - 1;
    }
    if dfltype.None? && typecnt > 0 {
      dfltype := Some(0);
    }
    assert types[..] == spec;
  }
}
