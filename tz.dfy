/*
 * The module's functions (src/tz.c:277-614, and tz.c:241-637 for the older
 * revision): zone names and files, the cache of loaded zones, and
 * `tz.info`, `tz.date` and `tz.time` once Lua has handed over their
 * arguments.
 */
module Tz {
  import opened Base
  import opened TZif
  import Lookup
  import Calendar

  /** The zone name that stands for the system's local time, and its file. */
  const LOCALTIME: string := "localtime"
  const LOCALFILE: string := "/etc/localtime"
  /** The directory of the named zones. */
  const ZONEINFO: string := "/usr/share/zoneinfo/"
  /** The zone a date format starting with '!' is rendered in. */
  const UTC: string := "UTC"
  /** The size of the file name buffer, its terminating NUL included. */
  const FILENAME_SIZE: int := 128
  /** The longest name `tz_data` accepts: the buffer less the directory
      and the NUL. */
  const MAX_NAME: int := FILENAME_SIZE - (|ZONEINFO| + 1)

  /** The two revisions of the code: they differ in how `tz_find` honours
      a daylight saving preference. */
  datatype Revision = Current | Legacy

  /*
   * Zone names.
   */

  /** The C string a Lua string is passed on as: its characters up to the
      first NUL. */
  function CString(s: string): (c: string)
    ensures c <= s && '\0' !in c
    ensures |c| < |s| ==> s[|c|] == '\0'
  {
    if |s| == 0 || s[0] == '\0' then [] else [s[0]] + CString(s[1..])
  }

  /** `isalnum` in the C locale. */
  predicate IsAlnum(c: char)
  {
    '0' <= c <= '9' || 'A' <= c <= 'Z' || 'a' <= c <= 'z'
  }

  /** `ispunct` in the C locale: a printable character other than space
      that is neither a letter nor a digit. */
  predicate IsPunct(c: char)
  {
    '!' <= c <= '~' && !IsAlnum(c)
  }

  /** A character a zone name may hold: a letter, a digit or a
      punctuation mark other than '.', so that no name climbs out of the
      zone directory. */
  predicate NameChar(c: char)
  {
    IsAlnum(c) || (IsPunct(c) && c != '.')
  }

  predicate ValidName(name: string)
  {
    forall i :: 0 <= i < |name| ==> NameChar(name[i])
  }

  /** Why `tz_data` raises an error. */
  datatype LoadError =
    | TooLong             // "timezone too long" ("timezone too large" in the older revision)
    | MalformedName       // "malformed timezone '<name>'"
    | UnknownZone         // "unknown timezone '<name>'"
    | Unreadable(error: Error)

  /** The file `tz_data` reads for a zone name: the local time file for
      "localtime", else the name under the zone directory, provided it fits
      the buffer and holds only letters, digits and punctuation other than
      '.'. */
  function ZonePath(name: string): (r: Result<string, LoadError>)
    ensures r.Ok? <==> name == LOCALTIME || (|name| <= MAX_NAME && ValidName(name))
    ensures name == LOCALTIME ==> r == Ok(LOCALFILE)
    ensures r.Ok? && name != LOCALTIME ==>
              r.value == ZONEINFO + name && |r.value| < FILENAME_SIZE && '.' !in name && '\0' !in name
    ensures name != LOCALTIME && |name| > MAX_NAME ==> r == Err(TooLong)
    ensures name != LOCALTIME && |name| <= MAX_NAME && !ValidName(name) ==> r == Err(MalformedName)
  {
    if name == LOCALTIME then Ok(LOCALFILE)
    else if |name| > MAX_NAME then Err(TooLong)
    else if !ValidName(name) then Err(MalformedName)
    else
      assert forall i :: 0 <= i < |name| ==> name[i] != '.' && name[i] != '\0';
      Ok(ZONEINFO + name)
  }

  /** The file name `tz_data` builds, checking the name character by
      character. */
  method ZonePathOf(name: string) returns (r: Result<string, LoadError>)
    ensures r == ZonePath(name)
  {
    if name == LOCALTIME {
      return Ok(LOCALFILE);
    }
    if |name| > MAX_NAME {
      return Err(TooLong);
    }
    var i := 0;
    while i < |name|
      invariant 0 <= i <= |name|
      invariant forall k :: 0 <= k < i ==> NameChar(name[k])
    {
      if !IsAlnum(name[i]) && (!IsPunct(name[i]) || name[i] == '.') {
        return Err(MalformedName);
      }
      i := i + 1;
    }
    r := Ok(ZONEINFO + name);
  }

  /** The zone `tz_data` loads on a cache miss. `files` maps the path of
      every regular file to its contents; a path it lacks is one `stat`
      refuses or that is not a regular file. */
  function Load(name: string, files: map<string, seq<Byte>>): (r: Result<Zone, LoadError>)
    ensures r.Ok? ==> WellFormed(r.value)
    ensures r.Ok? <==> ZonePath(name).Ok? && ZonePath(name).value in files
                       && Decode(files[ZonePath(name).value]).Ok?
    ensures r.Ok? ==> Decode(files[ZonePath(name).value]) == Ok(r.value)
  {
    match ZonePath(name)
    case Err(e) => Err(e)
    case Ok(path) =>
      if path !in files then Err(UnknownZone)
      else
        match Decode(files[path])
        case Err(e) => Err(Unreadable(e))
        case Ok(z) => DecodeWellFormed(files[path]); Ok(z)
  }

  /** A name with a NUL in it is never loaded: the NUL fails the character
      check, unless the name is too long to be checked at all. */
  lemma EmbeddedNul(name: string, files: map<string, seq<Byte>>)
    requires '\0' in name
    ensures |name| <= MAX_NAME ==> Load(name, files) == Err(MalformedName)
    ensures |name| > MAX_NAME ==> Load(name, files) == Err(TooLong)
  {
    var i :| 0 <= i < |name| && name[i] == '\0';
    assert !NameChar(name[i]);
  }

  /*
   * The cache of loaded zones.
   */

  /** Every cached zone was loaded under a C string key. */
  predicate CacheOk(cache: map<string, Zone>)
  {
    forall k :: k in cache ==> '\0' !in k && WellFormed(cache[k])
  }

  /** The zone `tz_data` returns: the one cached under the name's C
      string, if any, else a fresh load of the whole name. */
  function Resolve(cache: map<string, Zone>, name: string, files: map<string, seq<Byte>>): (r: Result<Zone, LoadError>)
    requires CacheOk(cache)
    ensures r.Ok? ==> WellFormed(r.value)
    ensures r.Err? ==> CString(name) !in cache
    ensures CString(name) in cache ==> r == Ok(cache[CString(name)])
  {
    var key := CString(name);
    if key in cache then Ok(cache[key]) else Load(name, files)
  }

  /** The cache after `tz_data`: a zone is added under the name's C string
      when it was missing and loaded; no entry is ever changed or dropped. */
  function Remember(cache: map<string, Zone>, name: string, files: map<string, seq<Byte>>): (c: map<string, Zone>)
    requires CacheOk(cache)
    ensures CacheOk(c)
    ensures forall k :: k in cache ==> k in c && c[k] == cache[k]
    ensures c.Keys <= cache.Keys + {CString(name)}
    ensures CString(name) in c <==> CString(name) in cache || Load(name, files).Ok?
  {
    var key := CString(name);
    if key in cache then cache
    else
      match Load(name, files)
      case Ok(z) => cache[key := z]
      case Err(_) => cache
  }

  /** Once `tz_data` has returned a zone for a name, it returns that zone
      for the name ever after, without loading again: whatever the files
      then hold, the result is the same and the cache is left as it is. */
  lemma LoadedOnce(cache: map<string, Zone>, name: string, files: map<string, seq<Byte>>, later: map<string, seq<Byte>>)
    requires CacheOk(cache) && Resolve(cache, name, files).Ok?
    ensures var c := Remember(cache, name, files);
            Resolve(c, name, later) == Resolve(cache, name, files)
            && Remember(c, name, later) == c
  {
  }

  /** A name whose C string is cached is served from the cache even when
      the whole name would not load: "UTC\0x" finds the zone cached as
      "UTC". */
  lemma CacheKeyIsCString(cache: map<string, Zone>, files: map<string, seq<Byte>>)
    requires CacheOk(cache) && UTC in cache
    ensures Resolve(cache, "UTC\0x", files) == Ok(cache[UTC])
    ensures Load("UTC\0x", files) == Err(MalformedName)
  {
    assert CString("UTC\0x") == UTC;
    EmbeddedNul("UTC\0x", files);
  }

  /*
   * Transition lookup, by revision.
   */

  /** The type `tz_find` of revision `rev` yields: none only when the zone
      has no types at all. */
  function ZoneType(z: Zone, t: int, isdst: int, reverse: bool, rev: Revision): (r: Option<TType>)
    requires WellFormed(z)
    ensures r.None? <==> |z.types| == 0
    ensures r.Some? ==> r.value in z.types
  {
    var u := if rev == Current then Lookup.FindIndex(z, t, isdst, reverse)
             else Lookup.FindIndexLegacy(z, t, isdst, reverse);
    Lookup.TypeResult(z, u)
  }

  /** The offset `tz_find` of revision `rev` yields, 0 when it yields no
      type. */
  function UtcOffset(z: Zone, t: int, isdst: int, reverse: bool, rev: Revision): (g: int)
    requires WellFormed(z)
    ensures IsInt32(g)
    ensures |z.types| == 0 ==> g == 0
  {
    match ZoneType(z, t, isdst, reverse, rev)
    case Some(tt) => tt.gmtoff
    case None => 0
  }

  method FindType(z: Zone, t: int, isdst: int, reverse: bool, rev: Revision) returns (r: Option<TType>)
    requires WellFormed(z)
    ensures r == ZoneType(z, t, isdst, reverse, rev)
  {
    if rev == Current {
      r := Lookup.Find(z, t, isdst, reverse);
    } else {
      r := Lookup.FindLegacy(z, t, isdst, reverse);
    }
  }

  /*
   * `tz.info` (`tz.type` in the older revision).
   */

  /** Bytes read as characters. */
  function Text(b: seq<Byte>): (s: string)
    ensures |s| == |b|
    ensures forall i :: 0 <= i < |b| ==> s[i] as int == b[i]
  {
    seq(|b|, i requires 0 <= i < |b| => b[i] as char)
  }

  /** The abbreviation at `abbrind`: the characters up to the next NUL.
      When no NUL follows inside the character block, the C code reads
      past it, and there is none. */
  function Abbreviation(z: Zone, abbrind: int): (r: Option<string>)
    requires 0 <= abbrind
    ensures r.Some? <==> abbrind < |z.chars| && 0 in z.chars[abbrind..]
    ensures r.Some? ==> '\0' !in r.value && abbrind + |r.value| < |z.chars|
                        && z.chars[abbrind + |r.value|] == 0
                        && r.value == Text(z.chars[abbrind..abbrind + |r.value|])
  {
    if abbrind < |z.chars| && 0 in z.chars[abbrind..] then
      var s := Text(z.chars[abbrind..]);
      var c := CString(s);
      assert c == s[..|c|] == Text(z.chars[abbrind..abbrind + |c|]);
      Some(c)
    else
      None
  }

  /** What `tz.info` returns: the offset, the daylight saving flag and the
      abbreviation in force at `t`. */
  datatype TimeInfo = TimeInfo(gmtoff: int, isdst: bool, abbreviation: Option<string>)

  /** The information `tz_info` gives for `t` in zone `z`: nothing only for
      a zone without types; for ascending transitions, the offset, flag and
      abbreviation of the type of the last one at or before `t`, or of the
      default type before the first. */
  function InfoOf(z: Zone, t: int, rev: Revision): (r: Option<TimeInfo>)
    requires WellFormed(z)
    ensures r.None? <==> |z.types| == 0
    ensures (Lookup.Ascending(z.timevalues) && |z.timevalues| > 0 && z.timevalues[0] <= t) ==>
              r.Some? && r.value.gmtoff == Lookup.GmtoffAt(z, Lookup.LastAtOrBefore(z.timevalues, t))
    ensures Lookup.Ascending(z.timevalues) ==>
              var tt := Lookup.TypeResult(z, Lookup.LastAtOrBefore(z.timevalues, t));
              (r.Some? <==> tt.Some?)
              && (r.Some? ==> r.value == TimeInfo(tt.value.gmtoff, tt.value.isdst == 1, Abbreviation(z, tt.value.abbrind)))
  {
    Lookup.ForwardLookup(z, t, -1);
    RevisionsAgree(z, t, false);
    match ZoneType(z, t, -1, false, rev)
    case None => None
    case Some(tt) => Some(TimeInfo(tt.gmtoff, tt.isdst == 1, Abbreviation(z, tt.abbrind)))
  }

  /** Before the first transition, or in a zone without transitions,
      `tz.info` describes the default type. */
  lemma InfoBeforeFirst(z: Zone, t: int, rev: Revision)
    requires WellFormed(z) && Lookup.Ascending(z.timevalues)
    requires |z.timevalues| == 0 || t < z.timevalues[0]
    ensures z.dfltype.Some? ==>
              var dt := z.types[z.dfltype.value];
              InfoOf(z, t, rev) == Some(TimeInfo(dt.gmtoff, dt.isdst == 1, Abbreviation(z, dt.abbrind)))
  {
    assert Lookup.LastAtOrBefore(z.timevalues, t) == -1;
  }

  /*
   * `tz.date`.
   */

  /** The zone fields of a date table. */
  datatype Zoned = Zoned(isdst: bool, off: int, zone: Option<string>)

  /** The table `tz.date("*t", ...)` returns; `strftime` formats the same
      fields. */
  datatype DateFields = DateFields(
    sec: int, min: int, hour: int, day: int, month: int, year: int,
    wday: int, yday: int, zone: Option<Zoned>)

  /** The zone `tz_date` renders in: UTC for a format starting with '!'. */
  function DateZone(format: string, name: string): (n: string)
    ensures |format| > 0 && format[0] == '!' ==> n == UTC
    ensures (|format| == 0 || format[0] != '!') ==> n == name
  {
    if |format| > 0 && format[0] == '!' then UTC else name
  }

  /** `t` on the local clock of `z`. */
  function LocalTime(z: Zone, t: int, rev: Revision): (l: int)
    requires WellFormed(z)
  {
    t + UtcOffset(z, t, -1, false, rev)
  }

  /** The fields `tz_date` decomposes a local time into: a valid date, a
      time of day, a weekday from 1 (Sunday) to 7 and a day of the year
      within the year. */
  function CivilFields(local: int, zone: Option<Zoned>): (d: DateFields)
    requires local >= Calendar.J0_TIME
    ensures Calendar.ValidDate(Calendar.Date(d.year, d.month, d.day))
    ensures 0 <= d.hour < 24 && 0 <= d.min < 60 && 0 <= d.sec < 60
    ensures 1 <= d.wday <= 7
    ensures 1 <= d.yday <= (if Calendar.IsLeap(d.year) then 366 else 365)
    ensures d.zone == zone
  {
    var dt := Calendar.Decompose(local);
    var jd := Calendar.JulianDay(local);
    Calendar.WeekdaySuccessor(jd);
    Calendar.YearDayRange(Calendar.Date(dt.year, dt.month, dt.day));
    DateFields(dt.sec, dt.min, dt.hour, dt.day, dt.month, dt.year,
               Calendar.Weekday(jd), Calendar.DaysBefore(dt.year, dt.month) + dt.day, zone)
  }

  /** The zone fields of a date in `z`: present whenever the zone has
      types. */
  function ZoneFields(z: Zone, t: int, rev: Revision): (r: Option<Zoned>)
    requires WellFormed(z)
    ensures r.Some? <==> |z.types| > 0
  {
    match ZoneType(z, t, -1, false, rev)
    case None => None
    case Some(tt) => Some(Zoned(tt.isdst == 1, tt.gmtoff, Abbreviation(z, tt.abbrind)))
  }

  /** The date `tz_date` gives for `t` in `z`: none before Julian Day 0 on
      the local clock. */
  function DateOf(z: Zone, t: int, rev: Revision): (r: Option<DateFields>)
    requires WellFormed(z)
    ensures r.Some? <==> LocalTime(z, t, rev) >= Calendar.J0_TIME
    ensures r.Some? ==> r.value.zone == ZoneFields(z, t, rev)
  {
    var local := LocalTime(z, t, rev);
    if local >= Calendar.J0_TIME then Some(CivilFields(local, ZoneFields(z, t, rev))) else None
  }

  /** The zone fields of a date are what `tz.info` gives for the same
      instant. */
  lemma DateAgreesWithInfo(z: Zone, t: int, rev: Revision)
    requires WellFormed(z) && DateOf(z, t, rev).Some?
    ensures var d := DateOf(z, t, rev).value;
            var info := InfoOf(z, t, rev);
            (d.zone.None? <==> info.None?)
            && (d.zone.Some? ==> d.zone.value == Zoned(info.value.isdst, info.value.gmtoff, info.value.abbreviation))
  {
  }

  /** The decomposition of `tz_date` (src/tz.c:451-482). */
  method Decomposition(local: int, zone: Option<Zoned>) returns (d: DateFields)
    requires local >= Calendar.J0_TIME
    ensures d == CivilFields(local, zone)
  {
    var dt := Calendar.Decompose(local);
    var jd := Calendar.JulianDay(local);
    var yday := Calendar.YearDay(dt.year, dt.month, dt.day);
    d := DateFields(dt.sec, dt.min, dt.hour, dt.day, dt.month, dt.year, Calendar.Weekday(jd), yday, zone);
  }

  /** The date part of `tz_date`, once the zone is loaded. */
  method DateIn(z: Zone, t: int, rev: Revision) returns (r: Option<DateFields>)
    requires WellFormed(z)
    ensures r == DateOf(z, t, rev)
  {
    var tt := FindType(z, t, -1, false, rev);
    var local := t;
    if tt.Some? {
      local := local + tt.value.gmtoff;
    }
    if local < Calendar.J0_TIME {
      return None;
    }
    assert local == LocalTime(z, t, rev);
    var zone := None;
    if tt.Some? {
      zone := Some(Zoned(tt.value.isdst == 1, tt.value.gmtoff, Abbreviation(z, tt.value.abbrind)));
    }
    assert zone == ZoneFields(z, t, rev);
    var d := Decomposition(local, zone);
    r := Some(d);
  }

  /*
   * `tz.time`.
   */

  /** The fields `tz.time` reads from its table argument, after the
      defaults for `sec`, `min` and `hour`; `isdst` and `off` may be
      absent. */
  datatype Fields = Fields(
    year: int, month: int, day: int, hour: int, min: int, sec: int,
    isdst: Option<bool>, off: Option<int>)

  /** The daylight saving preference: -1 for none, else 0 or 1. */
  function Preference(f: Fields): (p: int)
    ensures p in {-1, 0, 1} && (p == -1 <==> f.isdst.None?)
    ensures f.isdst.Some? ==> (p == 1 <==> f.isdst.value)
  {
    match f.isdst
    case None => -1
    case Some(b) => if b then 1 else 0
  }

  /** An instant `tz_time` returns: none before Julian Day 0. */
  function InDomain(t: int): (r: Option<int>)
    ensures r.Some? <==> t >= Calendar.J0_TIME
    ensures r.Some? ==> r.value == t
  {
    if t >= Calendar.J0_TIME then Some(t) else None
  }

  /** The instant `tz_time` gives for fields `f` in zone `z`: the civil
      seconds of the fields less the explicit offset when there is one,
      else less the offset the reverse lookup finds; none for a year before
      that of Julian Day 0, or a result before Julian Day 0. */
  function TimeOf(z: Zone, f: Fields, rev: Revision): (r: Option<int>)
    requires WellFormed(z)
    ensures Calendar.CivilSeconds(f.year, f.month, f.day, f.hour, f.min, f.sec).None? ==> r.None?
    ensures r.Some? ==> r.value >= Calendar.J0_TIME
    ensures (f.off.Some? && Calendar.CivilSeconds(f.year, f.month, f.day, f.hour, f.min, f.sec).Some?) ==>
              r == InDomain(Calendar.CivilSeconds(f.year, f.month, f.day, f.hour, f.min, f.sec).value - f.off.value)
  {
    match Calendar.CivilSeconds(f.year, f.month, f.day, f.hour, f.min, f.sec)
    case None => None
    case Some(local) =>
      match f.off
      case Some(off) => InDomain(local - off)
      case None => InDomain(local - UtcOffset(z, local, Preference(f), true, rev))
  }

  /** The adjustment of `tz_time` by the zone's offset (src/tz.c:593-606),
      for fields whose civil seconds are `local`. */
  method TimeIn(z: Zone, f: Fields, local: int, rev: Revision) returns (r: Option<int>)
    requires WellFormed(z) && f.off.None?
    requires Calendar.CivilSeconds(f.year, f.month, f.day, f.hour, f.min, f.sec) == Some(local)
    ensures r == TimeOf(z, f, rev)
  {
    var t := local;
    var tt := FindType(z, t, Preference(f), true, rev);
    if tt.Some? {
      t := t - tt.value.gmtoff;
    }
    r := InDomain(t);
  }

  /** Whether `tz_time` consults the zone: only for a year from that of
      Julian Day 0 on and without an explicit offset. */
  predicate NeedsZone(f: Fields)
  {
    Calendar.CivilSeconds(f.year, f.month, f.day, f.hour, f.min, f.sec).Some? && f.off.None?
  }

  /** A call of `tz.time`: without a table it returns the clock, `now`,
      which is -1 when the clock fails. */
  datatype TimeRequest = Now(now: int) | Table(fields: Fields, name: string)

  /** What `tz_time` returns; it raises the zone's error only when it
      consults the zone. */
  function TimeResult(cache: map<string, Zone>, req: TimeRequest, files: map<string, seq<Byte>>, rev: Revision): (r: Result<Option<int>, LoadError>)
    requires CacheOk(cache)
    ensures req.Now? ==> r == Ok(if req.now == -1 then None else Some(req.now))
    ensures r.Err? ==> req.Table? && NeedsZone(req.fields)
  {
    match req
    case Now(now) => Ok(if now == -1 then None else Some(now))
    case Table(f, name) =>
      if !NeedsZone(f) then
        Ok(match Calendar.CivilSeconds(f.year, f.month, f.day, f.hour, f.min, f.sec)
           case None => None
           case Some(local) => InDomain(local - f.off.value))
      else
        match Resolve(cache, name, files)
        case Err(e) => Err(e)
        case Ok(z) => Ok(TimeOf(z, f, rev))
  }

  /** With an explicit offset, `tz.time` neither reads nor loads the zone:
      the name, the cache and the files make no difference, and even a
      malformed name raises nothing. */
  lemma OffsetWins(cache: map<string, Zone>, f: Fields, name: string, files: map<string, seq<Byte>>, rev: Revision)
    requires CacheOk(cache) && f.off.Some?
    ensures TimeResult(cache, Table(f, name), files, rev) == TimeResult(map[], Table(f, "."), map[], rev)
    ensures TimeResult(cache, Table(f, name), files, rev).Ok?
  {
  }

  /** A year before that of Julian Day 0, once the month is carried into
      it, gives no instant, whatever the zone. */
  lemma YearBeforeDomain(cache: map<string, Zone>, f: Fields, name: string, files: map<string, seq<Byte>>, rev: Revision)
    requires CacheOk(cache)
    requires Calendar.NormalizeMonth(f.year, f.month).0 < Calendar.J0_YEAR
    ensures TimeResult(cache, Table(f, name), files, rev) == Ok(None)
  {
  }

  /** `tz.time` inverts `tz.date`: the fields of a date, with the offset
      the date reports (0 without one), give back the instant. */
  lemma DateTimeRoundTrip(z: Zone, t: int, rev: Revision)
    requires WellFormed(z) && DateOf(z, t, rev).Some?
    ensures var d := DateOf(z, t, rev).value;
            var off := if d.zone.Some? then d.zone.value.off else 0;
            TimeOf(z, Fields(d.year, d.month, d.day, d.hour, d.min, d.sec, None, Some(off)), rev) == InDomain(t)
  {
    var local := LocalTime(z, t, rev);
    Calendar.ComposeInvertsDecompose(local);
  }

  /** The fields of a date compose back into the local time they were
      decomposed from. */
  lemma DateComposes(z: Zone, t: int, rev: Revision)
    requires WellFormed(z) && DateOf(z, t, rev).Some?
    ensures var d := DateOf(z, t, rev).value;
            Calendar.CivilSeconds(d.year, d.month, d.day, d.hour, d.min, d.sec) == Some(LocalTime(z, t, rev))
  {
    Calendar.ComposeInvertsDecompose(LocalTime(z, t, rev));
  }

  /** Without an explicit offset, `tz_time` subtracts from the civil
      seconds the offset the reverse lookup finds for them. */
  lemma ZoneAdjusted(z: Zone, f: Fields, local: int, rev: Revision)
    requires WellFormed(z) && f.off.None?
    requires Calendar.CivilSeconds(f.year, f.month, f.day, f.hour, f.min, f.sec) == Some(local)
    ensures TimeOf(z, f, rev) == InDomain(local - UtcOffset(z, local, Preference(f), true, rev))
  {
  }

  /** Outside a repeated span, reverse lookup without a preference finds
      from the local time of `t` the offset in force at `t`. */
  lemma UnrepeatedOffset(z: Zone, t: int, rev: Revision)
    requires WellFormed(z) && Lookup.Ascending(Lookup.LocalKeys(z)) && Lookup.Unrepeated(z, t)
    ensures UtcOffset(z, LocalTime(z, t, rev), -1, true, rev) == UtcOffset(z, t, -1, false, rev)
  {
    RevisionsAgree(z, t, false);
    var local := LocalTime(z, t, rev);
    assert local == Lookup.LocalReading(z, t);
    RevisionsAgree(z, local, true);
    Lookup.ReverseInvertsForward(z, t);
  }

  /** With the flag in force at `t` as the preference, the current
      revision's reverse lookup finds from the local time of `t` the offset
      in force at `t`, when the hour is repeated by at most one transition
      that changes the flag. */
  lemma FlagOffset(z: Zone, t: int, isdst: int)
    requires WellFormed(z) && Lookup.Ascending(Lookup.LocalKeys(z)) && Lookup.RepeatedAcrossFlag(z, t)
    requires isdst == (if ZoneType(z, t, -1, false, Current).Some? then ZoneType(z, t, -1, false, Current).value.isdst else -1)
    ensures UtcOffset(z, LocalTime(z, t, Current), isdst, true, Current) == UtcOffset(z, t, -1, false, Current)
  {
    var local := LocalTime(z, t, Current);
    assert local == Lookup.LocalReading(z, t);
    var u := Lookup.FindIndex(z, t, -1, false);
    if Lookup.TypeResult(z, u).Some? {
      Lookup.PreferenceResolvesRepeat(z, t, isdst);
    } else {
      Lookup.ReverseInvertsForward(z, t);
    }
  }

  /** `tz.time` gives back `t` from fields showing its local time, without
      an offset, whenever the reverse lookup finds from the local time the
      offset in force at `t`. */
  lemma LocalFieldsGiveBack(z: Zone, t: int, rev: Revision, f: Fields)
    requires WellFormed(z) && f.off.None?
    requires Calendar.CivilSeconds(f.year, f.month, f.day, f.hour, f.min, f.sec) == Some(LocalTime(z, t, rev))
    requires UtcOffset(z, LocalTime(z, t, rev), Preference(f), true, rev) == UtcOffset(z, t, -1, false, rev)
    ensures TimeOf(z, f, rev) == InDomain(t)
  {
    ZoneAdjusted(z, f, LocalTime(z, t, rev), rev);
  }

  /** The daylight saving flag a date reports, as `tz.time` reads it back,
      is the flag of the type in force at `t`, or no preference when the
      zone has no types. */
  lemma ReportedFlag(z: Zone, t: int, rev: Revision)
    requires WellFormed(z) && DateOf(z, t, rev).Some?
    ensures var d := DateOf(z, t, rev).value;
            var tt := ZoneType(z, t, -1, false, rev);
            (d.zone.Some? <==> tt.Some?)
            && (d.zone.Some? ==> (if d.zone.value.isdst then 1 else 0) == tt.value.isdst)
  {
  }

  /** `tz.time` inverts `tz.date` through the zone: the fields of the date
      of `t`, given without an offset or a flag, give back `t` whenever the
      local time they show is not one a falling offset repeats (on local
      keys that ascend, as those of any real zone do). */
  lemma ZoneRoundTrip(z: Zone, t: int, rev: Revision)
    requires WellFormed(z) && Lookup.Ascending(Lookup.LocalKeys(z))
    requires DateOf(z, t, rev).Some? && Lookup.Unrepeated(z, t)
    ensures var d := DateOf(z, t, rev).value;
            TimeOf(z, Fields(d.year, d.month, d.day, d.hour, d.min, d.sec, None, None), rev) == InDomain(t)
  {
    var d := DateOf(z, t, rev).value;
    var f := Fields(d.year, d.month, d.day, d.hour, d.min, d.sec, None, None);
    DateComposes(z, t, rev);
    UnrepeatedOffset(z, t, rev);
    LocalFieldsGiveBack(z, t, rev, f);
  }

  /** In the current revision, the fields of the date of `t` with the
      daylight saving flag the date reports give back `t` in a repeated
      hour too, when the hour is repeated by one transition that changes
      the flag. */
  lemma FlagRoundTrip(z: Zone, t: int)
    requires WellFormed(z) && Lookup.Ascending(Lookup.LocalKeys(z))
    requires DateOf(z, t, Current).Some? && Lookup.RepeatedAcrossFlag(z, t)
    ensures var d := DateOf(z, t, Current).value;
            var isdst := if d.zone.Some? then Some(d.zone.value.isdst) else None;
            TimeOf(z, Fields(d.year, d.month, d.day, d.hour, d.min, d.sec, isdst, None), Current) == InDomain(t)
  {
    var d := DateOf(z, t, Current).value;
    var isdst := if d.zone.Some? then Some(d.zone.value.isdst) else None;
    var f := Fields(d.year, d.month, d.day, d.hour, d.min, d.sec, isdst, None);
    ReportedFlag(z, t, Current);
    var tt := ZoneType(z, t, -1, false, Current);
    assert Preference(f) == if tt.Some? then tt.value.isdst else -1;
    FlagOffset(z, t, Preference(f));
    DateComposes(z, t, Current);
    LocalFieldsGiveBack(z, t, Current, f);
  }

  /** The floor of the domain: November 24, -4713 at midnight UTC is
      `J0_TIME`, and a second earlier gives no instant. */
  lemma TimeDomainFloor(z: Zone, rev: Revision)
    requires WellFormed(z)
    ensures TimeOf(z, Fields(-4713, 11, 24, 0, 0, 0, None, Some(0)), rev) == Some(Calendar.J0_TIME)
    ensures TimeOf(z, Fields(-4713, 11, 24, 0, 0, -1, None, Some(0)), rev) == None
  {
    Calendar.DomainFloor(0, 0, 0);
    Calendar.DomainFloor(0, 0, -1);
  }

  /** In a zone whose offsets are all 0, no instant before `J0_TIME` has
      a date, and the first day from it on is November 24, -4713. */
  lemma DateDomainFloor(z: Zone, t: int, rev: Revision)
    requires WellFormed(z) && forall j :: 0 <= j < |z.types| ==> z.types[j].gmtoff == 0
    ensures t < Calendar.J0_TIME ==> DateOf(z, t, rev).None?
    ensures Calendar.J0_TIME <= t < Calendar.J0_TIME + Calendar.SECONDS_PER_DAY ==>
              DateOf(z, t, rev).Some?
              && var d := DateOf(z, t, rev).value;
                 (d.year, d.month, d.day) == (-4713, 11, 24)
                 && d.hour * 3600 + d.min * 60 + d.sec == t - Calendar.J0_TIME
  {
    var tt := ZoneType(z, t, -1, false, rev);
    assert tt.Some? ==> tt.value in z.types && tt.value.gmtoff == 0;
    assert LocalTime(z, t, rev) == t;
    if Calendar.J0_TIME <= t < Calendar.J0_TIME + Calendar.SECONDS_PER_DAY {
      Calendar.FirstDay(t);
    }
  }

  /** In a zone without transitions, `tz.date` inverts `tz.time` on
      canonical fields: the instant made of a valid date and time of day
      decomposes into the same fields, on the same local clock. */
  lemma FixedZoneRoundTrip(z: Zone, f: Fields, t: int, rev: Revision)
    requires WellFormed(z) && |z.timevalues| == 0
    requires Calendar.ValidDate(Calendar.Date(f.year, f.month, f.day))
    requires 0 <= f.hour < 24 && 0 <= f.min < 60 && 0 <= f.sec < 60
    requires f.off.None? && TimeOf(z, f, rev) == Some(t)
    requires Calendar.CivilSeconds(f.year, f.month, f.day, f.hour, f.min, f.sec).value >= Calendar.J0_TIME
    ensures DateOf(z, t, rev).Some?
    ensures var d := DateOf(z, t, rev).value;
            (d.year, d.month, d.day, d.hour, d.min, d.sec) == (f.year, f.month, f.day, f.hour, f.min, f.sec)
  {
    var local := Calendar.CivilSeconds(f.year, f.month, f.day, f.hour, f.min, f.sec).value;
    FixedOffset(z, local, Preference(f), true, t, rev);
    assert LocalTime(z, t, rev) == local;
    Calendar.DecomposeInvertsCompose(Calendar.DateTime(f.year, f.month, f.day, f.hour, f.min, f.sec), local);
  }

  /** A zone without transitions has one offset, that of its default type,
      whatever the instant, the preference or the direction of the
      lookup. */
  lemma FixedOffset(z: Zone, t: int, isdst: int, reverse: bool, t2: int, rev: Revision)
    requires WellFormed(z) && |z.timevalues| == 0
    ensures ZoneType(z, t, isdst, reverse, rev) == ZoneType(z, t2, -1, false, rev)
    ensures ZoneType(z, t, isdst, reverse, rev) == if z.dfltype.Some? then Some(z.types[z.dfltype.value]) else None
  {
    assert Lookup.FindIndex(z, t, isdst, reverse) == -1;
    assert Lookup.FindIndexLegacy(z, t, isdst, reverse) == -1;
    assert Lookup.FindIndex(z, t2, -1, false) == -1;
    assert Lookup.FindIndexLegacy(z, t2, -1, false) == -1;
  }

  /** Without a daylight saving preference, the two revisions find the
      same type. */
  lemma RevisionsAgree(z: Zone, t: int, reverse: bool)
    requires WellFormed(z)
    ensures ZoneType(z, t, -1, reverse, Current) == ZoneType(z, t, -1, reverse, Legacy)
  {
    Lookup.RevisionsAgreeWithoutPreference(z, t, reverse);
  }

  /** The two revisions agree on `tz.info` and `tz.date`. */
  lemma InfoDateRevisionsAgree(z: Zone, t: int)
    requires WellFormed(z)
    ensures InfoOf(z, t, Current) == InfoOf(z, t, Legacy)
    ensures DateOf(z, t, Current) == DateOf(z, t, Legacy)
  {
    RevisionsAgree(z, t, false);
  }

  /** Without a daylight saving preference, the two revisions agree on
      `tz.time`. */
  lemma TimeRevisionsAgree(z: Zone, f: Fields)
    requires WellFormed(z) && f.isdst.None?
    ensures TimeOf(z, f, Current) == TimeOf(z, f, Legacy)
  {
    var civil := Calendar.CivilSeconds(f.year, f.month, f.day, f.hour, f.min, f.sec);
    if civil.Some? {
      RevisionsAgree(z, civil.value, true);
    }
  }

  /*
   * The module's state: the cache in the Lua registry.
   */

  /** The table of loaded zones that the Lua registry holds under "TZ",
      keyed by zone name. */
  class Registry {
    var cache: map<string, Zone>

    ghost predicate Valid()
      reads this
    {
      CacheOk(cache)
    }

    constructor ()
      ensures cache == map[] && Valid()
    {
      cache := map[];
    }

    /** `tz_data`: the cached zone, or the zone loaded and cached. */
    method Data(name: string, files: map<string, seq<Byte>>) returns (r: Result<Zone, LoadError>)
      requires Valid()
      modifies this
      ensures Valid()
      ensures r == Resolve(old(cache), name, files)
      ensures cache == Remember(old(cache), name, files)
    {
      var key := CString(name);
      if key in cache {
        return Ok(cache[key]);
      }
      var path := ZonePathOf(name);
      if path.Err? {
        return Err(path.error);
      }
      if path.value !in files {
        return Err(UnknownZone);
      }
      var loaded := Read(files[path.value]);
      match loaded
      case Err(e) =>
        r := Err(Unreadable(e));
      case Ok(z) =>
        cache := cache[key := z];
        r := Ok(z);
    }

    /** `tz.info(t, name)`. */
    method Info(t: int, name: string, files: map<string, seq<Byte>>, rev: Revision) returns (r: Result<Option<TimeInfo>, LoadError>)
      requires Valid()
      modifies this
      ensures Valid()
      ensures cache == Remember(old(cache), name, files)
      ensures r == match Resolve(old(cache), name, files)
                   case Err(e) => Err(e)
                   case Ok(z) => Ok(InfoOf(z, t, rev))
    {
      var data := Data(name, files);
      if data.Err? {
        return Err(data.error);
      }
      var z := data.value;
      var tt := FindType(z, t, -1, false, rev);
      if tt.None? {
        return Ok(None);
      }
      var abbreviation := Abbreviation(z, tt.value.abbrind);
      r := Ok(Some(TimeInfo(tt.value.gmtoff, tt.value.isdst == 1, abbreviation)));
    }

    /** `tz.date(format, t, name)`, as the table of fields. */
    method Date(format: string, t: int, name: string, files: map<string, seq<Byte>>, rev: Revision) returns (r: Result<Option<DateFields>, LoadError>)
      requires Valid()
      modifies this
      ensures Valid()
      ensures cache == Remember(old(cache), DateZone(format, name), files)
      ensures r == match Resolve(old(cache), DateZone(format, name), files)
                   case Err(e) => Err(e)
                   case Ok(z) => Ok(DateOf(z, t, rev))
    {
      var zoneName := name;
      if |format| > 0 && format[0] == '!' {
        zoneName := UTC;
      }
      var data := Data(zoneName, files);
      if data.Err? {
        return Err(data.error);
      }
      var fields := DateIn(data.value, t, rev);
      r := Ok(fields);
    }

    /** `tz.time(fields, name)`, or `tz.time()`. */
    method Time(req: TimeRequest, files: map<string, seq<Byte>>, rev: Revision) returns (r: Result<Option<int>, LoadError>)
      requires Valid()
      modifies this
      ensures Valid()
      ensures r == TimeResult(old(cache), req, files, rev)
      ensures cache == if req.Table? && NeedsZone(req.fields) then Remember(old(cache), req.name, files) else old(cache)
    {
      if req.Now? {
        return Ok(if req.now == -1 then None else Some(req.now));
      }
      var f := req.fields;
      var civil := Calendar.CivilSeconds(f.year, f.month, f.day, f.hour, f.min, f.sec);
      if civil.None? {
        return Ok(None);
      }
      var t := civil.value;
      if f.off.Some? {
        return Ok(InDomain(t - f.off.value));
      }
      var data := Data(req.name, files);
      if data.Err? {
        return Err(data.error);
      }
      var utc := TimeIn(data.value, f, t, rev);
      r := Ok(utc);
    }
  }
}
