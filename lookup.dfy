/*
 * Transition lookup: `tz_find` of the current revision (src/tz.c:338-372)
 * and of the older one (tz.c:307-348).
 *
 * Both binary-search the transitions of a loaded zone for the last one at
 * or before an instant. The forward search compares UTC instants; the
 * reverse search, used to turn local civil time into UTC, compares each
 * transition in its own local clock. The revisions then differ in how a
 * daylight saving preference is honoured.
 */
module Lookup {
  import opened Base
  import opened TZif

  /*
   * The zone as the search sees it.
   */

  /** The offset in force from transition `k` on. */
  function GmtoffAt(z: Zone, k: int): int
    requires WellFormed(z) && 0 <= k < |z.timevalues|
  {
    z.types[z.timetypes[k]].gmtoff
  }

  /** The daylight saving flag in force from transition `k` on. */
  function IsdstAt(z: Zone, k: int): int
    requires WellFormed(z) && 0 <= k < |z.timevalues|
  {
    z.types[z.timetypes[k]].isdst
  }

  /** Each transition read on the local clock it introduces. */
  function LocalKeys(z: Zone): (keys: seq<int>)
    requires WellFormed(z)
    ensures |keys| == |z.timevalues|
    ensures forall k :: 0 <= k < |keys| ==> keys[k] == z.timevalues[k] + GmtoffAt(z, k)
  {
    seq(|z.timevalues|, k requires 0 <= k < |z.timevalues| => z.timevalues[k] + GmtoffAt(z, k))
  }

  /** The keys a search compares against. */
  function Keys(z: Zone, reverse: bool): (keys: seq<int>)
    requires WellFormed(z)
    ensures |keys| == |z.timevalues|
  {
    if reverse then LocalKeys(z) else z.timevalues
  }

  /** The type a search result stands for: that of the transition, or the
      default type (if any) before the first transition. */
  function TypeResult(z: Zone, u: int): (r: Option<TType>)
    requires WellFormed(z) && -1 <= u < |z.timevalues|
    ensures u >= 0 ==> r == Some(z.types[z.timetypes[u]])
    ensures u < 0 && z.dfltype.Some? ==> r == Some(z.types[z.dfltype.value])
    ensures u < 0 && z.header.typecnt == 0 ==> r.None?
  {
    if u >= 0 then Some(z.types[z.timetypes[u]])
    else if z.dfltype.Some? then Some(z.types[z.dfltype.value])
    else None
  }

  /*
   * The binary search.
   */

  /** The search loop of `tz_find` on the window `lower..upper`: it halves
      the window, keeping on the left what lies after `t`. */
  function Search(keys: seq<int>, t: int, lower: int, upper: int): (u: int)
    requires 0 <= lower <= upper + 1 <= |keys|
    ensures lower - 1 <= u <= upper
    decreases upper - lower
  {
    if lower > upper then upper
    else
      var mid := (lower + upper) / 2;
      if keys[mid] <= t then Search(keys, t, mid + 1, upper)
      else Search(keys, t, lower, mid - 1)
  }

  /** `u` separates the keys at or before `t` from the next one. */
  predicate Boundary(keys: seq<int>, t: int, u: int)
  {
    -1 <= u < |keys|
    && (u >= 0 ==> keys[u] <= t)
    && (u + 1 < |keys| ==> t < keys[u + 1])
  }

  predicate Ascending(keys: seq<int>)
  {
    forall i, j :: 0 <= i < j < |keys| ==> keys[i] <= keys[j]
  }

  /** The last key at or before `t`, by a scan from the end: the reference
      the search is measured against. */
  function LastAtOrBefore(keys: seq<int>, t: int): (u: int)
    ensures -1 <= u < |keys|
    ensures u >= 0 ==> keys[u] <= t
    ensures forall k :: u < k < |keys| ==> keys[k] > t
  {
    if |keys| == 0 then -1
    else if keys[|keys| - 1] <= t then |keys| - 1
    else LastAtOrBefore(keys[..|keys| - 1], t)
  }

  /** Whatever the keys, the search ends on a boundary, as long as the
      window it starts from lies between keys at or before `t` and keys
      after it. */
  lemma {:induction false} SearchBoundary(keys: seq<int>, t: int, lower: int, upper: int)
    requires 0 <= lower <= upper + 1 <= |keys|
    requires lower > 0 ==> keys[lower - 1] <= t
    requires upper + 1 < |keys| ==> t < keys[upper + 1]
    ensures Boundary(keys, t, Search(keys, t, lower, upper))
    decreases upper - lower
  {
    if lower <= upper {
      var mid := (lower + upper) / 2;
      if keys[mid] <= t {
        SearchBoundary(keys, t, mid + 1, upper);
      } else {
        SearchBoundary(keys, t, lower, mid - 1);
      }
    }
  }

  /** On ascending keys, a boundary is the last key at or before `t`. */
  lemma BoundaryIsLast(keys: seq<int>, t: int, u: int)
    requires Ascending(keys) && Boundary(keys, t, u)
    ensures u == LastAtOrBefore(keys, t)
  {
  }

  /** On ascending keys, the search over all of them finds the last key at
      or before `t`, or -1 when there is none. */
  lemma SearchFindsLast(keys: seq<int>, t: int)
    requires Ascending(keys)
    ensures Search(keys, t, 0, |keys| - 1) == LastAtOrBefore(keys, t)
  {
    SearchBoundary(keys, t, 0, |keys| - 1);
    BoundaryIsLast(keys, t, Search(keys, t, 0, |keys| - 1));
  }

  /*
   * The current revision: one step back into the repeated hour.
   */

  /** The back-off of src/tz.c:361-368, with `upper > 0` tested before
      `timetypes[upper]` is read: with a preference, step back from
      transition `u` to the one before when `u`'s flag differs from the
      preference, the earlier one's matches, and `t` falls before the
      transition on the earlier clock, that is in the hour the transition
      repeats. */
  predicate BackOff(z: Zone, t: int, isdst: int, u: int)
    requires WellFormed(z) && -1 <= u < |z.timevalues|
  {
    isdst >= 0 && u > 0
    && IsdstAt(z, u) != isdst
    && IsdstAt(z, u - 1) == isdst
    && (t - GmtoffAt(z, u)) - z.timevalues[u] < GmtoffAt(z, u - 1) - GmtoffAt(z, u)
  }

  /** The transition index `tz_find` settles on. */
  function FindIndex(z: Zone, t: int, isdst: int, reverse: bool): (u: int)
    requires WellFormed(z)
    ensures -1 <= u < |z.timevalues|
  {
    var u := Search(Keys(z, reverse), t, 0, |z.timevalues| - 1);
    if reverse && BackOff(z, t, isdst, u) then u - 1 else u
  }

  /** The bisection on UTC instants (src/tz.c:344-351). */
  method BisectUtc(z: Zone, t: int) returns (upper: int)
    requires WellFormed(z)
    ensures upper == Search(z.timevalues, t, 0, |z.timevalues| - 1)
  {
    var lower := 0;
    upper := |z.timevalues| - 1;
    while lower <= upper
      invariant 0 <= lower <= upper + 1 <= |z.timevalues|
      invariant Search(z.timevalues, t, lower, upper) == Search(z.timevalues, t, 0, |z.timevalues| - 1)
      decreases upper - lower
    {
      var mid := (lower + upper) / 2;
      if z.timevalues[mid] <= t {
        lower := mid + 1;
      } else {
        upper := mid - 1;
      }
    }
  }

  /** The bisection on local times (src/tz.c:353-360): transition `mid` is
      compared with `t` on the clock it introduces. */
  method BisectLocal(z: Zone, t: int) returns (upper: int)
    requires WellFormed(z)
    ensures upper == Search(LocalKeys(z), t, 0, |z.timevalues| - 1)
  {
    ghost var keys := LocalKeys(z);
    var lower := 0;
    upper := |z.timevalues| - 1;
    while lower <= upper
      invariant 0 <= lower <= upper + 1 <= |z.timevalues|
      invariant Search(keys, t, lower, upper) == Search(keys, t, 0, |z.timevalues| - 1)
      decreases upper - lower
    {
      var mid := (lower + upper) / 2;
      if z.timevalues[mid] <= t - z.types[z.timetypes[mid]].gmtoff {
        lower := mid + 1;
      } else {
        upper := mid - 1;
      }
    }
  }

  /** The type for a found index (src/tz.c:371). */
  method TypeFor(z: Zone, upper: int) returns (r: Option<TType>)
    requires WellFormed(z) && -1 <= upper < |z.timevalues|
    ensures r == TypeResult(z, upper)
  {
    if upper >= 0 {
      r := Some(z.types[z.timetypes[upper]]);
    } else if z.dfltype.Some? {
      r := Some(z.types[z.dfltype.value]);
    } else {
      r := None;
    }
  }

  /** `tz_find` of the current revision. */
  method Find(z: Zone, t: int, isdst: int, reverse: bool) returns (r: Option<TType>)
    requires WellFormed(z)
    ensures r == TypeResult(z, FindIndex(z, t, isdst, reverse))
  {
    var upper;
    if !reverse {
      upper := BisectUtc(z, t);
    } else {
      upper := BisectLocal(z, t);
      if isdst >= 0 && upper > 0
         && z.types[z.timetypes[upper]].isdst != isdst
         && z.types[z.timetypes[upper - 1]].isdst == isdst
         && (t - z.types[z.timetypes[upper]].gmtoff) - z.timevalues[upper]
            < z.types[z.timetypes[upper - 1]].gmtoff - z.types[z.timetypes[upper]].gmtoff
      {
        upper := upper - 1;  // the earlier of the two readings of a repeated hour
      }
    }
    r := TypeFor(z, upper);
  }

  /** Forward lookup: the type of the last transition at or before `t`, or
      the default type when `t` precedes them all or there are none, on
      ascending transitions; on any transitions the index found is a
      boundary. */
  lemma ForwardLookup(z: Zone, t: int, isdst: int)
    requires WellFormed(z)
    ensures Boundary(z.timevalues, t, FindIndex(z, t, isdst, false))
    ensures Ascending(z.timevalues) ==> FindIndex(z, t, isdst, false) == LastAtOrBefore(z.timevalues, t)
  {
    SearchBoundary(z.timevalues, t, 0, |z.timevalues| - 1);
    if Ascending(z.timevalues) {
      SearchFindsLast(z.timevalues, t);
    }
  }

  /** Reverse lookup without a preference: the type of the last transition
      whose local time is at or before `t`, when those local times
      ascend. */
  lemma ReverseLookup(z: Zone, t: int)
    requires WellFormed(z)
    ensures Boundary(LocalKeys(z), t, FindIndex(z, t, -1, true))
    ensures Ascending(LocalKeys(z)) ==> FindIndex(z, t, -1, true) == LastAtOrBefore(LocalKeys(z), t)
  {
    SearchBoundary(LocalKeys(z), t, 0, |z.timevalues| - 1);
    if Ascending(LocalKeys(z)) {
      SearchFindsLast(LocalKeys(z), t);
    }
  }

  /** With a preference, reverse lookup steps back at most one transition,
      and only when `t` lies in the hour the transition repeats: at or
      after the transition on its own clock and before it on the earlier
      clock, with the flags as the preference asks. */
  lemma BackOffOnlyInRepeatedHour(z: Zone, t: int, isdst: int)
    requires WellFormed(z)
    ensures var u := Search(LocalKeys(z), t, 0, |z.timevalues| - 1);
            var v := FindIndex(z, t, isdst, true);
            (v == u || v == u - 1)
            && (v == u - 1 <==>
                  isdst >= 0 && u > 0 && IsdstAt(z, u) != isdst && IsdstAt(z, u - 1) == isdst
                  && z.timevalues[u] + GmtoffAt(z, u) <= t < z.timevalues[u] + GmtoffAt(z, u - 1))
  {
    SearchBoundary(LocalKeys(z), t, 0, |z.timevalues| - 1);
  }

  /** Without a preference the back-off never applies. */
  lemma NoPreferenceNoBackOff(z: Zone, t: int)
    requires WellFormed(z)
    ensures FindIndex(z, t, -1, true) == Search(LocalKeys(z), t, 0, |z.timevalues| - 1)
  {
  }

  /*
   * Reverse lookup against forward lookup.
   */

  /** The offset in force from transition `u` on, or before the first one
      when `u` is -1: that of the type `tz_find` returns for `u`, 0 when
      there is none. */
  function OffsetAfter(z: Zone, u: int): (g: int)
    requires WellFormed(z) && -1 <= u < |z.timevalues|
    ensures u >= 0 ==> g == GmtoffAt(z, u)
  {
    match TypeResult(z, u)
    case Some(tt) => tt.gmtoff
    case None => 0
  }

  /** `t` read on the local clock in force at it. */
  function LocalReading(z: Zone, t: int): int
    requires WellFormed(z)
  {
    t + OffsetAfter(z, FindIndex(z, t, -1, false))
  }

  /** The local reading of `t` comes before the first reading of the next
      transition: `t` is not in the span that a falling offset makes the
      local clock show twice. */
  predicate Unrepeated(z: Zone, t: int)
    requires WellFormed(z)
  {
    var u := FindIndex(z, t, -1, false);
    u + 1 < |z.timevalues| ==> LocalReading(z, t) < LocalKeys(z)[u + 1]
  }

  /** The local reading of `t` is shown again by at most the next
      transition, and only when that transition changes the daylight
      saving flag. */
  predicate RepeatedAcrossFlag(z: Zone, t: int)
    requires WellFormed(z)
  {
    var u := FindIndex(z, t, -1, false);
    (u + 2 < |z.timevalues| ==> LocalReading(z, t) < LocalKeys(z)[u + 2])
    && (!Unrepeated(z, t) ==> u >= 0 && IsdstAt(z, u + 1) != IsdstAt(z, u))
  }

  /** On ascending keys, the search lands on any boundary it is given. */
  lemma SearchLandsOn(keys: seq<int>, t: int, v: int)
    requires Ascending(keys) && Boundary(keys, t, v)
    ensures Search(keys, t, 0, |keys| - 1) == v
  {
    SearchFindsLast(keys, t);
    BoundaryIsLast(keys, t, v);
  }

  /** The transition in force at `t` is at or before `t`'s local reading
      on its own clock. */
  lemma ForwardKeyBelow(z: Zone, t: int)
    requires WellFormed(z)
    ensures var u := FindIndex(z, t, -1, false);
            (u >= 0 ==> LocalKeys(z)[u] <= LocalReading(z, t))
            && (u + 1 < |z.timevalues| ==> t < z.timevalues[u + 1])
  {
    ForwardLookup(z, t, -1);
  }

  /** Outside a repeated span, the reverse search from the local reading
      of `t` lands on the transition in force at `t`. */
  lemma UnrepeatedSearch(z: Zone, t: int)
    requires WellFormed(z) && Ascending(LocalKeys(z)) && Unrepeated(z, t)
    ensures Search(LocalKeys(z), LocalReading(z, t), 0, |z.timevalues| - 1) == FindIndex(z, t, -1, false)
  {
    ForwardKeyBelow(z, t);
    SearchLandsOn(LocalKeys(z), LocalReading(z, t), FindIndex(z, t, -1, false));
  }

  /** In a repeated span, the reverse search from the local reading of `t`
      lands past the transition in force at `t`. */
  lemma RepeatedSearch(z: Zone, t: int)
    requires WellFormed(z) && Ascending(LocalKeys(z)) && !Unrepeated(z, t)
    ensures Search(LocalKeys(z), LocalReading(z, t), 0, |z.timevalues| - 1) > FindIndex(z, t, -1, false)
  {
    var u := FindIndex(z, t, -1, false);
    var keys := LocalKeys(z);
    assert keys[u + 1] <= LocalReading(z, t);
    SearchFindsLast(keys, LocalReading(z, t));
  }

  /** When only the next transition repeats the local reading of `t`, the
      reverse search lands on that transition. */
  lemma FlagSearch(z: Zone, t: int)
    requires WellFormed(z) && Ascending(LocalKeys(z)) && !Unrepeated(z, t) && RepeatedAcrossFlag(z, t)
    ensures Search(LocalKeys(z), LocalReading(z, t), 0, |z.timevalues| - 1) == FindIndex(z, t, -1, false) + 1
  {
    SearchLandsOn(LocalKeys(z), LocalReading(z, t), FindIndex(z, t, -1, false) + 1);
  }

  /** On ascending local keys, reverse lookup without a preference finds
      the transition in force at `t` again from `t`'s local reading
      exactly when that reading is not repeated. */
  lemma ReverseInvertsForward(z: Zone, t: int)
    requires WellFormed(z) && Ascending(LocalKeys(z))
    ensures FindIndex(z, LocalReading(z, t), -1, true) == FindIndex(z, t, -1, false)
            <==> Unrepeated(z, t)
  {
    if Unrepeated(z, t) {
      UnrepeatedSearch(z, t);
    } else {
      RepeatedSearch(z, t);
    }
    NoPreferenceNoBackOff(z, LocalReading(z, t));
  }

  /** The back-off takes the reverse search from the second reading of a
      repeated hour back to the transition in force at `t`, when the
      preference is the flag in force at `t` and the next transition
      changes it. */
  lemma BackOffInRepeat(z: Zone, t: int, isdst: int)
    requires WellFormed(z) && !Unrepeated(z, t) && RepeatedAcrossFlag(z, t)
    requires isdst == IsdstAt(z, FindIndex(z, t, -1, false))
    ensures BackOff(z, LocalReading(z, t), isdst, FindIndex(z, t, -1, false) + 1)
  {
    ForwardKeyBelow(z, t);
  }

  /** In the current revision, the flag in force at `t` given as the
      preference resolves a repeated hour: reverse lookup from `t`'s local
      reading finds the transition in force at `t`, in either reading. */
  lemma PreferenceResolvesRepeat(z: Zone, t: int, isdst: int)
    requires WellFormed(z) && Ascending(LocalKeys(z)) && RepeatedAcrossFlag(z, t)
    requires TypeResult(z, FindIndex(z, t, -1, false)).Some?
    requires isdst == TypeResult(z, FindIndex(z, t, -1, false)).value.isdst
    ensures FindIndex(z, LocalReading(z, t), isdst, true) == FindIndex(z, t, -1, false)
  {
    var u := FindIndex(z, t, -1, false);
    var local := LocalReading(z, t);
    assert Keys(z, true) == LocalKeys(z);
    if Unrepeated(z, t) {
      UnrepeatedSearch(z, t);
      assert !BackOff(z, local, isdst, u);
    } else {
      FlagSearch(z, t);
      BackOffInRepeat(z, t, isdst);
    }
  }

  /** As written, the condition at src/tz.c:361 reads `timetypes[upper]`
      before testing `upper > 0`: the index of its first read whenever a
      preference is given. */
  function BackOffFirstReadAsWritten(z: Zone, t: int, isdst: int): (r: Option<int>)
    requires WellFormed(z)
    ensures r.Some? <==> isdst >= 0
  {
    if isdst >= 0 then Some(Search(LocalKeys(z), t, 0, |z.timevalues| - 1)) else None
  }

  /** With a preference and a local time before every transition (or no
      transitions at all), the condition as written reads `timetypes[-1]`. */
  lemma BackOffReadsBeforeFirst(z: Zone, t: int, isdst: int)
    requires WellFormed(z) && isdst >= 0 && Ascending(LocalKeys(z))
    requires |z.timevalues| == 0 || t < LocalKeys(z)[0]
    ensures BackOffFirstReadAsWritten(z, t, isdst) == Some(-1)
  {
    SearchFindsLast(LocalKeys(z), t);
  }

  /** Every `timetypes` index the guarded condition reads is in range:
      `upper` and `upper - 1` are read only once `upper > 0` holds. The
      corrected condition itself is the one `BackOff` states and `Find`
      evaluates, whose array reads verify only with the guard first. */
  lemma BackOffReadsInRange(z: Zone, t: int, isdst: int)
    requires WellFormed(z)
    ensures var u := Search(LocalKeys(z), t, 0, |z.timevalues| - 1);
            isdst >= 0 && u > 0 ==> 0 <= u - 1 && u < |z.timetypes|
  {
  }

  /*
   * The older revision: walk back to a matching flag.
   */

  /** The nearest transition at or before `u` whose flag is `isdst`, or -1. */
  function MatchBack(z: Zone, u: int, isdst: int): (m: int)
    requires WellFormed(z) && -1 <= u < |z.timevalues|
    ensures -1 <= m <= u
    decreases u + 1
  {
    if u < 0 then -1
    else if IsdstAt(z, u) == isdst then u
    else MatchBack(z, u - 1, isdst)
  }

  /** The walk-back stops at the nearest match, skipping only mismatches. */
  lemma {:induction false} MatchBackSpec(z: Zone, u: int, isdst: int)
    requires WellFormed(z) && -1 <= u < |z.timevalues|
    ensures var m := MatchBack(z, u, isdst);
            (m >= 0 ==> IsdstAt(z, m) == isdst)
            && forall k :: m < k <= u ==> IsdstAt(z, k) != isdst
    decreases u + 1
  {
    if u >= 0 && IsdstAt(z, u) != isdst {
      MatchBackSpec(z, u - 1, isdst);
    }
  }

  /** The transition index the older `tz_find` settles on. */
  function FindIndexLegacy(z: Zone, t: int, isdst: int, reverse: bool): (u: int)
    requires WellFormed(z)
    ensures -1 <= u < |z.timevalues|
  {
    var u := Search(Keys(z, reverse), t, 0, |z.timevalues| - 1);
    if isdst >= 0 then MatchBack(z, u, isdst) else u
  }

  /** `tz_find` of the older revision: the same bisections, then a walk
      back to a transition with the preferred flag. */
  method FindLegacy(z: Zone, t: int, isdst: int, reverse: bool) returns (r: Option<TType>)
    requires WellFormed(z)
    ensures r == TypeResult(z, FindIndexLegacy(z, t, isdst, reverse))
  {
    var u;
    if !reverse {
      u := BisectUtc(z, t);
    } else {
      u := BisectLocal(z, t);
    }
    if isdst >= 0 {
      ghost var found := u;
      while u >= 0 && z.types[z.timetypes[u]].isdst != isdst
        invariant -1 <= u <= found
        invariant MatchBack(z, u, isdst) == MatchBack(z, found, isdst)
        decreases u
      {
        u := u - 1;
      }
    }
    r := TypeFor(z, u);
  }

  /** With a preference, the older revision yields the type of the nearest
      transition at or before the one found whose flag matches; with none
      there, the default type, whose flag need not match. */
  lemma LegacyPreference(z: Zone, t: int, isdst: int, reverse: bool)
    requires WellFormed(z) && isdst >= 0
    ensures var u := Search(Keys(z, reverse), t, 0, |z.timevalues| - 1);
            var m := FindIndexLegacy(z, t, isdst, reverse);
            m <= u
            && (m >= 0 ==> z.types[z.timetypes[m]].isdst == isdst)
            && (forall k :: m < k <= u ==> IsdstAt(z, k) != isdst)
  {
    var u := Search(Keys(z, reverse), t, 0, |z.timevalues| - 1);
    MatchBackSpec(z, u, isdst);
  }

  /** Without a preference both revisions agree. */
  lemma RevisionsAgreeWithoutPreference(z: Zone, t: int, reverse: bool)
    requires WellFormed(z)
    ensures FindIndexLegacy(z, t, -1, reverse) == FindIndex(z, t, -1, reverse)
  {
  }
}
