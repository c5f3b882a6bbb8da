/**
  The meeting-time parser: free text such as `一3,4 二B,C(R101)` becomes a list of
  (day, start period, end period) blocks. The regular-expression passes of the scraper
  are written out as scans over the characters; the index collection and the
  run-length encoding are loops, proved against the functions that specify them.
 */
module TimeParser {
  import opened Wrappers
  import opened Text
  import opened Tables

  /** One meeting block: periods `start..end` (inclusive) on weekday `day` (Monday = 0). */
  datatype Block = Block(day: nat, start: nat, end: nat)

  /** One match of `([一二三四五六日])\s*([0-9A-Z,\-~]+)`: the glyph's day number and the code run. */
  datatype DayMatch = DayMatch(day: nat, codes: string)

  // ---------------------------------------------------------------- the scans

  predicate IsOpener(c: char) { c == '(' || c == '[' }
  predicate IsCloser(c: char) { c == ')' || c == ']' }

  /**
    Where the lazy `.*?[\)\]]` that follows an opener ends: the first closer at or after `j`,
    unless a newline (which `.` does not match) comes first.
   */
  function FindCloser(s: string, j: nat): (r: Option<nat>)
    requires j <= |s|
    ensures r.Some? ==> j <= r.value < |s| && IsCloser(s[r.value])
    ensures r.Some? ==> forall i :: j <= i < r.value ==> s[i] != '\n' && !IsCloser(s[i])
    decreases |s| - j
  {
    if j == |s| || s[j] == '\n' then None
    else if IsCloser(s[j]) then Some(j)
    else FindCloser(s, j + 1)
  }

  /** `re.sub(r'[\(\[].*?[\)\]]', '', s)`: drops each bracketed annotation that closes on its line. */
  function StripAnnotations(s: string): (r: string)
    ensures forall i :: 0 <= i < |r| ==> r[i] in s
    decreases |s|
  {
    if s == [] then []
    else if IsOpener(s[0]) && FindCloser(s, 1).Some? then
      var rest := StripAnnotations(s[FindCloser(s, 1).value + 1..]);
      assert forall i :: 0 <= i < |rest| ==> rest[i] in s;
      rest
    else
      var rest := StripAnnotations(s[1..]);
      assert forall i :: 0 <= i < |rest| ==> rest[i] in s;
      [s[0]] + rest
  }

  predicate InLocation(c: char) { !IsSpace(c) && c != ',' }

  /** `re.sub(r'\/[^\s,]+', '', s)`: drops each `/location` suffix up to whitespace or a comma. */
  function StripLocations(s: string): (r: string)
    ensures forall i :: 0 <= i < |r| ==> r[i] in s
    decreases |s|
  {
    if s == [] then []
    else if s[0] == '/' && RunLength(s[1..], InLocation) > 0 then
      var rest := StripLocations(s[1 + RunLength(s[1..], InLocation)..]);
      assert forall i :: 0 <= i < |rest| ==> rest[i] in s;
      rest
    else
      var rest := StripLocations(s[1..]);
      assert forall i :: 0 <= i < |rest| ==> rest[i] in s;
      [s[0]] + rest
  }

  /** The character class `[0-9A-Z,\-~]`. */
  predicate IsCodeChar(c: char) {
    ('0' <= c <= '9') || ('A' <= c <= 'Z') || c == ',' || c == '-' || c == '~'
  }

  /** A match as the regex produces it: a weekday and a non-empty run of code characters. */
  predicate WellFormedMatch(m: DayMatch) {
    m.day <= 6 && m.codes != [] && forall i :: 0 <= i < |m.codes| ==> IsCodeChar(m.codes[i])
  }

  /**
    The regex tried at the start of `s`: the glyph, greedy whitespace and the greedy code run,
    with the position where the match ends. A run of whitespace never holds a code character,
    so giving whitespace back cannot help and the greedy split is the only one that matches.
   */
  function MatchHere(s: string): (r: Option<(DayMatch, nat)>)
    requires s != []
    ensures r.Some? ==> WellFormedMatch(r.value.0) && 0 < r.value.1 <= |s|
    ensures r.Some? ==> DayIndex(s[0]) == Some(r.value.0.day)
  {
    match DayIndex(s[0])
    case None => None
    case Some(d) =>
      DayIndexRange(s[0], s[0]);
      var q := 1 + RunLength(s[1..], IsSpace);
      var n := RunLength(s[q..], IsCodeChar);
      if n == 0 then None else Some((DayMatch(d, s[q..q + n]), q + n))
  }

  /**
    `re.finditer(r'([一二三四五六日])\s*([0-9A-Z,\-~]+)', s)`: matches are tried left to right and
    the scan resumes after each match. Only glyphs of the weekday dictionary can start a match,
    so every match has a day.
   */
  function DayMatches(s: string): (ms: seq<DayMatch>)
    ensures forall i :: 0 <= i < |ms| ==> WellFormedMatch(ms[i])
    ensures (forall i :: 0 <= i < |s| ==> DayIndex(s[i]).None?) ==> ms == []
    decreases |s|
  {
    if s == [] then []
    else match MatchHere(s)
      case None => DayMatches(s[1..])
      case Some((m, k)) => [m] + DayMatches(s[k..])
  }

  /** A weekday glyph at `p` can start a match: after it and any whitespace comes a code character. */
  predicate StartsMatch(s: string, p: nat) {
    p < |s| && DayIndex(s[p]).Some? &&
    var q := p + 1 + RunLength(s[p + 1..], IsSpace);
    q < |s| && IsCodeChar(s[q])
  }

  /**
    `m` is the match spanning `s[p..e]`: the glyph of its day, whitespace, and its codes, which
    run up to a character that is not a code character (or the end).
   */
  predicate MatchSpans(s: string, m: DayMatch, p: nat, e: nat) {
    p + 1 + |m.codes| <= e <= |s| && m.codes != []
    && DayIndex(s[p]) == Some(m.day)
    && AllSpace(s[p + 1..e - |m.codes|])
    && s[e - |m.codes|..e] == m.codes
    && (e < |s| ==> !IsCodeChar(s[e]))
  }

  /**
    The matches `ms` sit at the spans `pos` of `s`, in text order and without overlap, and every
    position where a match could start lies inside one of them: the `finditer` scan.
   */
  ghost predicate Located(s: string, ms: seq<DayMatch>, pos: seq<(nat, nat)>) {
    && |pos| == |ms|
    && (forall i :: 0 <= i < |ms| ==> MatchSpans(s, ms[i], pos[i].0, pos[i].1))
    && (forall i, j :: 0 <= i < j < |ms| ==> pos[i].1 <= pos[j].0)
    && (forall p: nat :: StartsMatch(s, p) ==> exists i :: 0 <= i < |ms| && pos[i].0 <= p < pos[i].1)
  }

  /** Spans moved `k` characters to the right. */
  function Shift(pos: seq<(nat, nat)>, k: nat): (r: seq<(nat, nat)>)
    ensures |r| == |pos|
    ensures forall i :: 0 <= i < |pos| ==> r[i] == (pos[i].0 + k, pos[i].1 + k)
  {
    seq(|pos|, i requires 0 <= i < |pos| => (pos[i].0 + k, pos[i].1 + k))
  }

  /** A match found in a suffix is a match at the shifted position of the whole text. */
  lemma SpansShift(s: string, k: nat, m: DayMatch, p: nat, e: nat)
    requires k <= |s| && MatchSpans(s[k..], m, p, e)
    ensures MatchSpans(s, m, p + k, e + k)
  {
    assert s[k..][p] == s[p + k];
    assert s[k..][p + 1..e - |m.codes|] == s[p + k + 1..e + k - |m.codes|];
    assert s[k..][e - |m.codes|..e] == s[e + k - |m.codes|..e + k];
    if e + k < |s| { assert s[k..][e] == s[e + k]; }
  }

  /** Where a match can start in the whole text, it can start in a suffix holding that position. */
  lemma StartsShift(s: string, k: nat, p: nat)
    requires k <= p && StartsMatch(s, p)
    ensures StartsMatch(s[k..], p - k)
  {
    assert s[k..][p - k] == s[p];
    assert s[k..][p - k + 1..] == s[p + 1..];
  }

  /** The suffix `s[k..]` located at `pos` gives `s` located at `Shift(pos, k)`, for matches at or after `k`. */
  lemma LocatedShift(s: string, k: nat, ms: seq<DayMatch>, pos: seq<(nat, nat)>)
    requires k <= |s| && Located(s[k..], ms, pos)
    ensures forall i :: 0 <= i < |ms| ==> k <= Shift(pos, k)[i].0
    ensures forall i :: 0 <= i < |ms| ==> MatchSpans(s, ms[i], Shift(pos, k)[i].0, Shift(pos, k)[i].1)
    ensures forall i, j :: 0 <= i < j < |ms| ==> Shift(pos, k)[i].1 <= Shift(pos, k)[j].0
    ensures forall p: nat :: k <= p && StartsMatch(s, p) ==>
      exists i :: 0 <= i < |ms| && Shift(pos, k)[i].0 <= p < Shift(pos, k)[i].1
  {
    var r := Shift(pos, k);
    forall i | 0 <= i < |ms| ensures MatchSpans(s, ms[i], r[i].0, r[i].1) {
      SpansShift(s, k, ms[i], pos[i].0, pos[i].1);
    }
    forall p: nat | k <= p && StartsMatch(s, p)
      ensures exists i :: 0 <= i < |ms| && r[i].0 <= p < r[i].1
    {
      StartsShift(s, k, p);
      var i :| 0 <= i < |ms| && pos[i].0 <= p - k < pos[i].1;
      assert r[i].0 <= p < r[i].1;
    }
  }

  /** Where no match can start at the first character, the scan moves on by one. */
  lemma LocatedSkip(s: string, ms: seq<DayMatch>, pos: seq<(nat, nat)>)
    requires s != [] && !StartsMatch(s, 0) && Located(s[1..], ms, pos)
    ensures Located(s, ms, Shift(pos, 1))
  {
    LocatedShift(s, 1, ms, pos);
  }

  /** A match spanning `s[..k]` is followed by the matches of `s[k..]`. */
  lemma LocatedTake(s: string, m: DayMatch, k: nat, ms: seq<DayMatch>, pos: seq<(nat, nat)>)
    requires 0 < k <= |s| && MatchSpans(s, m, 0, k) && Located(s[k..], ms, pos)
    ensures Located(s, [m] + ms, [(0, k)] + Shift(pos, k))
  {
    LocatedShift(s, k, ms, pos);
    TakeSpans(s, m, k, ms, Shift(pos, k));
    TakeOrdered(k, Shift(pos, k));
    TakeComplete(s, k, Shift(pos, k));
  }

  lemma TakeSpans(s: string, m: DayMatch, k: nat, ms: seq<DayMatch>, tail: seq<(nat, nat)>)
    requires MatchSpans(s, m, 0, k) && |tail| == |ms|
    requires forall i :: 0 <= i < |ms| ==> MatchSpans(s, ms[i], tail[i].0, tail[i].1)
    ensures forall i :: 0 <= i < |ms| + 1 ==>
      MatchSpans(s, ([m] + ms)[i], ([(0, k)] + tail)[i].0, ([(0, k)] + tail)[i].1)
  {
    forall i | 0 < i < |ms| + 1
      ensures MatchSpans(s, ([m] + ms)[i], ([(0, k)] + tail)[i].0, ([(0, k)] + tail)[i].1)
    {
      assert ([m] + ms)[i] == ms[i - 1] && ([(0, k)] + tail)[i] == tail[i - 1];
    }
  }

  lemma TakeOrdered(k: nat, tail: seq<(nat, nat)>)
    requires forall i :: 0 <= i < |tail| ==> k <= tail[i].0
    requires forall i, j :: 0 <= i < j < |tail| ==> tail[i].1 <= tail[j].0
    ensures forall i, j :: 0 <= i < j < |tail| + 1 ==> ([(0, k)] + tail)[i].1 <= ([(0, k)] + tail)[j].0
  {
    var all := [(0, k)] + tail;
    forall i, j | 0 <= i < j < |all| ensures all[i].1 <= all[j].0 {
      assert all[j] == tail[j - 1];
      if i > 0 { assert all[i] == tail[i - 1]; }
    }
  }

  lemma TakeComplete(s: string, k: nat, tail: seq<(nat, nat)>)
    requires forall p: nat :: k <= p && StartsMatch(s, p) ==> exists i :: 0 <= i < |tail| && tail[i].0 <= p < tail[i].1
    ensures forall p: nat :: StartsMatch(s, p) ==>
      exists i :: 0 <= i < |tail| + 1 && ([(0, k)] + tail)[i].0 <= p < ([(0, k)] + tail)[i].1
  {
    var all := [(0, k)] + tail;
    forall p: nat | StartsMatch(s, p) ensures exists i :: 0 <= i < |all| && all[i].0 <= p < all[i].1 {
      if p < k { assert all[0].0 <= p < all[0].1; }
      else {
        var i :| 0 <= i < |tail| && tail[i].0 <= p < tail[i].1;
        assert all[i + 1] == tail[i];
      }
    }
  }

  /** Where `MatchHere` finds nothing no match can start; where it finds one, that is the match spanning `s[..k]`. */
  lemma MatchHereSpans(s: string)
    requires s != []
    ensures MatchHere(s).None? ==> !StartsMatch(s, 0)
    ensures MatchHere(s).Some? ==> MatchSpans(s, MatchHere(s).value.0, 0, MatchHere(s).value.1)
  {
    if MatchHere(s).Some? {
      var q := 1 + RunLength(s[1..], IsSpace);
      var k := MatchHere(s).value.1;
      assert AllSpace(s[1..q]) by {
        forall i | 0 <= i < q - 1 ensures IsSpace(s[1..q][i]) { assert s[1..q][i] == s[1..][i]; }
      }
      assert s[q..k][0] == s[q..][0];
      if k < |s| { assert s[k] == s[q..][k - q]; }
    }
  }

  /**
    `DayMatches` is the `finditer` scan: its matches are the glyph-whitespace-codes spans of the
    text, left to right and without overlap, and no place where a match could start is skipped.
   */
  lemma {:induction false} DayMatchesLocated(s: string)
    ensures exists pos :: Located(s, DayMatches(s), pos)
    decreases |s|
  {
    if s == [] {
      assert forall p: nat :: !StartsMatch(s, p);
      assert Located(s, DayMatches(s), []);
    } else if MatchHere(s).None? {
      MatchHereSpans(s);
      assert DayMatches(s) == DayMatches(s[1..]);
      DayMatchesLocated(s[1..]);
      var pos :| Located(s[1..], DayMatches(s[1..]), pos);
      LocatedSkip(s, DayMatches(s[1..]), pos);
      assert Located(s, DayMatches(s), Shift(pos, 1));
    } else {
      var m, k := MatchHere(s).value.0, MatchHere(s).value.1;
      MatchHereSpans(s);
      assert DayMatches(s) == [m] + DayMatches(s[k..]);
      DayMatchesLocated(s[k..]);
      var pos :| Located(s[k..], DayMatches(s[k..]), pos);
      LocatedTake(s, m, k, DayMatches(s[k..]), pos);
      assert Located(s, DayMatches(s), [(0, k)] + Shift(pos, k));
    }
  }

  // ---------------------------------------------------------------- decoding period codes

  const RangeSeps: set<char> := {'-', '~'}

  /** `t in PERIOD_MAP`: only a one-character string can be a period code. */
  function PeriodCode(t: string): (r: Option<nat>)
    ensures r.Some? ==> r.value < NumPeriods
    ensures r.Some? <==> |t| == 1 && t[0] in Periods
    ensures r.Some? ==> Periods[r.value] == t[0]
  {
    if |t| == 1 then
      PeriodIndexDefined(t[0]);
      if PeriodIndex(t[0]).Some? then PeriodIndexInverse(t[0], PeriodIndex(t[0]).value); PeriodIndex(t[0])
      else None
    else None
  }

  function Min(a: nat, b: nat): nat { if a <= b then a else b }
  function Max(a: nat, b: nat): nat { if a <= b then b else a }

  /** Whether a part is a range, i.e. contains `-` or `~`. */
  predicate IsRange(part: string) {
    '-' in part || '~' in part
  }

  /**
    The two endpoints of a range part (`s, e = part.split(...)` keeps the first two pieces),
    when both are period codes.
   */
  function RangeEnds(part: string): (r: Option<(nat, nat)>)
    ensures r.Some? ==> r.value.0 < NumPeriods && r.value.1 < NumPeriods
    ensures r.Some? <==> var b := Split(part, RangeSeps);
      |b| >= 2 && |b[0]| == 1 && b[0][0] in Periods && |b[1]| == 1 && b[1][0] in Periods
    ensures r.Some? ==> Periods[r.value.0] == Split(part, RangeSeps)[0][0]
    ensures r.Some? ==> Periods[r.value.1] == Split(part, RangeSeps)[1][0]
  {
    var b := Split(part, RangeSeps);
    if |b| >= 2 && PeriodCode(b[0]).Some? && PeriodCode(b[1]).Some? then
      Some((PeriodCode(b[0]).value, PeriodCode(b[1]).value))
    else None
  }

  /** Some character of `part` is the period code with index `k`. */
  predicate HasCode(part: string, k: nat) {
    exists i :: 0 <= i < |part| && PeriodIndex(part[i]) == Some(k)
  }

  /**
    Whether one comma-separated part yields period index `k`. A range yields every index
    between its first two endpoints, whichever order they are in, and nothing unless both are
    period codes; any other part yields the index of each of its characters that is a code.
   */
  predicate PartYields(part: string, k: nat) {
    if IsRange(part) then
      RangeEnds(part).Some? && Min(RangeEnds(part).value.0, RangeEnds(part).value.1) <= k <= Max(RangeEnds(part).value.0, RangeEnds(part).value.1)
    else HasCode(part, k)
  }

  const CommaSep: set<char> := {','}

  /** One of the first `n` comma parts yields `k`. */
  predicate SomePartYields(parts: seq<string>, n: nat, k: nat)
    requires n <= |parts|
  {
    exists i :: 0 <= i < n && PartYields(Strip(parts[i]), k)
  }

  /** Whether the code run of a match yields period index `k` through one of its comma parts. */
  predicate Yields(codes: string, k: nat) {
    var parts := Split(codes, CommaSep);
    SomePartYields(parts, |parts|, k)
  }

  /** Only indices on the period scale are ever yielded. */
  lemma YieldsOnScale(codes: string, k: nat)
    requires Yields(codes, k)
    ensures k < NumPeriods
  {
    var parts := Split(codes, CommaSep);
    var i :| 0 <= i < |parts| && PartYields(Strip(parts[i]), k);
    PartYieldsOnScale(Strip(parts[i]), k);
  }

  /** A single comma part yields only indices on the period scale. */
  lemma PartYieldsOnScale(part: string, k: nat)
    requires PartYields(part, k)
    ensures k < NumPeriods
  {
    if IsRange(part) {
      var ends := RangeEnds(part).value;
      assert ends.0 < NumPeriods && ends.1 < NumPeriods;
    } else {
      assert HasCode(part, k);
      var j :| 0 <= j < |part| && PeriodIndex(part[j]) == Some(k);
      PeriodIndexInverse(part[j], k);
    }
  }

  /** The set of period indices the code run of a match decodes to. */
  function PeriodSet(codes: string): (ks: set<nat>)
    ensures forall k :: k in ks <==> Yields(codes, k)
  {
    forall k: nat | Yields(codes, k) ensures k < NumPeriods { YieldsOnScale(codes, k); }
    set k: nat | k < NumPeriods && Yields(codes, k)
  }

  /** What one comma part appends to `indices` (main.py:124-132): exactly the indices it yields. */
  method DecodePart(part: string) returns (ks: seq<nat>)
    ensures forall k: nat :: k in ks <==> PartYields(part, k)
  {
    ks := [];
    if IsRange(part) {
      var b := Split(part, RangeSeps);
      if |b| >= 2 && PeriodCode(b[0]).Some? && PeriodCode(b[1]).Some? {
        var s, e := PeriodCode(b[0]).value, PeriodCode(b[1]).value;
        assert RangeEnds(part) == Some((s, e));
        ks := RangeIndices(s, e);
      } else {
        assert RangeEnds(part).None?;
      }
    } else {
      ks := CodeIndices(part);
    }
  }

  /** The `range(min, max + 1)` loop of a range part: every index between the two ends. */
  method RangeIndices(s: nat, e: nat) returns (ks: seq<nat>)
    ensures forall x: nat :: x in ks <==> Min(s, e) <= x <= Max(s, e)
  {
    ks := [];
    for k := Min(s, e) to Max(s, e) + 1
      invariant forall x: nat :: x in ks <==> Min(s, e) <= x < k
    {
      ks := ks + [k];
    }
  }

  /** The character loop of any other part: the index of each character that is a code. */
  method CodeIndices(part: string) returns (ks: seq<nat>)
    ensures forall x: nat :: x in ks <==> HasCode(part, x)
  {
    ks := [];
    for m := 0 to |part|
      invariant forall x: nat :: x in ks <==> exists i :: 0 <= i < m && PeriodIndex(part[i]) == Some(x)
    {
      if PeriodIndex(part[m]).Some? {
        ks := ks + [PeriodIndex(part[m]).value];
      }
    }
  }

  /**
    The `indices` list of one match (main.py:122-132), built part by part. It holds an index
    exactly when some part yields it; the list may repeat indices, as the source's does.
   */
  method DecodePeriodList(codes: string) returns (indices: seq<nat>)
    ensures forall k: nat :: k in indices <==> Yields(codes, k)
  {
    indices := [];
    var parts := Split(codes, CommaSep);
    for j := 0 to |parts|
      invariant forall k: nat :: k in indices <==> SomePartYields(parts, j, k)
    {
      var ks := DecodePart(Strip(parts[j]));
      forall k: nat ensures k in indices + ks <==> SomePartYields(parts, j + 1, k) {
        assert k in indices + ks <==> k in indices || k in ks;
        if PartYields(Strip(parts[j]), k) { assert SomePartYields(parts, j + 1, k); }
        if SomePartYields(parts, j + 1, k) {
          var i :| 0 <= i < j + 1 && PartYields(Strip(parts[i]), k);
          if i < j { assert SomePartYields(parts, j, k); }
        }
        if SomePartYields(parts, j, k) {
          var i :| 0 <= i < j && PartYields(Strip(parts[i]), k);
          assert SomePartYields(parts, j + 1, k);
        }
      }
      indices := indices + ks;
    }
  }

  // ---------------------------------------------------------------- sorting and run-length encoding

  /** Strictly ascending: sorted and without duplicates. */
  predicate Increasing(xs: seq<nat>) {
    forall i, j :: 0 <= i < j < |xs| ==> xs[i] < xs[j]
  }

  /** The members of `ks` from `lo` up to the end of the period scale, in ascending order. */
  function AscendingFrom(ks: set<nat>, lo: nat): (r: seq<nat>)
    requires lo <= NumPeriods
    ensures Increasing(r)
    ensures forall i :: 0 <= i < |r| ==> lo <= r[i]
    ensures forall k :: k in r <==> k in ks && lo <= k < NumPeriods
    decreases NumPeriods - lo
  {
    if lo == NumPeriods then []
    else if lo in ks then [lo] + AscendingFrom(ks, lo + 1)
    else AscendingFrom(ks, lo + 1)
  }

  /** `sorted(list(set(indices)))` for indices on the period scale. */
  function SortedIndices(ks: set<nat>): (r: seq<nat>)
    requires forall k :: k in ks ==> k < NumPeriods
    ensures Increasing(r)
    ensures forall k :: k in r <==> k in ks
  {
    AscendingFrom(ks, 0)
  }

  /** Period `k` lies inside one of the blocks. */
  predicate Covered(bs: seq<Block>, k: nat) {
    exists i :: 0 <= i < |bs| && bs[i].start <= k <= bs[i].end
  }

  /**
    `bs` is the maximal-run decomposition of the index list `xs` on weekday `day`: every block
    is a non-empty interval of that day, blocks ascend and no two touch or overlap (so none
    could be merged), and together they cover exactly the indices of `xs`.
   */
  ghost predicate MaximalRuns(day: nat, xs: seq<nat>, bs: seq<Block>) {
    && (forall i :: 0 <= i < |bs| ==> bs[i].day == day && bs[i].start <= bs[i].end)
    && (forall i, j :: 0 <= i < j < |bs| ==> bs[i].end + 1 < bs[j].start)
    && (forall k :: k in xs <==> Covered(bs, k))
  }

  /** The encoding of `rest`, with a block that started at `s` and has reached `p` still open. */
  function RunsFrom(day: nat, s: nat, p: nat, rest: seq<nat>): seq<Block>
    decreases |rest|
  {
    if rest == [] then [Block(day, s, p)]
    else if rest[0] == p + 1 then RunsFrom(day, s, rest[0], rest[1..])
    else [Block(day, s, p)] + RunsFrom(day, rest[0], rest[0], rest[1..])
  }

  /** The run-length encoding of an index list into blocks on weekday `day`. */
  function Runs(day: nat, xs: seq<nat>): seq<Block> {
    if xs == [] then [] else RunsFrom(day, xs[0], xs[0], xs[1..])
  }

  /**
    `bs` encodes an open block from `s` to `p` followed by the ascending indices `rest`: its
    first block starts at `s`, its blocks are separated intervals of `day`, and they cover
    exactly `s..p` and `rest`.
   */
  ghost predicate EncodesFrom(day: nat, s: nat, p: nat, rest: seq<nat>, bs: seq<Block>) {
    && bs != [] && bs[0].start == s
    && (forall i :: 0 <= i < |bs| ==> bs[i].day == day && bs[i].start <= bs[i].end)
    && (forall i, j :: 0 <= i < j < |bs| ==> bs[i].end + 1 < bs[j].start)
    && (forall k: nat :: (s <= k <= p || k in rest) <==> Covered(bs, k))
  }

  lemma {:induction false} RunsFromMaximal(day: nat, s: nat, p: nat, rest: seq<nat>)
    requires s <= p && Increasing(rest) && (rest != [] ==> p < rest[0])
    ensures EncodesFrom(day, s, p, rest, RunsFrom(day, s, p, rest))
    decreases |rest|
  {
    if rest != [] {
      var next := rest[0];
      assert Increasing(rest[1..]);
      assert rest[1..] != [] ==> next < rest[1..][0];
      assert forall k :: k in rest <==> k == next || k in rest[1..] by {
        assert rest == [next] + rest[1..];
      }
      if next == p + 1 {
        RunsFromMaximal(day, s, next, rest[1..]);
      } else {
        RunsFromMaximal(day, next, next, rest[1..]);
        PrependBlock(day, s, p, rest, RunsFrom(day, next, next, rest[1..]));
      }
    }
  }

  /** A block that ends more than one before the next index goes in front, separate. */
  lemma PrependBlock(day: nat, s: nat, p: nat, rest: seq<nat>, tail: seq<Block>)
    requires s <= p && rest != [] && p + 1 < rest[0]
    requires forall k :: k in rest <==> k == rest[0] || k in rest[1..]
    requires EncodesFrom(day, rest[0], rest[0], rest[1..], tail)
    ensures EncodesFrom(day, s, p, rest, [Block(day, s, p)] + tail)
  {
    var bs := [Block(day, s, p)] + tail;
    forall i, j | 0 <= i < j < |bs| ensures bs[i].end + 1 < bs[j].start {
      if i == 0 && j > 1 { assert tail[0].end + 1 < tail[j - 1].start; }
    }
    forall k: nat ensures (s <= k <= p || k in rest) <==> Covered(bs, k) {
      if Covered(tail, k) {
        var i :| 0 <= i < |tail| && tail[i].start <= k <= tail[i].end;
        assert bs[i + 1] == tail[i];
      }
      if Covered(bs, k) {
        var i :| 0 <= i < |bs| && bs[i].start <= k <= bs[i].end;
        if i > 0 { assert tail[i - 1] == bs[i]; }
      }
      if s <= k <= p { assert bs[0].start <= k <= bs[0].end; }
      if k == rest[0] { assert tail[0].start <= k; }
    }
  }

  /** Run-length encoding a strictly ascending list gives its maximal-run decomposition. */
  lemma RunsMaximal(day: nat, xs: seq<nat>)
    requires Increasing(xs)
    ensures MaximalRuns(day, xs, Runs(day, xs))
  {
    if xs != [] {
      assert Increasing(xs[1..]);
      assert xs[1..] != [] ==> xs[0] < xs[1..][0];
      RunsFromMaximal(day, xs[0], xs[0], xs[1..]);
      assert forall k :: k in xs <==> k == xs[0] || k in xs[1..] by {
        assert xs == [xs[0]] + xs[1..];
      }
    }
  }

  /**
    The closing loop of one match (main.py:134-141): a linear scan that keeps the start `s`
    and the last index `p` of the open block and closes it at every gap.
   */
  method EncodeRuns(day: nat, indices: seq<nat>) returns (blocks: seq<Block>)
    ensures blocks == Runs(day, indices)
    ensures Increasing(indices) ==> MaximalRuns(day, indices, blocks)
  {
    blocks := [];
    if |indices| > 0 {
      var s, p := indices[0], indices[0];
      for i := 1 to |indices|
        invariant blocks + RunsFrom(day, s, p, indices[i..]) == Runs(day, indices)
      {
        assert indices[i..][0] == indices[i] && indices[i..][1..] == indices[i + 1..];
        if indices[i] == p + 1 {
          p := indices[i];
        } else {
          blocks := blocks + [Block(day, s, p)];
          s, p := indices[i], indices[i];
        }
      }
      blocks := blocks + [Block(day, s, p)];
    }
    if Increasing(indices) { RunsMaximal(day, indices); }
  }

  // ---------------------------------------------------------------- the whole parser

  /** The blocks one match contributes: its decoded indices, sorted, deduplicated and encoded. */
  function MatchBlocks(m: DayMatch): seq<Block> {
    Runs(m.day, SortedIndices(PeriodSet(m.codes)))
  }

  /** The blocks of the matches in order; each match is encoded on its own. */
  function AllBlocks(ms: seq<DayMatch>): seq<Block>
    decreases |ms|
  {
    if ms == [] then [] else AllBlocks(ms[..|ms| - 1]) + MatchBlocks(ms[|ms| - 1])
  }

  /** The text the match loop scans: annotations and location suffixes removed. */
  function CleanTimeText(text: string): string {
    StripLocations(StripAnnotations(text))
  }

  /** The parser's result: nothing for empty text or `未定`, else the blocks of every match. */
  function TimeBlocks(text: string): seq<Block> {
    if text == [] || Strip(text) == "未定" then []
    else AllBlocks(DayMatches(CleanTimeText(text)))
  }

  /** The blocks one match appends: its indices collected, sorted, deduplicated and encoded. */
  method EncodeMatch(m: DayMatch) returns (blocks: seq<Block>)
    ensures blocks == MatchBlocks(m)
  {
    var indices := DecodePeriodList(m.codes);
    var distinct := set k | k in indices;
    assert distinct == PeriodSet(m.codes) by {
      forall k: nat ensures k in distinct <==> k in PeriodSet(m.codes) {
        assert k in distinct <==> k in indices;
      }
    }
    var sorted := SortedIndices(distinct);
    blocks := EncodeRuns(m.day, sorted);
  }

  /** `parse_time_string`, with the loop over the matches of the day regex. */
  method ParseTimeString(text: string) returns (blocks: seq<Block>)
    ensures blocks == TimeBlocks(text)
  {
    if text == [] || Strip(text) == "未定" {
      return [];
    }
    var matches := DayMatches(CleanTimeText(text));
    blocks := [];
    for i := 0 to |matches|
      invariant blocks == AllBlocks(matches[..i])
    {
      var b := EncodeMatch(matches[i]);
      ghost var done := matches[..i + 1];
      assert done[..|done| - 1] == matches[..i] && done[|done| - 1] == matches[i];
      blocks := blocks + b;
    }
    assert matches[..|matches|] == matches;
  }

  // ---------------------------------------------------------------- properties

  /** The blocks of one match are the maximal runs of exactly the indices its parts yield. */
  lemma MatchBlocksExact(m: DayMatch)
    ensures var bs := MatchBlocks(m);
      && (forall i :: 0 <= i < |bs| ==> bs[i].day == m.day && bs[i].start <= bs[i].end)
      && (forall i, j :: 0 <= i < j < |bs| ==> bs[i].end + 1 < bs[j].start)
      && (forall k :: Covered(bs, k) <==> Yields(m.codes, k))
  {
    RunsMaximal(m.day, SortedIndices(PeriodSet(m.codes)));
  }

  /** Every block of every match names a weekday 0..6 and a non-empty stretch of the 14 periods. */
  lemma {:induction false} AllBlocksInRange(ms: seq<DayMatch>)
    requires forall i :: 0 <= i < |ms| ==> WellFormedMatch(ms[i])
    ensures forall b :: b in AllBlocks(ms) ==> b.day <= 6 && b.start <= b.end < NumPeriods
    decreases |ms|
  {
    if ms != [] {
      var m := ms[|ms| - 1];
      AllBlocksInRange(ms[..|ms| - 1]);
      MatchBlocksExact(m);
      var bs := MatchBlocks(m);
      forall b | b in bs ensures b.day <= 6 && b.start <= b.end < NumPeriods {
        var i :| 0 <= i < |bs| && bs[i] == b;
        assert Covered(bs, b.end);
        YieldsOnScale(m.codes, b.end);
      }
    }
  }

  /** Every block of a parsed time string names a weekday 0..6 and a stretch of the 14 periods. */
  lemma TimeBlocksInRange(text: string)
    ensures forall b :: b in TimeBlocks(text) ==> b.day <= 6 && b.start <= b.end < NumPeriods
  {
    if !(text == [] || Strip(text) == "未定") {
      AllBlocksInRange(DayMatches(CleanTimeText(text)));
    }
  }

  /** Text without any weekday glyph parses to no blocks, whatever else it holds. */
  lemma NoDayNoBlocks(text: string)
    requires forall i :: 0 <= i < |text| ==> DayIndex(text[i]).None?
    ensures TimeBlocks(text) == []
  {
    var clean := CleanTimeText(text);
    var inner := StripAnnotations(text);
    assert forall i :: 0 <= i < |inner| ==> DayIndex(inner[i]).None?;
    assert forall i :: 0 <= i < |clean| ==> DayIndex(clean[i]).None?;
  }
}
