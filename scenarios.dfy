/** Worked inputs for the meeting-time parser, evaluated through the model's definitions. */
module Scenarios {
  import opened Wrappers
  import opened Text
  import opened Tables
  import opened TimeParser

  // ---------------------------------------------------------------- stepping lemmas

  /** Every character of the stripped text comes from the text. */
  lemma StripFrom(s: string)
    ensures forall j :: 0 <= j < |Strip(s)| ==> Strip(s)[j] in s
  {
    StripIsSlice(s);
    var r := Strip(s);
    var i :| OccursAt(s, r, i) && AllSpace(s[..i]) && AllSpace(s[i + |r|..]);
    forall j | 0 <= j < |r| ensures r[j] in s { assert r[j] == s[i + j]; }
  }

  /** Text that does not mention `未` is never the `未定` sentinel. */
  lemma NotUnscheduled(s: string)
    requires '未' !in s
    ensures Strip(s) != "未定"
  {
    StripFrom(s);
    assert "未定"[0] == '未';
  }

  /** Splitting a string that starts with one character. */
  lemma SplitCons(c: char, t: string, seps: set<char>)
    ensures Split([c] + t, seps) ==
      if c in seps then [[]] + Split(t, seps) else [[c] + Split(t, seps)[0]] + Split(t, seps)[1..]
  {
    assert ([c] + t)[1..] == t;
  }

  /** Text without an opening bracket passes the annotation scan unchanged. */
  lemma {:induction false} PlainAnnotations(a: string, b: string)
    requires forall i :: 0 <= i < |a| ==> !IsOpener(a[i])
    ensures StripAnnotations(a + b) == a + StripAnnotations(b)
    decreases |a|
  {
    if a != [] {
      var s := a + b;
      assert s[0] == a[0] && s[1..] == a[1..] + b;
      assert !IsOpener(s[0]);
      PlainAnnotations(a[1..], b);
      assert StripAnnotations(s) == [s[0]] + StripAnnotations(s[1..]);
      assert a == [a[0]] + a[1..];
      assert [a[0]] + (a[1..] + StripAnnotations(b)) == a + StripAnnotations(b);
    } else {
      assert a + b == b;
    }
  }

  /** Text without a slash passes the location scan unchanged. */
  lemma {:induction false} PlainLocations(a: string)
    requires '/' !in a
    ensures StripLocations(a) == a
    decreases |a|
  {
    if a != [] {
      PlainLocations(a[1..]);
    }
  }

  /** A character that is not a weekday glyph starts no match. */
  lemma MatchSkip(c: char, t: string)
    requires DayIndex(c).None?
    ensures DayMatches([c] + t) == DayMatches(t)
  {
    assert ([c] + t)[1..] == t;
  }

  /** A glyph directly followed by a maximal run of code characters is one match. */
  lemma MatchTake(g: char, codes: string, t: string)
    requires DayIndex(g).Some? && codes != [] && forall i :: 0 <= i < |codes| ==> IsCodeChar(codes[i])
    requires t == [] || !IsCodeChar(t[0])
    ensures DayMatches([g] + codes + t) == [DayMatch(DayIndex(g).value, codes)] + DayMatches(t)
  {
    var s := [g] + codes + t;
    assert s[1..] == codes + t;
    assert !IsSpace(codes[0]);
    assert RunLength(s[1..], IsSpace) == 0;
    RunLengthOfPrefix(codes, t, IsCodeChar);
    assert (codes + t)[..|codes|] == codes && (codes + t)[|codes|..] == t;
  }

  /** Strictly ascending naturals climb at least one per position. */
  lemma {:induction false} IncreasingSpread(r: seq<nat>, k: nat)
    requires Increasing(r) && k < |r|
    ensures r[0] + k <= r[k]
  {
    if k > 0 {
      IncreasingSpread(r, k - 1);
      assert r[k - 1] < r[k];
    }
  }

  /** A strictly ascending list with exactly the members `x` and `x + 1` is `[x, x + 1]`. */
  lemma IncreasingPair(r: seq<nat>, x: nat)
    requires Increasing(r) && forall k :: k in r <==> k == x || k == x + 1
    ensures r == [x, x + 1]
  {
    assert x in r && x + 1 in r;
    assert r[0] in r && r[|r| - 1] in r;
    IncreasingSpread(r, |r| - 1);
    assert r[1] in r;
  }

  /** A comma part that is one period code yields exactly its index. */
  lemma SingleCode(c: char, k: nat)
    requires PeriodIndex(c).Some?
    ensures PartYields([c], k) <==> PeriodIndex(c) == Some(k)
  {
    assert !IsRange([c]);
    if PeriodIndex(c) == Some(k) { assert [c][0] == c; }
  }

  /** One character that is not a separator is one piece. */
  lemma SplitSingle(c: char, seps: set<char>)
    requires c !in seps
    ensures Split([c], seps) == [[c]]
  {
    SplitCons(c, [], seps);
    assert [c] + [] == [c];
  }

  /** One character that is not whitespace is its own strip. */
  lemma StripSingle(c: char)
    requires !IsSpace(c)
    ensures Strip([c]) == [c]
  {
    assert RunLength([c], IsSpace) == 0;
  }

  /** `a,b` splits on the comma into `a` and `b`, each its own strip. */
  lemma CommaPair(a: char, b: char)
    requires a != ',' && b != ',' && !IsSpace(a) && !IsSpace(b)
    ensures Split([a, ',', b], CommaSep) == [[a], [b]]
    ensures Strip([a]) == [a] && Strip([b]) == [b]
  {
    assert a !in CommaSep && b !in CommaSep && ',' in CommaSep;
    SplitSingle(b, CommaSep);
    SplitCons(',', [b], CommaSep);
    assert [','] + [b] == [',', b];
    assert Split([',', b], CommaSep) == [[], [b]];
    SplitCons(a, [',', b], CommaSep);
    assert [a] + [',', b] == [a, ',', b];
    assert [a] + [] == [a];
    StripSingle(a);
    StripSingle(b);
  }

  /** Two period codes separated by a comma yield the two indices and nothing else. */
  lemma TwoCodes(a: char, b: char, k: nat)
    requires PeriodIndex(a).Some? && PeriodIndex(b).Some?
    ensures Yields([a, ',', b], k) <==> PeriodIndex(a) == Some(k) || PeriodIndex(b) == Some(k)
  {
    var s := [a, ',', b];
    CodeChar(a);
    CodeChar(b);
    CommaPair(a, b);
    var parts := Split(s, CommaSep);
    SingleCode(a, k);
    SingleCode(b, k);
    if Yields(s, k) {
      var i :| 0 <= i < |parts| && PartYields(Strip(parts[i]), k);
      assert i == 0 || i == 1;
    }
    if PeriodIndex(a) == Some(k) { assert PartYields(Strip(parts[0]), k); }
    if PeriodIndex(b) == Some(k) { assert PartYields(Strip(parts[1]), k); }
  }

  /** Two adjacent periods, written `a,b`, make one block. */
  lemma AdjacentPair(day: nat, a: char, b: char, x: nat)
    requires PeriodIndex(a) == Some(x) && PeriodIndex(b) == Some(x + 1)
    ensures MatchBlocks(DayMatch(day, [a, ',', b])) == [Block(day, x, x + 1)]
  {
    var ks := PeriodSet([a, ',', b]);
    forall k: nat ensures k in ks <==> k == x || k == x + 1 {
      TwoCodes(a, b, k);
    }
    PeriodIndexInverse(b, x + 1);
    var sorted := SortedIndices(ks);
    IncreasingPair(sorted, x);
    assert [x, x + 1][1..] == [x + 1] && [x + 1][1..] == [];
    assert RunsFrom(day, x, x + 1, []) == [Block(day, x, x + 1)];
    assert RunsFrom(day, x, x, [x + 1]) == RunsFrom(day, x, x + 1, []);
    assert Runs(day, [x, x + 1]) == RunsFrom(day, x, x, [x + 1]);
  }

  // ---------------------------------------------------------------- worked inputs

  /** The lazy scan for a closer runs over characters that are neither closers nor newlines. */
  lemma {:induction false} CloserAfter(s: string, j: nat, k: nat)
    requires j <= k < |s| && IsCloser(s[k])
    requires forall i :: j <= i < k ==> s[i] != '\n' && !IsCloser(s[i])
    ensures FindCloser(s, j) == Some(k)
    decreases k - j
  {
    if j < k { CloserAfter(s, j + 1, k); }
  }

  /** A bracketed note that closes on its line is dropped whole. */
  lemma NoteDropped(room: string)
    requires forall i :: 0 <= i < |room| ==> room[i] != '\n' && !IsCloser(room[i])
    ensures StripAnnotations(['('] + room + [')']) == []
  {
    var note := ['('] + room + [')'];
    CloserAfter(note, 1, |room| + 1);
    assert note[|room| + 2..] == [];
  }

  lemma CodeChar(c: char)
    requires PeriodIndex(c).Some?
    ensures IsCodeChar(c) && !IsOpener(c) && c != '/' && c != ',' && !IsSpace(c)
  {
  }

  lemma GlyphChar(g: char)
    requires DayIndex(g).Some?
    ensures !IsOpener(g) && g != '/' && !IsSpace(g)
  {
  }

  /** A run of code characters: the second group of a day match. */
  predicate CodeRun(codes: string) {
    codes != [] && forall i :: 0 <= i < |codes| ==> IsCodeChar(codes[i])
  }

  /** Two day matches separated by one character that is neither a glyph nor a code. */
  lemma TwoMatches(g1: char, codes1: string, sep: char, g2: char, codes2: string)
    requires DayIndex(g1).Some? && DayIndex(g2).Some? && DayIndex(sep).None? && !IsCodeChar(sep)
    requires CodeRun(codes1) && CodeRun(codes2)
    ensures DayMatches([g1] + codes1 + ([sep] + ([g2] + codes2)))
      == [DayMatch(DayIndex(g1).value, codes1), DayMatch(DayIndex(g2).value, codes2)]
  {
    var second := [g2] + codes2;
    assert second == [g2] + codes2 + [];
    MatchTake(g2, codes2, []);
    MatchSkip(sep, second);
    MatchTake(g1, codes1, [sep] + second);
  }

  /** Text free of openers and slashes, followed by a closed note: the note goes, the rest stays. */
  lemma CleanBeforeNote(plain: string, room: string)
    requires forall i :: 0 <= i < |plain| ==> !IsOpener(plain[i]) && plain[i] != '/'
    requires forall i :: 0 <= i < |room| ==> room[i] != '\n' && !IsCloser(room[i])
    ensures CleanTimeText(plain + (['('] + room + [')'])) == plain
  {
    PlainAnnotations(plain, ['('] + room + [')']);
    NoteDropped(room);
    assert plain + [] == plain;
    PlainLocations(plain);
  }

  /** `a,b` for two period codes is a run of code characters. */
  lemma PairRun(a: char, b: char)
    requires PeriodIndex(a).Some? && PeriodIndex(b).Some?
    ensures CodeRun([a, ',', b]) && forall i :: 0 <= i < 3 ==> !IsOpener([a, ',', b][i]) && [a, ',', b][i] != '/'
  {
    CodeChar(a); CodeChar(b);
  }

  /** The example's text is neither empty nor `未定`, and cleans to its glyph-and-code part. */
  lemma PairsText(g1: char, a: char, b: char, g2: char, c: char, d: char, room: string)
    requires DayIndex(g1).Some? && DayIndex(g2).Some?
    requires PeriodIndex(a).Some? && PeriodIndex(b).Some? && PeriodIndex(c).Some? && PeriodIndex(d).Some?
    requires forall i :: 0 <= i < |room| ==> room[i] != '\n' && !IsCloser(room[i])
    ensures var plain := [g1] + [a, ',', b] + ([' '] + ([g2] + [c, ',', d]));
      TimeBlocks(plain + (['('] + room + [')'])) == AllBlocks(DayMatches(plain))
  {
    var codes1, codes2 := [a, ',', b], [c, ',', d];
    var plain := [g1] + codes1 + ([' '] + ([g2] + codes2));
    var text := plain + (['('] + room + [')']);
    GlyphChar(g1);
    GlyphChar(g2);
    assert text[0] == g1;
    assert Strip(text) != "未定" by {
      assert RunLength(text, IsSpace) == 0;
      assert TrimStart(text) == text;
      assert TrimEnd(text) == text;
    }
    PairRun(a, b);
    PairRun(c, d);
    assert forall i :: 0 <= i < |plain| ==> !IsOpener(plain[i]) && plain[i] != '/' by {
      forall i | 0 <= i < |plain| ensures !IsOpener(plain[i]) && plain[i] != '/' {
        if 1 <= i < 4 { assert plain[i] == codes1[i - 1]; }
        if 6 <= i { assert plain[i] == codes2[i - 6]; }
      }
    }
    CleanBeforeNote(plain, room);
  }

  /** The two matches of the example's shape give one two-period block each. */
  lemma PairsBlocks(g1: char, a: char, b: char, g2: char, c: char, d: char, x: nat, y: nat)
    requires DayIndex(g1).Some? && DayIndex(g2).Some?
    requires PeriodIndex(a) == Some(x) && PeriodIndex(b) == Some(x + 1)
    requires PeriodIndex(c) == Some(y) && PeriodIndex(d) == Some(y + 1)
    ensures AllBlocks(DayMatches([g1] + [a, ',', b] + ([' '] + ([g2] + [c, ',', d]))))
      == [Block(DayIndex(g1).value, x, x + 1), Block(DayIndex(g2).value, y, y + 1)]
  {
    PairRun(a, b);
    PairRun(c, d);
    TwoMatches(g1, [a, ',', b], ' ', g2, [c, ',', d]);
    var m1, m2 := DayMatch(DayIndex(g1).value, [a, ',', b]), DayMatch(DayIndex(g2).value, [c, ',', d]);
    AdjacentPair(m1.day, a, b, x);
    AdjacentPair(m2.day, c, d, y);
    AllBlocksOfTwo(m1, m2);
  }

  /**
    The shape of the example `一3,4 二B,C(R101)`: two weekday glyphs, each followed by two
    adjacent period codes separated by a comma, a space between them and a bracketed room
    note at the end, give one two-period block per day, in order.
   */
  lemma TwoDaysOfPairs(g1: char, a: char, b: char, g2: char, c: char, d: char, room: string, x: nat, y: nat)
    requires DayIndex(g1).Some? && DayIndex(g2).Some?
    requires PeriodIndex(a) == Some(x) && PeriodIndex(b) == Some(x + 1)
    requires PeriodIndex(c) == Some(y) && PeriodIndex(d) == Some(y + 1)
    requires forall i :: 0 <= i < |room| ==> room[i] != '\n' && !IsCloser(room[i])
    ensures TimeBlocks([g1] + [a, ',', b] + ([' '] + ([g2] + [c, ',', d])) + (['('] + room + [')']))
      == [Block(DayIndex(g1).value, x, x + 1), Block(DayIndex(g2).value, y, y + 1)]
  {
    PairsText(g1, a, b, g2, c, d, room);
    PairsBlocks(g1, a, b, g2, c, d, x, y);
  }

  lemma AllBlocksOfTwo(m1: DayMatch, m2: DayMatch)
    ensures AllBlocks([m1, m2]) == MatchBlocks(m1) + MatchBlocks(m2)
  {
    assert [m1, m2][..1] == [m1] && [m1][..0] == [];
    assert AllBlocks([m1]) == AllBlocks([]) + MatchBlocks(m1);
    assert AllBlocks([]) + MatchBlocks(m1) == MatchBlocks(m1);
    assert AllBlocks([m1, m2]) == AllBlocks([m1]) + MatchBlocks(m2);
  }

  /**
    `一3,4 二B,C(R101)`: Monday periods 3 and 4 (indices 2 and 3), Tuesday periods B and C
    (indices 11 and 12), the room dropped.
   */
  lemma TimeExample(text: string)
    requires text == "一3,4 二B,C(R101)"
    ensures TimeBlocks(text) == [Block(0, 2, 3), Block(1, 11, 12)]
  {
    var monday, tuesday, note := ['一'] + "3,4", ['二'] + "B,C", ['('] + "R101" + [')'];
    assert monday == "一3,4" && tuesday == "二B,C" && note == "(R101)";
    assert text == monday + ([' '] + tuesday) + note;
    TwoDaysOfPairs('一', '3', '4', '二', 'B', 'C', "R101", 2, 11);
  }

  /** A strictly ascending list with the single member `x` is `[x]`. */
  lemma IncreasingSingle(r: seq<nat>, x: nat)
    requires Increasing(r) && forall k :: k in r <==> k == x
    ensures r == [x]
  {
    assert x in r;
    assert r[0] in r && r[|r| - 1] in r;
    IncreasingSpread(r, |r| - 1);
  }

  /** A single period code yields its index and nothing else. */
  lemma OneCodeYields(a: char, k: nat)
    requires PeriodIndex(a).Some?
    ensures Yields([a], k) <==> PeriodIndex(a) == Some(k)
  {
    CodeChar(a);
    OneCodeParts(a);
    var parts := Split([a], CommaSep);
    SingleCode(a, k);
    if Yields([a], k) {
      var i :| 0 <= i < |parts| && PartYields(Strip(parts[i]), k);
      assert i == 0;
    }
    if PeriodIndex(a) == Some(k) { assert PartYields(Strip(parts[0]), k); }
  }

  /** A single period code is one comma part, already stripped. */
  lemma OneCodeParts(a: char)
    requires a != ',' && !IsSpace(a)
    ensures Split([a], CommaSep) == [[a]] && Strip([a]) == [a]
  {
    assert a !in CommaSep;
    SplitCons(a, [], CommaSep);
    assert [a] + [] == [a];
    assert Split([], CommaSep) == [[]];
    assert Strip([a]) == [a] by { assert RunLength([a], IsSpace) == 0; }
  }

  /** A match with one period code gives one one-period block. */
  lemma OneCode(day: nat, a: char, x: nat)
    requires PeriodIndex(a) == Some(x)
    ensures MatchBlocks(DayMatch(day, [a])) == [Block(day, x, x)]
  {
    var ks := PeriodSet([a]);
    forall k: nat ensures k in ks <==> k == x {
      OneCodeYields(a, k);
    }
    PeriodIndexInverse(a, x);
    var sorted := SortedIndices(ks);
    IncreasingSingle(sorted, x);
    assert [x][1..] == [];
    assert RunsFrom(day, x, x, []) == [Block(day, x, x)];
    assert Runs(day, [x]) == RunsFrom(day, x, x, []);
  }

  /** Two single-code matches on one glyph, separated by a space, clean to themselves. */
  lemma SameDayText(g: char, a: char, b: char)
    requires DayIndex(g).Some? && PeriodIndex(a).Some? && PeriodIndex(b).Some?
    ensures var plain := [g] + [a] + ([' '] + ([g] + [b]));
      TimeBlocks(plain) == AllBlocks(DayMatches(plain))
  {
    var plain := [g] + [a] + ([' '] + ([g] + [b]));
    GlyphChar(g);
    CodeChar(a);
    CodeChar(b);
    assert plain[0] == g;
    StartNotUnscheduled(plain);
    assert forall i :: 0 <= i < |plain| ==> !IsOpener(plain[i]) && plain[i] != '/' by {
      forall i | 0 <= i < |plain| ensures !IsOpener(plain[i]) && plain[i] != '/' {
        assert plain[i] in {g, a, ' ', b};
      }
    }
    CleanPlain(plain);
  }

  /** Text starting with a character that is neither whitespace nor `未` is not `未定`. */
  lemma StartNotUnscheduled(s: string)
    requires s != [] && !IsSpace(s[0]) && s[0] != '未'
    ensures Strip(s) != "未定"
  {
    assert RunLength(s, IsSpace) == 0;
    assert TrimStart(s) == s;
  }

  /** Text without openers and slashes is left as it is by both cleaning passes. */
  lemma CleanPlain(plain: string)
    requires forall i :: 0 <= i < |plain| ==> !IsOpener(plain[i]) && plain[i] != '/'
    ensures CleanTimeText(plain) == plain
  {
    PlainAnnotations(plain, []);
    assert plain + [] == plain;
    assert StripAnnotations([]) == [];
    PlainLocations(plain);
  }

  /**
    The same weekday glyph twice: each match is encoded on its own, so the two periods stay
    two blocks even when they are adjacent.
   */
  lemma SameDayTwice(g: char, a: char, b: char, x: nat, y: nat)
    requires DayIndex(g).Some? && PeriodIndex(a) == Some(x) && PeriodIndex(b) == Some(y)
    ensures TimeBlocks([g] + [a] + ([' '] + ([g] + [b])))
      == [Block(DayIndex(g).value, x, x), Block(DayIndex(g).value, y, y)]
  {
    SameDayText(g, a, b);
    SameDayBlocks(g, a, b, x, y);
  }

  /** The two single-code matches on one glyph give one one-period block each. */
  lemma SameDayBlocks(g: char, a: char, b: char, x: nat, y: nat)
    requires DayIndex(g).Some? && PeriodIndex(a) == Some(x) && PeriodIndex(b) == Some(y)
    ensures AllBlocks(DayMatches([g] + [a] + ([' '] + ([g] + [b]))))
      == [Block(DayIndex(g).value, x, x), Block(DayIndex(g).value, y, y)]
  {
    CodeChar(a);
    CodeChar(b);
    assert CodeRun([a]) && CodeRun([b]);
    TwoMatches(g, [a], ' ', g, [b]);
    var m1, m2 := DayMatch(DayIndex(g).value, [a]), DayMatch(DayIndex(g).value, [b]);
    OneCode(m1.day, a, x);
    OneCode(m2.day, b, y);
    AllBlocksOfTwo(m1, m2);
  }

  /** `一1 一2`: two Monday blocks, periods 1 and 2, not merged into one. */
  lemma SameDayExample(text: string)
    requires text == "一1 一2"
    ensures TimeBlocks(text) == [Block(0, 0, 0), Block(0, 1, 1)]
  {
    assert text == ['一'] + ['1'] + ([' '] + (['一'] + ['2']));
    SameDayTwice('一', '1', '2', 0, 1);
  }
}
