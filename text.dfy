/**
  Character and string helpers that give Python's `str` operations their meaning:
  `isspace` (which is also what `\s` matches in a `str` pattern), `strip`, `split`
  on one character or a one-character class, and the substring test `in`.
 */
module Text {
  import opened Wrappers

  /** Python's `str.isspace()` for one character; `\s` in a `str` pattern matches the same set. */
  predicate IsSpace(c: char) {
    || c == ' '
    || ('\t' <= c <= '\r')
    || ('\U{1C}' <= c <= '\U{1F}')
    || c == '\U{85}' || c == '\U{A0}' || c == '\U{1680}'
    || ('\U{2000}' <= c <= '\U{200A}')
    || c == '\U{2028}' || c == '\U{2029}' || c == '\U{202F}' || c == '\U{205F}'
    || c == '\U{3000}'
  }

  /** Length of the longest prefix of `s` whose characters all satisfy `inRun`: a greedy `[...]*`. */
  function RunLength(s: string, inRun: char -> bool): (n: nat)
    ensures n <= |s|
    ensures forall i :: 0 <= i < n ==> inRun(s[i])
    ensures n < |s| ==> !inRun(s[n])
  {
    if s == [] || !inRun(s[0]) then 0 else 1 + RunLength(s[1..], inRun)
  }

  /** The run stops exactly where `a`, all of whose characters are in the run, ends. */
  lemma {:induction false} RunLengthOfPrefix(a: string, b: string, p: char -> bool)
    requires forall i :: 0 <= i < |a| ==> p(a[i])
    requires b == [] || !p(b[0])
    ensures RunLength(a + b, p) == |a|
    decreases |a|
  {
    if a != [] {
      assert (a + b)[1..] == a[1..] + b;
      RunLengthOfPrefix(a[1..], b, p);
    }
  }

  /** A string all of whose characters are in the run is one whole run. */
  lemma {:induction false} RunLengthAll(s: string, p: char -> bool)
    requires forall i :: 0 <= i < |s| ==> p(s[i])
    ensures RunLength(s, p) == |s|
    decreases |s|
  {
    if s != [] { RunLengthAll(s[1..], p); }
  }

  /** Python's `s.lstrip()`. */
  function TrimStart(s: string): (r: string)
    ensures |r| <= |s| && r == s[|s| - |r|..]
    ensures r != [] ==> !IsSpace(r[0])
    ensures forall i :: 0 <= i < |s| - |r| ==> IsSpace(s[i])
  {
    s[RunLength(s, IsSpace)..]
  }

  /** Python's `s.rstrip()`. */
  function TrimEnd(s: string): (r: string)
    ensures |r| <= |s| && r == s[..|r|]
    ensures r != [] ==> !IsSpace(r[|r| - 1])
    ensures forall i :: |r| <= i < |s| ==> IsSpace(s[i])
  {
    if s != [] && IsSpace(s[|s| - 1]) then TrimEnd(s[..|s| - 1]) else s
  }

  /** Every character of `s` is whitespace. */
  predicate AllSpace(s: string) {
    forall i :: 0 <= i < |s| ==> IsSpace(s[i])
  }

  /** `pat` occurs in `s` at position `i`. */
  predicate OccursAt(s: string, pat: string, i: int) {
    0 <= i <= |s| - |pat| && s[i..i + |pat|] == pat
  }

  /** Python's `s.strip()`: whitespace removed from both ends. */
  function Strip(s: string): (r: string)
    ensures |r| <= |s|
    ensures r != [] ==> !IsSpace(r[0]) && !IsSpace(r[|r| - 1])
    ensures r == [] <==> AllSpace(s)
  {
    var t := TrimStart(s);
    var r := TrimEnd(t);
    assert r == [] ==> t == [];
    assert r != [] ==> !IsSpace(s[|s| - |t|]);
    r
  }

  /** What `strip` returns is the slice of `s` between a whitespace prefix and a whitespace suffix. */
  lemma StripIsSlice(s: string)
    ensures exists i :: OccursAt(s, Strip(s), i) && AllSpace(s[..i]) && AllSpace(s[i + |Strip(s)|..])
  {
    var t := TrimStart(s);
    var r := TrimEnd(t);
    var i := |s| - |t|;
    assert OccursAt(s, r, i) && AllSpace(s[..i]);
    assert AllSpace(s[i + |r|..]) by {
      var tail := s[i + |r|..];
      forall j | 0 <= j < |tail| ensures IsSpace(tail[j]) {
        assert tail[j] == t[|r| + j];
      }
    }
  }

  /** Stripping is idempotent: `s.strip().strip() == s.strip()`. */
  lemma StripStripped(s: string)
    ensures Strip(Strip(s)) == Strip(s)
  {
    var r := Strip(s);
    if r != [] {
      assert RunLength(r, IsSpace) == 0;
      assert TrimStart(r) == r;
    }
  }

  /** Whether `s` begins with `pat`. */
  predicate StartsWith(s: string, pat: string) {
    |pat| <= |s| && s[..|pat|] == pat
  }

  /** Python's substring test `pat in s`. */
  predicate Contains(s: string, pat: string)
    decreases |s|
  {
    StartsWith(s, pat) || (s != [] && Contains(s[1..], pat))
  }

  /** `Contains` holds exactly when `pat` occurs at some position of `s`. */
  lemma {:induction false} ContainsOccurrence(s: string, pat: string)
    ensures Contains(s, pat) <==> exists i :: OccursAt(s, pat, i)
    decreases |s|
  {
    if s != [] {
      ContainsOccurrence(s[1..], pat);
      if exists i :: OccursAt(s, pat, i) {
        var i :| OccursAt(s, pat, i);
        if i > 0 { assert OccursAt(s[1..], pat, i - 1); }
        else { assert StartsWith(s, pat); }
      }
      if Contains(s[1..], pat) && !StartsWith(s, pat) {
        var i :| OccursAt(s[1..], pat, i);
        assert s[i + 1..i + 1 + |pat|] == s[1..][i..i + |pat|];
        assert OccursAt(s, pat, i + 1);
      }
      if StartsWith(s, pat) { assert OccursAt(s, pat, 0); }
    } else {
      if StartsWith(s, pat) { assert OccursAt(s, pat, 0); }
      if exists i :: OccursAt(s, pat, i) {
        var i :| OccursAt(s, pat, i);
        assert pat == [];
      }
    }
  }

  /** For a one-character pattern the substring test is membership. */
  lemma {:induction false} ContainsChar(s: string, c: char)
    ensures Contains(s, [c]) <==> c in s
    decreases |s|
  {
    if s != [] {
      ContainsChar(s[1..], c);
      assert s == [s[0]] + s[1..];
    }
  }

  /** A string that contains `pat` contains every character of `pat`. */
  lemma ContainsPart(s: string, pat: string, k: nat)
    requires Contains(s, pat) && k < |pat|
    ensures pat[k] in s
  {
    ContainsOccurrence(s, pat);
    var i :| OccursAt(s, pat, i);
    assert s[i + k] == pat[k];
  }

  /** No character of `s` is in `cs`. */
  predicate NoneIn(s: string, cs: set<char>) {
    forall i :: 0 <= i < |s| ==> s[i] !in cs
  }

  /** Number of characters of `s` that are in `cs`. */
  function CountIn(s: string, cs: set<char>): nat
    decreases |s|
  {
    if s == [] then 0 else (if s[0] in cs then 1 else 0) + CountIn(s[1..], cs)
  }

  /**
    The pieces between separators, as Python's `s.split(c)` for one separator and
    `re.split('[...]', s)` for a one-character class; the empty string gives one empty piece.
   */
  function Split(s: string, seps: set<char>): (pieces: seq<string>)
    ensures |pieces| == 1 + CountIn(s, seps)
    ensures forall i :: 0 <= i < |pieces| ==> NoneIn(pieces[i], seps)
    decreases |s|
  {
    if s == [] then [[]]
    else
      var rest := Split(s[1..], seps);
      if s[0] in seps then [[]] + rest
      else
        var first := [s[0]] + rest[0];
        assert NoneIn(first, seps) by {
          forall i | 0 <= i < |first| ensures first[i] !in seps {
            if i > 0 { assert first[i] == rest[0][i - 1]; }
          }
        }
        [first] + rest[1..]
  }

  /** Python's `sep.join(pieces)`. */
  function Join(pieces: seq<string>, sep: char): string
    decreases |pieces|
  {
    if |pieces| <= 1 then (if pieces == [] then [] else pieces[0])
    else pieces[0] + [sep] + Join(pieces[1..], sep)
  }

  /** Splitting on one character and joining with it gives back the string. */
  lemma {:induction false} JoinSplit(s: string, sep: char)
    ensures Join(Split(s, {sep}), sep) == s
    decreases |s|
  {
    if s != [] {
      var rest := Split(s[1..], {sep});
      JoinSplit(s[1..], sep);
      if s[0] != sep {
        if |rest| > 1 {
          assert ([s[0]] + rest[0]) + [sep] + Join(rest[1..], sep) == [s[0]] + (rest[0] + [sep] + Join(rest[1..], sep));
        }
      }
    }
  }

  /** The first index at which `c` occurs in `s`. */
  function IndexOf(s: string, c: char): (i: nat)
    requires c in s
    ensures i < |s| && s[i] == c && c !in s[..i]
    decreases |s|
  {
    if s[0] == c then 0 else 1 + IndexOf(s[1..], c)
  }

  /** `s` with every character in `cs` removed, the others kept in their order. */
  function Without(s: string, cs: set<char>): (r: string)
    ensures NoneIn(r, cs)
    ensures forall c :: c in r <==> c in s && c !in cs
    ensures |r| == |s| - CountIn(s, cs)
    decreases |s|
  {
    if s == [] then []
    else
      var rest := Without(s[1..], cs);
      assert forall c :: c in s <==> c == s[0] || c in s[1..] by { assert s == [s[0]] + s[1..]; }
      if s[0] in cs then rest
      else
        assert NoneIn([s[0]] + rest, cs) by {
          forall i | 0 <= i < |rest| + 1 ensures ([s[0]] + rest)[i] !in cs {
            if i > 0 { assert ([s[0]] + rest)[i] == rest[i - 1]; }
          }
        }
        [s[0]] + rest
  }

  /** `Without` works character by character: it distributes over concatenation. */
  lemma {:induction false} WithoutAppend(a: string, b: string, cs: set<char>)
    ensures Without(a + b, cs) == Without(a, cs) + Without(b, cs)
    decreases |a|
  {
    if a != [] {
      var head := if a[0] in cs then [] else [a[0]];
      assert (a + b)[0] == a[0] && (a + b)[1..] == a[1..] + b;
      assert Without(a + b, cs) == head + Without(a[1..] + b, cs);
      assert Without(a, cs) == head + Without(a[1..], cs);
      WithoutAppend(a[1..], b, cs);
    } else {
      assert a + b == b;
    }
  }

  /** `Without` keeps a character exactly when it is not in `cs`. */
  lemma WithoutOne(c: char, cs: set<char>)
    ensures Without([c], cs) == if c in cs then [] else [c]
  {
    assert [c][1..] == [];
  }

  /** The characters of `s` that are in `cs`, in order: the separators `Split` cuts at. */
  function Only(s: string, cs: set<char>): (r: string)
    ensures |r| == CountIn(s, cs)
    ensures forall i :: 0 <= i < |r| ==> r[i] in cs
    decreases |s|
  {
    if s == [] then []
    else if s[0] in cs then [s[0]] + Only(s[1..], cs)
    else Only(s[1..], cs)
  }

  /** `pieces[0] + [cs[0]] + pieces[1] + ... + pieces[|cs|]`: the pieces with the separators between them. */
  function Weave(pieces: seq<string>, cs: string): string
    requires |pieces| == |cs| + 1
    decreases |cs|
  {
    if cs == [] then pieces[0] else pieces[0] + [cs[0]] + Weave(pieces[1..], cs[1..])
  }

  /** Text put in front of the first piece ends up in front of the woven string. */
  lemma WeavePrefix(x: string, pieces: seq<string>, cs: string)
    requires |pieces| == |cs| + 1
    ensures Weave([x + pieces[0]] + pieces[1..], cs) == x + Weave(pieces, cs)
  {
    if cs != [] {
      assert ([x + pieces[0]] + pieces[1..])[1..] == pieces[1..];
    }
  }

  /** Splitting loses nothing: the pieces with the separators of `s` put back between them are `s` again. */
  lemma {:induction false} SplitWeave(s: string, seps: set<char>)
    ensures Weave(Split(s, seps), Only(s, seps)) == s
    decreases |s|
  {
    if s != [] {
      var rest := Split(s[1..], seps);
      SplitWeave(s[1..], seps);
      if s[0] in seps {
        assert ([[]] + rest)[1..] == rest;
      } else {
        WeavePrefix([s[0]], rest, Only(s[1..], seps));
      }
    }
  }

  /**
    And nothing else splits that way: pieces free of separators, woven with separator characters
    into `s`, are the pieces of `Split(s, seps)`, and the characters are the separators of `s`.
   */
  lemma {:induction false} SplitUnique(s: string, seps: set<char>, pieces: seq<string>, cs: string)
    requires |pieces| == |cs| + 1 && Weave(pieces, cs) == s
    requires forall i :: 0 <= i < |pieces| ==> NoneIn(pieces[i], seps)
    requires forall i :: 0 <= i < |cs| ==> cs[i] in seps
    ensures pieces == Split(s, seps) && cs == Only(s, seps)
    decreases |s|
  {
    if pieces[0] == [] {
      if cs != [] {
        assert s == [cs[0]] + Weave(pieces[1..], cs[1..]);
        assert s[1..] == Weave(pieces[1..], cs[1..]);
        SplitUnique(s[1..], seps, pieces[1..], cs[1..]);
        assert pieces == [[]] + pieces[1..];
        assert cs == [cs[0]] + cs[1..];
      }
    } else {
      var head := pieces[0];
      var rest := [head[1..]] + pieces[1..];
      WeavePrefix([head[0]], rest, cs);
      assert [head[0]] + rest[0] == head;
      assert [[head[0]] + rest[0]] + rest[1..] == pieces;
      assert s == [head[0]] + Weave(rest, cs);
      assert s[1..] == Weave(rest, cs);
      assert NoneIn(rest[0], seps) by {
        forall i | 0 <= i < |rest[0]| ensures rest[0][i] !in seps { assert rest[0][i] == head[i + 1]; }
      }
      assert forall i :: 1 <= i < |rest| ==> rest[i] == pieces[i];
      SplitUnique(s[1..], seps, rest, cs);
      assert s[0] == head[0] && head[0] !in seps;
    }
  }

  /**
    `p` is `x` with whitespace taken off: from the front when `front` holds (and then `p` does not
    start with whitespace) and from the back when `back` holds (and then `p` does not end with it).
   */
  ghost predicate Trimmed(x: string, p: string, front: bool, back: bool) {
    exists k :: OccursAt(x, p, k) && AllSpace(x[..k]) && AllSpace(x[k + |p|..])
      && (!front ==> k == 0) && (!back ==> k + |p| == |x|)
      && (front && p != [] ==> !IsSpace(p[0]))
      && (back && p != [] ==> !IsSpace(p[|p| - 1]))
  }

  /** `lstrip` and `rstrip`, in either combination, trim in the sense of `Trimmed`. */
  lemma TrimsTrimmed(x: string, front: bool, back: bool)
    ensures var a := if back then TrimEnd(x) else x;
      Trimmed(x, if front then TrimStart(a) else a, front, back)
  {
    var a := if back then TrimEnd(x) else x;
    assert AllSpace(x[|a|..]) by {
      forall i | |a| <= i < |x| ensures IsSpace(x[i]) { }
    }
    var p := if front then TrimStart(a) else a;
    var k := |a| - |p|;
    assert a[k..] == p;
    assert AllSpace(a[..k]) by {
      forall i | 0 <= i < k ensures IsSpace(a[i]) { }
    }
    if back && p != [] {
      assert p[|p| - 1] == a[|a| - 1];
    }
    TrimmedBy(x, a, p, k, front, back);
  }

  /** The witness of `Trimmed`: `p` sits at `k` in the prefix `a` of `x`, with only whitespace around. */
  lemma TrimmedBy(x: string, a: string, p: string, k: nat, front: bool, back: bool)
    requires |a| <= |x| && a == x[..|a|] && AllSpace(x[|a|..])
    requires k + |p| == |a| && a[k..] == p && AllSpace(a[..k])
    requires !front ==> k == 0
    requires !back ==> |a| == |x|
    requires front && p != [] ==> !IsSpace(p[0])
    requires back && p != [] ==> !IsSpace(p[|p| - 1])
    ensures Trimmed(x, p, front, back)
  {
    TrimmedAt(x, a, p, k);
  }

  /** A slice `p` of a prefix `a` of `x`, with whitespace before it in `a` and after `a` in `x`. */
  lemma TrimmedAt(x: string, a: string, p: string, k: nat)
    requires |a| <= |x| && a == x[..|a|] && AllSpace(x[|a|..])
    requires k + |p| == |a| && a[k..] == p && AllSpace(a[..k])
    ensures OccursAt(x, p, k) && AllSpace(x[..k]) && AllSpace(x[k + |p|..])
  {
    assert x[..k] == a[..k];
    assert x[k..k + |p|] == p;
  }

  /** Trimming keeps a string free of the characters in `cs`. */
  lemma TrimmedKeepsNoneIn(x: string, p: string, front: bool, back: bool, cs: set<char>)
    requires Trimmed(x, p, front, back) && NoneIn(x, cs)
    ensures NoneIn(p, cs)
  {
    var k :| OccursAt(x, p, k);
    forall i | 0 <= i < |p| ensures p[i] !in cs { assert p[i] == x[k + i]; }
  }
}
