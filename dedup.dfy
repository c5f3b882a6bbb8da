/**
  The de-duplication pass in `main`: the raw course rows scraped from every department and
  class page are merged by serial number into one entry per course, keeping the list of
  (department, class) pages the course was found on, and preferring a general-education
  (`通識`) row as the entry's displayed fields.
 */
module Dedup {
  import opened Wrappers
  import opened Text
  import opened Seqs

  /** One scraped row: the columns of the course table and the page it was found on. */
  datatype Course = Course(
    serial: string,       // 課程編號, the de-duplication key
    code: string,         // 課程代碼
    name: string,         // 課程名稱
    teacher: string,      // 授課教師
    credits: string,      // 學分
    required: string,     // 必選修
    time: string,         // 上課時間/教室
    criteria: string,     // 分發條件
    deptName: string,
    className: string)

  /** A `{dept, class}` source record. */
  datatype Source = Source(dept: string, className: string)

  /** A value of the merge dictionary: the displayed row and its `sources` list. */
  datatype Entry = Entry(course: Course, sources: seq<Source>)

  /** The merge dictionary with its key order (first insertion first). */
  datatype Table = Table(entries: map<string, Entry>, order: seq<string>)

  function SourceOf(r: Course): Source {
    Source(r.deptName, r.className)
  }

  /** The department is a general-education one: its name contains `通識`. */
  predicate IsGeneralEducation(r: Course) {
    Contains(r.deptName, "通識")
  }

  /**
    One iteration of the loop: a new serial is inserted at the end of the key order with a
    one-element `sources`; a known one gets the source appended, and its displayed row is
    replaced by the incoming one when that is general-education and the current one is not.
   */
  function Step(t: Table, r: Course): Table {
    var key := r.serial;
    if key !in t.entries then
      Table(t.entries[key := Entry(r, [SourceOf(r)])], t.order + [key])
    else
      var e := t.entries[key];
      var shown := if IsGeneralEducation(r) && !IsGeneralEducation(e.course) then r else e.course;
      Table(t.entries[key := Entry(shown, e.sources + [SourceOf(r)])], t.order)
  }

  /** The dictionary after the loop has run over `rs`. */
  function Merged(rs: seq<Course>): Table
    decreases |rs|
  {
    if rs == [] then Table(map[], []) else Step(Merged(rs[..|rs| - 1]), rs[|rs| - 1])
  }

  /** The de-duplication loop, updating the dictionary and its key order in place. */
  method Deduplicate(rs: seq<Course>) returns (unique: map<string, Entry>, order: seq<string>)
    ensures Table(unique, order) == Merged(rs)
  {
    unique, order := map[], [];
    for i := 0 to |rs|
      invariant Table(unique, order) == Merged(rs[..i])
    {
      assert rs[..i + 1][..i] == rs[..i];
      var r := rs[i];
      var key := r.serial;
      var sourceInfo := SourceOf(r);
      if key !in unique {
        unique := unique[key := Entry(r, [sourceInfo])];
        order := order + [key];
      } else {
        var existingSources := unique[key].sources + [sourceInfo];
        unique := unique[key := Entry(unique[key].course, existingSources)];
        if IsGeneralEducation(r) && !IsGeneralEducation(unique[key].course) {
          unique := unique[key := Entry(r, existingSources)];
        }
      }
    }
    assert rs[..|rs|] == rs;
  }

  // ---------------------------------------------------------------- reference definitions

  /** The serial numbers of the rows, in input order. */
  function Serials(rs: seq<Course>): (ks: seq<string>)
    ensures |ks| == |rs| && forall i :: 0 <= i < |rs| ==> ks[i] == rs[i].serial
  {
    seq(|rs|, i requires 0 <= i < |rs| => rs[i].serial)
  }

  /** The source of every row with serial `key`, in input order, repeats kept. */
  function SourcesFor(rs: seq<Course>, key: string): seq<Source>
    decreases |rs|
  {
    if rs == [] then []
    else
      var r := rs[|rs| - 1];
      SourcesFor(rs[..|rs| - 1], key) + if r.serial == key then [SourceOf(r)] else []
  }

  /** The first row with serial `key` that satisfies `p`. */
  function FirstSuch(rs: seq<Course>, key: string, p: Course -> bool): Option<Course>
    decreases |rs|
  {
    if rs == [] then None
    else
      var r := rs[|rs| - 1];
      match FirstSuch(rs[..|rs| - 1], key, p)
      case Some(c) => Some(c)
      case None => if r.serial == key && p(r) then Some(r) else None
  }

  function AnyRow(r: Course): bool { true }

  /** The row a course is shown with: its first general-education row, else its first row. */
  function Canonical(rs: seq<Course>, key: string): Option<Course> {
    match FirstSuch(rs, key, IsGeneralEducation)
    case Some(c) => Some(c)
    case None => FirstSuch(rs, key, AnyRow)
  }

  /** `FirstSuch` finds the earliest row with the key that satisfies the test, and only that. */
  lemma {:induction false} FirstSuchIsFirst(rs: seq<Course>, key: string, p: Course -> bool)
    ensures FirstSuch(rs, key, p).None? <==> forall i :: 0 <= i < |rs| && rs[i].serial == key ==> !p(rs[i])
    ensures FirstSuch(rs, key, p).Some? ==>
      exists i :: 0 <= i < |rs| && rs[i] == FirstSuch(rs, key, p).value && rs[i].serial == key && p(rs[i])
        && forall j :: 0 <= j < i && rs[j].serial == key ==> !p(rs[j])
    decreases |rs|
  {
    if rs != [] {
      var init := rs[..|rs| - 1];
      assert forall i :: 0 <= i < |init| ==> init[i] == rs[i];
      FirstSuchIsFirst(init, key, p);
      if FirstSuch(init, key, p).None? && FirstSuch(rs, key, p).Some? {
        assert rs[|rs| - 1] == FirstSuch(rs, key, p).value;
      }
    }
  }

  // ---------------------------------------------------------------- what the loop computes

  lemma SerialsStep(rs: seq<Course>)
    requires rs != []
    ensures Serials(rs) == Serials(rs[..|rs| - 1]) + [rs[|rs| - 1].serial]
  {
  }

  lemma FirstOccurrencesMembers(xs: seq<string>, x: string)
    ensures x in FirstOccurrences(xs) <==> x in xs
  {
    if x in xs {
      var i :| 0 <= i < |xs| && xs[i] == x;
    }
    if x in FirstOccurrences(xs) {
      var r := FirstOccurrences(xs);
      var i :| 0 <= i < |r| && r[i] == x;
    }
  }

  /** A row has the key exactly when the first row with the key exists. */
  lemma FirstRowExists(rs: seq<Course>, key: string)
    ensures FirstSuch(rs, key, AnyRow).Some? <==> key in Serials(rs)
  {
    FirstSuchIsFirst(rs, key, AnyRow);
    if key in Serials(rs) {
      var i :| 0 <= i < |rs| && Serials(rs)[i] == key;
      assert AnyRow(rs[i]);
    }
  }

  /** A row past the rows with the key does not change which row is first. */
  lemma FirstSuchOtherKey(rs: seq<Course>, key: string, p: Course -> bool)
    requires rs != [] && rs[|rs| - 1].serial != key
    ensures FirstSuch(rs, key, p) == FirstSuch(rs[..|rs| - 1], key, p)
  {
  }

  /** The dictionary's keys are the serials of the rows, and exactly the keys in the key order. */
  lemma {:induction false} MergedDomain(rs: seq<Course>)
    ensures forall k :: k in Merged(rs).entries <==> k in Serials(rs)
    ensures forall k :: k in Merged(rs).entries <==> k in Merged(rs).order
    decreases |rs|
  {
    if rs != [] {
      var init := rs[..|rs| - 1];
      var r := rs[|rs| - 1];
      MergedDomain(init);
      SerialsStep(rs);
      forall k ensures k in Merged(rs).entries <==> k in Serials(rs) {
        assert k in Serials(rs) <==> k in Serials(init) || k == r.serial;
      }
    }
  }

  /** The key order is the order in which the serials are first seen. */
  lemma {:induction false} MergedOrder(rs: seq<Course>)
    ensures Merged(rs).order == FirstOccurrences(Serials(rs))
    decreases |rs|
  {
    if rs != [] {
      var init := rs[..|rs| - 1];
      var r := rs[|rs| - 1];
      MergedOrder(init);
      MergedDomain(init);
      SerialsStep(rs);
      FirstOccurrencesMembers(Serials(init), r.serial);
      assert Serials(rs)[..|Serials(rs)| - 1] == Serials(init);
    }
  }

  /** A key's `sources` lists the source of every row with the key, in input order. */
  lemma {:induction false} MergedSources(rs: seq<Course>, key: string)
    requires key in Merged(rs).entries
    ensures Merged(rs).entries[key].sources == SourcesFor(rs, key)
    decreases |rs|
  {
    var init := rs[..|rs| - 1];
    var r := rs[|rs| - 1];
    if key in Merged(init).entries {
      MergedSources(init, key);
    } else {
      MergedDomain(init);
      assert key == r.serial;
      SourcesNone(init, key);
    }
  }

  lemma {:induction false} SourcesNone(rs: seq<Course>, key: string)
    requires key !in Serials(rs)
    ensures SourcesFor(rs, key) == []
    decreases |rs|
  {
    if rs != [] {
      SerialsStep(rs);
      SourcesNone(rs[..|rs| - 1], key);
    }
  }

  /** A key's displayed row is its canonical row. */
  lemma {:induction false} MergedCanonical(rs: seq<Course>, key: string)
    requires key in Merged(rs).entries
    ensures Canonical(rs, key) == Some(Merged(rs).entries[key].course)
    decreases |rs|
  {
    var init := rs[..|rs| - 1];
    var r := rs[|rs| - 1];
    var t := Merged(init);
    if key != r.serial {
      MergedCanonical(init, key);
      FirstSuchOtherKey(rs, key, IsGeneralEducation);
      FirstSuchOtherKey(rs, key, AnyRow);
    } else if key in t.entries {
      MergedCanonical(init, key);
      MergedDomain(init);
      FirstRowExists(init, key);
      GeneralFirstIsFirst(init, key);
      FirstSuchIsFirst(init, key, IsGeneralEducation);
    } else {
      MergedDomain(init);
      FirstRowExists(init, key);
      FirstSuchIsFirst(init, key, IsGeneralEducation);
      assert FirstSuch(init, key, IsGeneralEducation).None?;
      assert AnyRow(r);
    }
  }

  lemma GeneralFirstIsFirst(rs: seq<Course>, key: string)
    requires FirstSuch(rs, key, AnyRow).Some?
    ensures FirstSuch(rs, key, IsGeneralEducation).None? ==> !IsGeneralEducation(FirstSuch(rs, key, AnyRow).value)
    ensures FirstSuch(rs, key, AnyRow).value.serial == key
  {
    FirstSuchIsFirst(rs, key, AnyRow);
    FirstSuchIsFirst(rs, key, IsGeneralEducation);
  }

  /**
    The merge as the source promises it: one key per distinct serial, ordered by first
    sighting; each key's `sources` has one entry per row with that serial, in input order;
    and its displayed row is the first general-education row, or the first row if none is.
   */
  lemma MergedSpec(rs: seq<Course>)
    ensures var t := Merged(rs);
      && Distinct(t.order)
      && t.order == FirstOccurrences(Serials(rs))
      && (forall k :: k in t.entries <==> k in t.order)
      && (forall k :: k in t.entries <==> exists i :: 0 <= i < |rs| && rs[i].serial == k)
      && forall k :: k in t.entries ==>
           && t.entries[k].sources == SourcesFor(rs, k)
           && t.entries[k].course.serial == k
           && Canonical(rs, k) == Some(t.entries[k].course)
  {
    MergedDomain(rs);
    MergedOrder(rs);
    var t := Merged(rs);
    forall k ensures k in t.entries <==> exists i :: 0 <= i < |rs| && rs[i].serial == k {
      MergedKey(rs, k);
    }
    forall k | k in t.entries
      ensures t.entries[k].sources == SourcesFor(rs, k)
      ensures t.entries[k].course.serial == k
      ensures Canonical(rs, k) == Some(t.entries[k].course)
    {
      MergedEntry(rs, k);
    }
  }

  /** A key is in the merged table exactly when some row carries it. */
  lemma MergedKey(rs: seq<Course>, k: string)
    ensures k in Merged(rs).entries <==> exists i :: 0 <= i < |rs| && rs[i].serial == k
  {
    MergedDomain(rs);
    assert (exists i :: 0 <= i < |rs| && rs[i].serial == k) ==> k in Serials(rs);
  }

  /** The entry of one merged key: all its sources and its canonical row. */
  lemma MergedEntry(rs: seq<Course>, k: string)
    requires k in Merged(rs).entries
    ensures var e := Merged(rs).entries[k];
      && e.sources == SourcesFor(rs, k)
      && e.course.serial == k
      && Canonical(rs, k) == Some(e.course)
  {
    MergedDomain(rs);
    MergedSources(rs, k);
    MergedCanonical(rs, k);
    FirstRowExists(rs, k);
    GeneralFirstIsFirst(rs, k);
    FirstSuchIsFirst(rs, k, IsGeneralEducation);
  }

  /** `SourcesFor` keeps exactly the rows with the key: as many sources as such rows. */
  lemma SourcesCount(rs: seq<Course>, key: string)
    ensures |SourcesFor(rs, key)| == |set i | 0 <= i < |rs| && rs[i].serial == key|
    ensures forall s :: s in SourcesFor(rs, key) ==> exists i :: 0 <= i < |rs| && rs[i].serial == key && SourceOf(rs[i]) == s
  {
    SourcesSize(rs, key);
    SourcesFromRows(rs, key);
  }

  /** One source per row with the key. */
  lemma {:induction false} SourcesSize(rs: seq<Course>, key: string)
    ensures |SourcesFor(rs, key)| == |RowsWith(rs, key)|
    decreases |rs|
  {
    if rs != [] {
      SourcesSize(rs[..|rs| - 1], key);
      SourcesLength(rs, key);
      RowsWithLast(rs, key);
    }
  }

  /** The positions of the rows with serial `key`. */
  function RowsWith(rs: seq<Course>, key: string): set<nat> {
    set i | 0 <= i < |rs| && rs[i].serial == key
  }

  /** The last row adds its position exactly when it has the key. */
  lemma {:induction false} RowsWithLast(rs: seq<Course>, key: string)
    requires rs != []
    ensures |RowsWith(rs, key)| ==
      |RowsWith(rs[..|rs| - 1], key)| + if rs[|rs| - 1].serial == key then 1 else 0
  {
    var init, n := rs[..|rs| - 1], |rs| - 1;
    if rs[n].serial == key {
      RowsWithGrows(rs, key);
      AddFresh(RowsWith(init, key), n);
    } else {
      RowsWithSame(rs, key);
    }
  }

  /** A last row with the key adds its position. */
  lemma RowsWithGrows(rs: seq<Course>, key: string)
    requires rs != [] && rs[|rs| - 1].serial == key
    ensures RowsWith(rs, key) == RowsWith(rs[..|rs| - 1], key) + {|rs| - 1}
    ensures |rs| - 1 !in RowsWith(rs[..|rs| - 1], key)
  {
  }

  /** A last row without the key adds nothing. */
  lemma RowsWithSame(rs: seq<Course>, key: string)
    requires rs != [] && rs[|rs| - 1].serial != key
    ensures RowsWith(rs, key) == RowsWith(rs[..|rs| - 1], key)
  {
  }

  /** Adding a new element to a finite set grows it by one. */
  lemma AddFresh(a: set<nat>, n: nat)
    requires n !in a
    ensures |a + {n}| == |a| + 1
  {
  }

  /** The last row adds one source exactly when it has the key. */
  lemma SourcesLength(rs: seq<Course>, key: string)
    requires rs != []
    ensures |SourcesFor(rs, key)| ==
      |SourcesFor(rs[..|rs| - 1], key)| + if rs[|rs| - 1].serial == key then 1 else 0
  {
  }

  /** Every source comes from a row with the key. */
  lemma {:induction false} SourcesFromRows(rs: seq<Course>, key: string)
    ensures forall s :: s in SourcesFor(rs, key) ==> exists i :: 0 <= i < |rs| && rs[i].serial == key && SourceOf(rs[i]) == s
    decreases |rs|
  {
    if rs != [] {
      var init := rs[..|rs| - 1];
      SourcesFromRows(init, key);
      forall s | s in SourcesFor(rs, key)
        ensures exists i :: 0 <= i < |rs| && rs[i].serial == key && SourceOf(rs[i]) == s
      {
        if s in SourcesFor(init, key) {
          var i :| 0 <= i < |init| && init[i].serial == key && SourceOf(init[i]) == s;
          assert rs[i] == init[i];
        } else {
          assert rs[|rs| - 1].serial == key && SourceOf(rs[|rs| - 1]) == s;
        }
      }
    }
  }

  /**
    Replacing the displayed row keeps the sources and the key's position: a general-education
    row arriving after a non-general-education one is shown, and a later one is not.
   */
  lemma GeneralEducationWins(r1: Course, r2: Course, r3: Course)
    requires r1.serial == r2.serial == r3.serial
    requires !IsGeneralEducation(r1) && IsGeneralEducation(r2) && IsGeneralEducation(r3)
    ensures Merged([r1, r2, r3]) ==
      Table(map[r1.serial := Entry(r2, [SourceOf(r1), SourceOf(r2), SourceOf(r3)])], [r1.serial])
  {
    var k := r1.serial;
    var t1 := Merged([r1]);
    assert [r1][..0] == [];
    assert Merged([]) == Table(map[], []);
    assert t1 == Step(Table(map[], []), r1);
    assert map[][k := Entry(r1, [SourceOf(r1)])] == map[k := Entry(r1, [SourceOf(r1)])];
    assert t1 == Table(map[k := Entry(r1, [SourceOf(r1)])], [k]);
    var t2 := Merged([r1, r2]);
    assert [r1, r2][..1] == [r1];
    assert t2 == Step(t1, r2);
    assert k in t1.entries && t1.entries[k] == Entry(r1, [SourceOf(r1)]);
    assert [SourceOf(r1)] + [SourceOf(r2)] == [SourceOf(r1), SourceOf(r2)];
    assert [SourceOf(r1), SourceOf(r2)] + [SourceOf(r3)] == [SourceOf(r1), SourceOf(r2), SourceOf(r3)];
    assert t1.entries[k := Entry(r2, [SourceOf(r1), SourceOf(r2)])] == map[k := Entry(r2, [SourceOf(r1), SourceOf(r2)])];
    assert t2 == Table(map[k := Entry(r2, [SourceOf(r1), SourceOf(r2)])], [k]);
    assert [r1, r2, r3][..2] == [r1, r2];
    assert Merged([r1, r2, r3]) == Step(t2, r3);
  }
}
