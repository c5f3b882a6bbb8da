/**
  The post-processing in `main`: the merged entries, in dictionary order, each get the parsed
  meeting times, the parsed registration criteria and the required-course flag.
 */
module Normalize {
  import opened Wrappers
  import opened Text
  import opened Seqs
  import opened TimeParser
  import opened CriteriaParser
  import opened Dedup

  /** The required-course flag: the 必選修 marker mentions `必`. */
  function IsRequired(marker: string): (r: bool)
    ensures r <==> '必' in marker
  {
    ContainsChar(marker, '必');
    Contains(marker, "必")
  }

  /** One output record: the displayed row, its sources and the three derived columns. */
  datatype Processed = Processed(
    course: Course,
    sources: seq<Source>,
    timeParsed: seq<Block>,
    rulesParsed: seq<RuleGroup>,
    isRequired: bool)

  /** The derived columns of one entry. */
  function ProcessEntry(e: Entry): Processed {
    Processed(e.course, e.sources, TimeBlocks(e.course.time), CriteriaGroups(e.course.criteria), IsRequired(e.course.required))
  }

  /** The output records: one per dictionary key, in key order. */
  function Output(rs: seq<Course>): seq<Processed> {
    var t := Merged(rs);
    MergedDomain(rs);
    seq(|t.order|, i requires 0 <= i < |t.order| => ProcessEntry(t.entries[t.order[i]]))
  }

  /** The three column computations for one entry. */
  method ProcessOne(e: Entry) returns (p: Processed)
    ensures p == ProcessEntry(e)
  {
    var blocks := ParseTimeString(e.course.time);
    var groups := ParseCriteriaText(e.course.criteria);
    p := Processed(e.course, e.sources, blocks, groups, IsRequired(e.course.required));
  }

  /** The column computations applied to the entries in key order. */
  method ProcessEntries(unique: map<string, Entry>, order: seq<string>) returns (out: seq<Processed>)
    requires forall k :: k in order ==> k in unique
    ensures |out| == |order| && forall j :: 0 <= j < |order| ==> out[j] == ProcessEntry(unique[order[j]])
  {
    out := [];
    for i := 0 to |order|
      invariant |out| == i
      invariant forall j :: 0 <= j < i ==> out[j] == ProcessEntry(unique[order[j]])
    {
      var p := ProcessOne(unique[order[i]]);
      out := out + [p];
    }
  }

  /** The merge loop followed by the three column computations over the merged entries. */
  method ProcessRecords(rs: seq<Course>) returns (out: seq<Processed>)
    ensures out == Output(rs)
  {
    var unique, order := Deduplicate(rs);
    MergedDomain(rs);
    out := ProcessEntries(unique, order);
  }

  /**
    The output has one record per distinct serial, in order of first sighting; each record
    carries every source of its serial, its canonical row, and the columns parsed from that
    row's own time, criteria and required-course texts.
   */
  lemma OutputSpec(rs: seq<Course>)
    ensures var out := Output(rs);
      var keys := FirstOccurrences(Serials(rs));
      && |out| == |keys|
      && forall i :: 0 <= i < |out| ==>
           && out[i].course.serial == keys[i]
           && out[i].sources == SourcesFor(rs, keys[i])
           && Canonical(rs, keys[i]) == Some(out[i].course)
           && out[i].timeParsed == TimeBlocks(out[i].course.time)
           && out[i].rulesParsed == CriteriaGroups(out[i].course.criteria)
           && (out[i].isRequired <==> '必' in out[i].course.required)
  {
    var out := Output(rs);
    var keys := FirstOccurrences(Serials(rs));
    MergedSpec(rs);
    forall i | 0 <= i < |out|
      ensures out[i].course.serial == keys[i]
      ensures out[i].sources == SourcesFor(rs, keys[i])
      ensures Canonical(rs, keys[i]) == Some(out[i].course)
      ensures out[i].timeParsed == TimeBlocks(out[i].course.time)
      ensures out[i].rulesParsed == CriteriaGroups(out[i].course.criteria)
      ensures out[i].isRequired <==> '必' in out[i].course.required
    {
      OutputRecord(rs, i);
    }
  }

  /** The record at one position of the output. */
  lemma OutputRecord(rs: seq<Course>, i: nat)
    requires i < |Output(rs)|
    ensures var t := Merged(rs);
      i < |t.order| && t.order[i] in t.entries && Output(rs)[i] == ProcessEntry(t.entries[t.order[i]])
  {
    MergedDomain(rs);
  }

  /** No serial number appears in two output records. */
  lemma OutputSerialsDistinct(rs: seq<Course>)
    ensures var out := Output(rs);
      forall i, j :: 0 <= i < j < |out| ==> out[i].course.serial != out[j].course.serial
  {
    OutputSpec(rs);
    MergedSpec(rs);
  }
}
