# Course catalogue normaliser: a Dafny model

`main.py` scrapes the course tables of a university catalogue. It merges the rows it finds
under several departments and classes into one record per course serial number. It also
turns two free-text columns into structured data:

- **Meeting times.** `上課時間/教室`, such as `一3,4 二B,C(R101)`, becomes a list of
  `{day, start, end}` blocks.
- **Registration criteria.** `分發條件`, such as `(1)系:限機械工程學系。年:限三年級 | (2)系:限非電機工程學系`,
  becomes a list of priority-tagged rule groups.

This project models that core in Dafny and proves what it computes:

- the lookup tables: the period scale, the period dictionary and the weekday dictionary;
- `parse_time_string`;
- `parse_criteria_text`;
- the de-duplication loop of `main`;
- the three derived columns, including the `is_required` flag.

Modules, one per part of the program:

- `Wrappers`: the `Option` type, standing in for `dict.get` and `re.match` misses.
- `Text`: the Python `str` operations the parser relies on, with their properties. These are
  `isspace`/`\s`, `strip`, `lstrip`, `rstrip`, `split` on one character or a one-character
  class, `join`, `in`, `index`, and removal of a character class.
- `Seqs`: first-occurrence order, which is the key order of a Python dict.
- `Tables`: `PERIODS`, `PERIOD_MAP`, `DAYS_LIST` and `DAY_MAP_FOR_PARSER`.
- `TimeParser`: `parse_time_string`.
  - The two `re.sub` passes and the `re.finditer` scan are recursive functions over the text.
  - The index-collection loop, the run-length-encoding loop and the loop over matches are
    methods. Each is proved equal to a specification function.
  - The run-length encoding is proved to give the maximal-run decomposition of the sorted
    indices.
- `CriteriaParser`: `parse_criteria_text`.
  - The bar split, the clause split, the priority prefix, the operator removal, the key
    classification chain and the per-group rules dictionary are functions. The dictionary is
    an association list in insertion order.
  - The loops over groups and clauses are methods proved against those functions.
- `Dedup`: the merge loop, a method over the dictionary and its key order. It is proved equal
  to a fold and then characterised without reference to the loop:
  - one key per distinct serial, in order of first sighting;
  - every source kept, in input order;
  - the displayed row is the first general-education row, or else the first row.
- `Normalize`: the three `apply` columns over the merged records, and the promises about the
  final output.
- `Scenarios` and `CriteriaScenarios`: worked inputs, such as `一3,4 二B,C(R101)` and the
  two-group criteria text above, and some edge cases, as lemmas over the model's definitions.

Behaviour of the code that the model keeps as written:

- **The same weekday twice.** The code collects and encodes the indices of each regex match on
  its own. So `一1 一2` gives two Monday blocks, `[0,0]` and `[0,1]`, which are not merged
  (`Scenarios.SameDayExample`). Blocks are maximal runs only within one match.
- **Tie-break between general-education rows.** The displayed row is replaced only while it is
  not general education, so the *first* general-education row of a serial wins, not the last
  (`Dedup.GeneralEducationWins`).
- **Priority prefix.** The prefix pattern makes the bracket optional. Any group that starts with
  digits takes them as its priority, so a priority can be `0` and need not be bracketed
  (`CriteriaParser.LeadingIntegerPrefix`).
- **Period indices.** On the scale `1,2,3,4,Z,5,6,7,8,9,A,B,C,D`, `B` has index 11, so
  `一3,4 二B,C(R101)` gives Tuesday periods 11 to 12 (`Scenarios.TimeExample`).
- **Day numbering.** Days are numbered Monday = 0 to Sunday = 6, as `DAY_MAP_FOR_PARSER` does,
  even though `DAYS_LIST` lists Sunday first (`Tables.DayIndexShiftsDisplayOrder`).

## Model

| member | source | states |
|---|---|---|
| `Tables.PeriodIndexInverse` | main.py:20-21 | The period dictionary maps a code to `i` exactly when the code is entry `i` of the 14-entry `PERIODS` list. |
| `Tables.PeriodIndexDefined` | main.py:20-21 | A character has a period index exactly when it occurs in `PERIODS`. |
| `Tables.DayIndexShiftsDisplayOrder` | main.py:22-23 | The parser's weekday dictionary knows exactly the seven glyphs of `DAYS_LIST`. The glyph at display position `i` (Sunday first) gets day `(i + 6) % 7` (Monday = 0). |
| `Tables.DayIndexRange` | main.py:23 | Day numbers are 0..6, and distinct glyphs get distinct days. |
| `Text.RunLength` | main.py:118 | A greedy character-class run: it stays within the string, every character in it is in the class, and the character after it is not. |
| `Text.RunLengthOfPrefix` | main.py:118 | The run over `a + b` ends exactly at the end of `a`, when all of `a` is in the class and `b` does not start with a class character. |
| `Text.RunLengthAll` | main.py:151 | A string made only of class characters is one whole run. |
| `Text.TrimStart` | main.py:147 | `lstrip`: the result is a suffix of the input that starts with a non-space character, and everything removed is whitespace. |
| `Text.TrimEnd` | main.py:147 | `rstrip`: the result is a prefix of the input that ends with a non-space character, and everything removed is whitespace. |
| `Text.Strip` | main.py:124 | `strip`: neither end of the result is whitespace, and the result is empty exactly when the input is all whitespace. |
| `Text.StripIsSlice` | main.py:162 | The stripped text occurs in the input between an all-whitespace prefix and an all-whitespace suffix. |
| `Text.StripStripped` | main.py:149-152 | Stripping twice changes nothing (`g.strip().strip() == g.strip()`). |
| `Text.ContainsOccurrence` | main.py:166-173 | The substring test `pat in s` holds exactly when `pat` occurs at some position of `s`. |
| `Text.ContainsChar` | main.py:231 | For a one-character pattern, the substring test is character membership. |
| `Text.ContainsPart` | main.py:175 | A string that contains a pattern contains each character of it. |
| `Text.Split` | main.py:123 | `split` gives one more piece than there are separators, and no piece holds a separator. |
| `Text.SplitWeave` | main.py:123 | The pieces of a split, with the separators of the text put back between them in order, are the text again (for any separator class). |
| `Text.SplitUnique` | main.py:123 | Any separator-free pieces that, interleaved with separator characters, make up the text are exactly the pieces of the split, and the characters are the text's separators. |
| `Text.Only` | main.py:123 | The separators of a text: as many as it has, each one in the class. |
| `Text.JoinSplit` | main.py:123 | Splitting on a character and joining with it gives the original string back. |
| `Text.IndexOf` | main.py:161 | The first occurrence of a character: the position holds it and no earlier position does. |
| `Text.Without` | main.py:176 | Removing a character class leaves no character of the class. A character is in the result exactly when it is in the input and not in the class, and the result is shorter by the number of class characters. |
| `Text.WithoutAppend` | main.py:176 | Removal works character by character: removing from `a + b` is removing from `a`, then from `b`, so the kept characters stay in their order. |
| `Text.WithoutOne` | main.py:176 | A single character is kept exactly when it is not in the class. |
| `Text.TrimsTrimmed` | main.py:147 | `lstrip`, `rstrip` and both give a slice of the input with only whitespace removed, from the requested ends, and not ending in whitespace there. |
| `Text.TrimmedKeepsNoneIn` | main.py:147 | A trimmed slice of a text without a character of a class has none either. |
| `Seqs.FirstOccurrences` | main.py:212-215 | Dict key order: no repeats, and exactly the members of the input. |
| `Seqs.FirstOccurrencesOrder` | main.py:212-215 | Of two keys, the earlier one is first seen before any occurrence of the later one: the order of first sighting. |
| `TimeParser.FindCloser` | main.py:115 | The lazy `.*?[\)\]]` stops at the first closer after the opener. Everything before it is neither a closer nor a newline. |
| `TimeParser.StripAnnotations` | main.py:115 | Every character left after removing bracketed notes comes from the input. |
| `TimeParser.StripLocations` | main.py:116 | Every character left after removing `/location` suffixes comes from the input. |
| `TimeParser.DayMatches` | main.py:118-121 | Every match has a weekday 0..6 and a non-empty run of `[0-9A-Z,\-~]`. Text with no weekday glyph has no matches. |
| `TimeParser.MatchHere` | main.py:118 | The match tried at one position: a weekday glyph, whose day the match carries, and a non-empty code run within the text. |
| `TimeParser.MatchHereSpans` | main.py:118 | Where the match tried at the start fails, no match can start there. Where it succeeds, the match spans the glyph, whitespace, and a maximal code run. |
| `TimeParser.DayMatchesLocated` | main.py:118 | `re.finditer`: each match is a glyph of its day, then whitespace, then a maximal code run of the text. The matches are in text order and do not overlap. Every position where a match could start lies inside one of them. |
| `TimeParser.LocatedShift` | main.py:118 | Matches found in a suffix are matches of the whole text at shifted positions. |
| `TimeParser.LocatedSkip` | main.py:118 | Where no match can start at the first character, the scan of the rest is the scan of the whole. |
| `TimeParser.LocatedTake` | main.py:118 | A match at the start, followed by the scan of the rest of the text after it, is the scan of the whole. |
| `TimeParser.PeriodCode` | main.py:127-128 | `t in PERIOD_MAP` holds exactly for a one-character string on the scale. Its index is below 14, and the scale holds the character at that index. |
| `TimeParser.RangeEnds` | main.py:126-128 | A range decodes exactly when `re.split('[-~]')` gives at least two pieces and the first two are one-character period codes. The indices are those of the two endpoint characters on the scale. |
| `TimeParser.YieldsOnScale` | main.py:123-132 | Every index a code list yields is on the 14-period scale. |
| `TimeParser.PartYieldsOnScale` | main.py:124-132 | Every index one comma part yields, as a range or character by character, is on the 14-period scale. |
| `TimeParser.PeriodSet` | main.py:122-133 | `set(indices)` is exactly the indices some comma part of the code list yields. |
| `TimeParser.DecodePart` | main.py:124-132 | One stripped comma part appends exactly the indices it yields. A range yields everything between `min` and `max` of its endpoints, or nothing when an endpoint is not a code. Any other part yields each of its characters that is a code. |
| `TimeParser.RangeIndices` | main.py:128-129 | The `range(min(s,e), max(s,e)+1)` loop appends exactly the indices from `min` to `max`. |
| `TimeParser.CodeIndices` | main.py:131-132 | The character loop appends exactly the indices of the part's code characters. |
| `TimeParser.DecodePeriodList` | main.py:122-132 | The `indices` list of one match holds exactly the indices its comma parts yield. |
| `TimeParser.AscendingFrom` | main.py:133 | Strictly ascending, and exactly the members of the set from the lower bound to the end of the scale. |
| `TimeParser.SortedIndices` | main.py:133 | `sorted(list(set(indices)))` is strictly ascending (sorted, no duplicates) and has exactly the members of the set. |
| `TimeParser.RunsFromMaximal` | main.py:134-141 | With a block open from `s` to `p` and the ascending rest of the list still to scan, the encoding is separated blocks of the day. They cover exactly `s..p` and the rest, and the first starts at `s`. |
| `TimeParser.PrependBlock` | main.py:138-140 | Closing the open block at a gap puts a separate interval in front of the encoding of the rest. |
| `TimeParser.RunsMaximal` | main.py:134-141 | Run-length encoding an ascending list gives its maximal-run decomposition. The blocks are non-empty intervals of the day, ascending, pairwise neither overlapping nor touching, and together cover exactly the list. |
| `TimeParser.EncodeRuns` | main.py:134-141 | The closing loop computes the run-length encoding. On sorted indices that encoding is the maximal-run decomposition. |
| `TimeParser.EncodeMatch` | main.py:122-141 | The blocks one match appends are its decoded indices, deduplicated, sorted and encoded. |
| `TimeParser.ParseTimeString` | main.py:113-142 | `parse_time_string`: nothing for empty text or `未定`. Otherwise the blocks of every match of the cleaned text, in match order. |
| `TimeParser.MatchBlocksExact` | main.py:119-141 | The blocks of one match are separated, non-empty intervals of its day. Together they cover exactly the periods its code list yields. |
| `TimeParser.AllBlocksInRange` | main.py:117-142 | Every block of every match has a day 0..6 and `start <= end < 14`. |
| `TimeParser.TimeBlocksInRange` | main.py:113-142 | Every block of a parsed time string has a day 0..6 and `start <= end < 14`. |
| `TimeParser.NoDayNoBlocks` | main.py:118-121 | Text without any weekday glyph parses to no blocks. |
| `Scenarios.NotUnscheduled` | main.py:114 | Text that does not mention `未` is never the `未定` sentinel. |
| `Scenarios.PlainAnnotations` | main.py:115 | Text without an opening bracket passes the annotation removal unchanged. |
| `Scenarios.PlainLocations` | main.py:116 | Text without a slash passes the location removal unchanged. |
| `Scenarios.CloserAfter` | main.py:115 | The lazy scan stops at the first closer when only non-closers, none of them a newline, come before it. |
| `Scenarios.NoteDropped` | main.py:115 | A bracketed note that closes on its line is removed whole. |
| `Scenarios.CleanBeforeNote` | main.py:115-116 | Plain text followed by a closed note cleans to the plain text. |
| `Scenarios.MatchSkip` | main.py:118 | A character that is not a weekday glyph starts no match. |
| `Scenarios.MatchTake` | main.py:118 | A glyph followed by a maximal code run is one match, and the scan resumes after the run. |
| `Scenarios.TwoMatches` | main.py:118-119 | Two glyph-and-code runs separated by a non-code, non-glyph character are two matches, in order. |
| `Scenarios.IncreasingSpread` | main.py:133 | A strictly ascending list of naturals climbs by at least one per position. |
| `Scenarios.IncreasingPair` | main.py:133 | The sorted, deduplicated list with members `x` and `x + 1` is `[x, x + 1]`. |
| `Scenarios.IncreasingSingle` | main.py:133 | The sorted, deduplicated list with the single member `x` is `[x]`. |
| `Scenarios.SingleCode` | main.py:131-132 | A one-character part that is a period code yields exactly its index. |
| `Scenarios.CommaPair` | main.py:123-124 | `a,b` splits on its comma into `a` and `b`, each already stripped. |
| `Scenarios.TwoCodes` | main.py:123-132 | `a,b` for two period codes yields exactly their two indices. |
| `Scenarios.OneCodeYields` | main.py:123-132 | A single period code yields exactly its index. |
| `Scenarios.AdjacentPair` | main.py:133-141 | Two adjacent periods written `a,b` make one two-period block. |
| `Scenarios.OneCode` | main.py:133-141 | One period code makes one one-period block. |
| `Scenarios.PairsText` | main.py:114-116 | Two glyph-and-code runs followed by a bracketed room note are not `未定` and clean to the glyph-and-code part. |
| `Scenarios.PairsBlocks` | main.py:118-141 | Two day matches of two adjacent codes each give one two-period block per day, in order. |
| `Scenarios.TwoDaysOfPairs` | main.py:113-142 | Two weekday glyphs, each followed by two adjacent comma-separated codes, then a room note, give one two-period block per day. The note is dropped. |
| `Scenarios.TimeExample` | main.py:113-142 | `一3,4 二B,C(R101)` parses to `[Block(0,2,3), Block(1,11,12)]`. |
| `Scenarios.SameDayText` | main.py:114-116 | Two single-code matches on one glyph, separated by a space, need no cleaning. |
| `Scenarios.SameDayBlocks` | main.py:118-141 | Each of the two matches is encoded on its own, giving one block each. |
| `Scenarios.SameDayTwice` | main.py:119-141 | The same weekday glyph twice gives two separate blocks, even when the periods are adjacent. |
| `Scenarios.SameDayExample` | main.py:113-142 | `一1 一2` parses to `[Block(0,0,0), Block(0,1,1)]`, two unmerged Monday blocks. |
| `CriteriaParser.FirstMatchIsFirst` | main.py:164-173 | First-match semantics of an ordered keyword table. The chosen row is mentioned and no earlier row is. A key that mentions no row is `Other`. |
| `CriteriaParser.ClassifyByTable` | main.py:164-173 | The `if/elif` chain classifies every key as the ordered keyword table does: 系/院, 年, 班, 學號, 身, 學制, 指定/先修, 人數/上限. |
| `CriteriaParser.ClassifyPrecedence` | main.py:164-173 | A key is `other` exactly when it mentions no keyword row. Otherwise its category is that of the first row it mentions, and it mentions no earlier row. |
| `CriteriaParser.ModeExcludes` | main.py:175 | The mode is exclude exactly when the value mentions `非` and either the category is not identity or the value contains `限非`. |
| `CriteriaParser.RemoveOperatorsDropsBoth` | main.py:176 | The three-way alternation of `限非`, `非` and `限` removes exactly every `限` and every `非`. |
| `CriteriaParser.ValueItemsClean` | main.py:176-177 | Every value item is non-empty, is not whitespace at either end, and holds neither a list separator nor an operator character. |
| `CriteriaParser.NonEmptyItemsStages` | main.py:177 | The comprehension `[x.strip() for x in pieces if x.strip()]` is the stripping of every piece followed by the filter that drops the blank ones. |
| `CriteriaParser.DropBlankPicks` | main.py:177 | The `if x.strip()` filter keeps exactly the non-empty strings, at ascending positions, in order. |
| `CriteriaParser.PicksSkip` | main.py:177 | An empty string at the end is not kept. |
| `CriteriaParser.PicksKeep` | main.py:177 | A non-empty string at the end is kept, after the others. |
| `CriteriaParser.ValueItemsSpec` | main.py:176-177 | The values are the pieces between list separators of the value with `限` and `非` removed. Each is stripped, the blank ones are dropped, and the order is kept. |
| `CriteriaParser.SplitClause` | main.py:159-162 | No colon of either width drops the clause. Otherwise the split is at the first half-width colon if there is one, else at the first full-width one, and both halves are stripped. |
| `CriteriaParser.ParseClauseDrops` | main.py:159 | A clause yields no entry exactly when it has no colon of either width. |
| `CriteriaParser.ClauseValueSpec` | main.py:175-183 | Parity stores `{include, parity}`. Every other category stores the mode as above and the clean value items in order, with grade words turned into digits. |
| `CriteriaParser.OddParityWins` | main.py:180-182 | A student-ID clause whose value mentions `單` stores `{include, odd}`, whatever else the value says. |
| `CriteriaParser.AssignUpdates` | main.py:181-183 | `r_obj[fk] = v` keeps the key order and appends a key only if it is new. The key then maps to `v`, and every other key is unchanged. |
| `CriteriaParser.FillSemantics` | main.py:157-183 | A group's dictionary has one entry per category some clause names, with no repeats, in order of first appearance. Each entry is the value of the last clause of its category. |
| `CriteriaParser.DecimalValue` | main.py:154 | `int()` reads the decimal numeral of `n` back as `n`. |
| `CriteriaParser.DefaultPriority` | main.py:150-155 | A group that does not start with a digit, with or without one bracket before it, has priority 1 and its whole text as content. |
| `CriteriaParser.PriorityPrefixMatches` | main.py:151-152 | The prefix pattern matches exactly when the group starts with a digit, or with an opening bracket followed by a digit. |
| `CriteriaParser.LeadingIntegerPrefix` | main.py:151-155 | An optional opening bracket, a maximal digit run and any rest: the priority is `int()` of the digits, leading zeros included, and the content is that of the rest. |
| `CriteriaParser.NumberFirst` | main.py:151-154 | A group that starts with digits reads them as its number and the text after them as its content. |
| `CriteriaParser.DigitsOfPrefix` | main.py:154 | The digits at the front of a group are read as that digit string. |
| `CriteriaParser.ContentOfRest` | main.py:151 | The content after a prefix is the content of what follows the prefix. |
| `CriteriaParser.PriorityContentShape` | main.py:151 | The captured content is what follows, in this order: at most one closing bracket, whitespace, at most one separator and whitespace. Each optional part is taken whenever it is present. The content runs to the first newline or to the end. |
| `CriteriaParser.SkipFirst` | main.py:151 | `[...]?` at the start drops the first character exactly when it is in the class. |
| `CriteriaParser.SkipAt` | main.py:151 | `[...]?` at a position drops the character there exactly when it is in the class. |
| `CriteriaParser.TrimAt` | main.py:151 | `\s*` at a position drops exactly the whitespace run there. |
| `CriteriaParser.CutAt` | main.py:151 | `(.*)` at a position takes everything up to the first newline. |
| `CriteriaParser.ExplicitPriority` | main.py:151-155 | A bracketed number, an optional closing bracket and a plain body give that number as priority and the body's rules. |
| `CriteriaParser.CloserSkipped` | main.py:151 | An optional closing bracket before text that does not start with one is skipped. |
| `CriteriaParser.NumberAfterBracket` | main.py:151-154 | After an opening bracket, the digit run is read as the number and the text after it gives the content. |
| `CriteriaParser.BodyAfterNumber` | main.py:151 | After the numeral, an optional closing bracket is skipped and a plain body is taken whole as content. |
| `CriteriaParser.ClauseSplitSpec` | main.py:158 | `re.split(r'[。；;]\s*')` cuts at every terminator and nowhere else. It gives one clause per terminator plus one. No clause holds a terminator. Each clause after the first loses only its leading whitespace. The untrimmed pieces, with the terminators put back, are the content. |
| `CriteriaParser.BarSplitSpec` | main.py:147 | `re.split(r'\s*[|｜]\s*')` cuts at every bar and nowhere else. It gives one group per bar plus one. No group holds a bar. Each group loses only the whitespace next to its bars. The untrimmed pieces, with the bars put back, are the text. |
| `CriteriaParser.NonBlankAppend` | main.py:148-149 | Dropping blank groups distributes over concatenation, so the groups keep their source order. |
| `CriteriaParser.NonBlankOne` | main.py:149 | One group is kept, stripped, exactly when it is not blank. |
| `CriteriaParser.GroupsStep` | main.py:148-184 | Each further segment adds its parsed group unless it is blank. |
| `CriteriaParser.ParseRules` | main.py:157-183 | The clause loop builds the group dictionary of the content. |
| `CriteriaParser.ParseGroupText` | main.py:150-184 | One group: the priority prefix (default 1) and the dictionary of the remaining content. |
| `CriteriaParser.ParsePieces` | main.py:147-184 | The group loop parses every non-blank segment, stripped, in order. |
| `CriteriaParser.ParseCriteriaText` | main.py:144-185 | `parse_criteria_text`: nothing for empty, blank, `無` or `None` text. Otherwise one group per non-blank bar-separated segment. |
| `CriteriaParser.GroupsInSourceOrder` | main.py:147-185 | The group of a non-blank segment sits at the position given by the non-blank segments before it, so groups are never reordered by priority. |
| `CriteriaScenarios.SplitPlain` | main.py:158 | Text without a separator is one piece. |
| `CriteriaScenarios.SplitAround` | main.py:147 | Two separator-free texts around one separator are two pieces. |
| `CriteriaScenarios.WithoutOperators` | main.py:176 | Operator characters in front of operator-free text are all removed. |
| `CriteriaScenarios.ValueOfItem` | main.py:176-177 | `限item` or `限非item` has the single value `item`. |
| `CriteriaScenarios.ModeOfOperator` | main.py:175 | `限` before operator-free text includes, and `限非` excludes. |
| `CriteriaScenarios.ColonAfterKey` | main.py:160-161 | The first colon of `key:rest` is right after a colon-free key. |
| `CriteriaScenarios.SplitClauseAt` | main.py:159-162 | `key:rest` splits into the stripped key and the stripped rest. |
| `CriteriaScenarios.ValueOfClause` | main.py:175-183 | The value `限item` of a list category stores that one item with mode include, and `限非item` with mode exclude. A grade word becomes a digit. |
| `CriteriaScenarios.ListClause` | main.py:159-183 | Outside the student-ID category, the clause `key:限item` stores one item under the key's category with mode include, and `key:限非item` with mode exclude. |
| `CriteriaScenarios.TwoClauses` | main.py:158 | Two clauses joined by `。` are split back into the two. |
| `CriteriaScenarios.FillTwo` | main.py:157-183 | Two well-formed clauses of different categories give two entries, in clause order. |
| `CriteriaScenarios.BarBetween` | main.py:147 | A bar with a space on each side, between two trimmed groups, splits them apart, and the spaces around the bar are removed. |
| `CriteriaScenarios.NonBlankTwo` | main.py:148-149 | Two non-blank trimmed groups are both kept. |
| `CriteriaScenarios.TextNotSentinel` | main.py:145 | Two groups joined by a spaced bar never form a sentinel text. |
| `CriteriaScenarios.TwoGroups` | main.py:144-185 | Two groups joined by a spaced bar are parsed each on its own, in order. |
| `CriteriaScenarios.GroupRulesTwo` | main.py:157-184 | Two clauses of different categories joined by `。` give a dictionary of their two entries, in clause order. |
| `CriteriaScenarios.GroupRulesOne` | main.py:157-184 | A content of one well-formed clause gives a dictionary of that one entry. |
| `CriteriaScenarios.GroupOfTwo` | main.py:150-184 | `(n)` followed by two clauses gives priority `n` and both entries. |
| `CriteriaScenarios.GroupOfOne` | main.py:150-184 | `(n)` followed by one clause gives priority `n` and its entry. |
| `CriteriaScenarios.DeptKey` | main.py:166 | The key `系` is a department key. |
| `CriteriaScenarios.GradeKey` | main.py:166-167 | The key `年` is a grade key. |
| `CriteriaScenarios.MechanicalClause` | main.py:159-183 | `系:限機械工程學系` is department, include, `["機械工程學系"]`. |
| `CriteriaScenarios.ThirdYearClause` | main.py:179 | `年:限三年級` is grade, include, `["3"]`. |
| `CriteriaScenarios.NotElectricalClause` | main.py:175 | `系:限非電機工程學系` is department, exclude, `["電機工程學系"]`. |
| `CriteriaScenarios.FirstGroup` | main.py:150-184 | `(1)系:限機械工程學系。年:限三年級` has priority 1, the department entry, and then the grade entry. |
| `CriteriaScenarios.SecondGroup` | main.py:150-184 | `(2)系:限非電機工程學系` has priority 2 and the excluding department entry. |
| `CriteriaScenarios.CriteriaExample` | main.py:144-185 | `(1)系:限機械工程學系。年:限三年級 \| (2)系:限非電機工程學系` parses to priority 1 with the department and grade entries, then priority 2 with the excluding department entry. |
| `Dedup.Deduplicate` | main.py:201-226 | The merge loop leaves the dictionary and its key order that the fold of one step per row gives. |
| `Dedup.FirstSuchIsFirst` | main.py:221-226 | The first row with a key that passes a test: it passes, and no earlier row with the key does. When there is none, no row with the key passes. |
| `Dedup.MergedDomain` | main.py:212-215 | The dictionary's keys are the serials of the rows, and exactly the keys in its key order. |
| `Dedup.MergedOrder` | main.py:212-215 | The key order is the order in which serials are first seen. |
| `Dedup.MergedSources` | main.py:207-219 | A key's `sources` lists the `{dept, class}` of every row with the key, in input order, repeats kept. |
| `Dedup.MergedCanonical` | main.py:212-226 | A key's displayed row is its first general-education row, or its first row if none is general education. |
| `Dedup.MergedKey` | main.py:203-215 | A serial is a key exactly when some row carries it. |
| `Dedup.MergedEntry` | main.py:203-226 | The entry of a key has all its sources, its own serial and its canonical row. |
| `Dedup.MergedSpec` | main.py:201-226 | Keys are distinct, in order of first sighting, and exactly the serials of the rows. Each entry carries its full source list and its canonical row. |
| `Dedup.SourcesCount` | main.py:212-219 | A course seen in N rows has exactly N sources, each from one of those rows. Provenance never shrinks. |
| `Dedup.SourcesSize` | main.py:212-219 | There is one source per row with the serial. |
| `Dedup.SourcesFromRows` | main.py:214-219 | Every source is the `{dept, class}` of some row with the serial. |
| `Dedup.GeneralEducationWins` | main.py:221-226 | Rows non-GE, GE, GE for one serial (GE = general education): the first GE row is displayed, all three sources are kept, and the key keeps its position. |
| `Normalize.IsRequired` | main.py:231 | `is_required` holds exactly when the `必選修` text contains `必`. |
| `Normalize.ProcessOne` | main.py:229-231 | One record gets its parsed times, parsed criteria and required flag. |
| `Normalize.ProcessEntries` | main.py:228-231 | The columns are computed for every merged entry, in key order. |
| `Normalize.ProcessRecords` | main.py:201-231 | The merge followed by the column computations gives `Output`. |
| `Normalize.OutputSpec` | main.py:201-231 | One output record per distinct serial, in order of first sighting. Each carries every source of its serial and its canonical row. Its three columns are computed from that row's own time, criteria and required-course texts. |
| `Normalize.OutputSerialsDistinct` | main.py:228 | No serial appears in two output records. |

## Left out

- Fetching and parsing the catalogue pages (`get_all_class_links`, `scrape_table_page`, main.py:26-110): HTTP and HTML parsing are I/O. The model takes the scraped rows as its input sequence.
- The progress messages and the random delays between requests in `main` (main.py:188-198, 237): console output and sleeping.
- `if not links: return` (main.py:189): with no pages, the source writes no file at all. The model only covers the processing of a row sequence.
- Normalize.ProcessRecords: an empty row sequence makes the source raise `KeyError` at main.py:229, because `pd.DataFrame([])` has no columns. The model returns `[]` there instead of modelling that error path.
- Building the DataFrame and writing the JSON file (main.py:228, 233-236): the model's output is a sequence of records, not a file. Pandas' handling of missing cells (`NaN`) is not modelled, and neither are the row columns the core never reads.
- Non-string inputs: every column is modelled as a string. `None`, `NaN` and the `str()` conversions of the source are not modelled.
- CriteriaParser.PriorityPrefix: `\d` and `int()` are modelled on the ASCII digits only. Python also accepts the other Unicode decimal digits.
- Whitespace: `\s` and `str.strip()` are modelled by one fixed character set, that of `str.isspace()`.
- The aliasing of the scraped rows: the source stores `sources` into the row dictionaries themselves (main.py:214, 225-226). Those rows are not read again, so the model keeps the row and its sources side by side in an entry.
- The dictionary keys of the output records (`dept`, `grade`, …, `mode`, `values`, `value`): categories are a datatype, and `CriteriaParser.CategoryKey` gives each one's key name.
- TimeParser.StripAnnotations: its contract states only that every remaining character comes from the input. The annotation semantics is its definition, and `Scenarios.NoteDropped`, `Scenarios.PlainAnnotations` and `Scenarios.CloserAfter` state it on cases.
- TimeParser.StripLocations: its contract states only that every remaining character comes from the input. `Scenarios.PlainLocations` states that slash-free text is kept.
- TimeParser.DecodePeriodList: it states which indices the list holds, not their order or repeats. `sorted(list(set(...)))` discards both right afterwards (main.py:133).
