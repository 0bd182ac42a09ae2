# Mentor/mentoree pipeline, modelled in Dafny

This project models the pipeline in `helper_functions.py`. The pipeline runs in five steps:

1. It turns raw user records into member records. A record that lacks a key, or whose registration date does not parse, is skipped.
2. It splits the members into a mentor cohort and a mentoree cohort.
3. It sorts both cohorts in place by registration date. It then gives the i-th mentoree the mentor at position i modulo the number of mentors.
4. It reports two figures over the pairing table:
   - the median age of paired male mentorees who registered on or after 2010-01-01;
   - per mentoree gender, the number of distinct mentorees whose mentor is 60 or older.
5. It audits the pairing table. Each pairing is joined back to its mentor and its mentoree, and the cohort rules are checked again.

Tables are sequences of records, not dataframes. Each joined or grouped query is written as an explicit join and an explicit fold. Beside each one is a reference definition, and lemmas show that the two agree. For the inner join behind the median, they agree on how often each row occurs, not only on which rows occur.

Modules, one per file:

- `Options` (options.dfy): `Option` and `Result`.
- `Sequences` (sequences.dfy): `Select`, the order-preserving filter, and the facts about it that every filter relies on.
- `Timestamps` (timestamps.dfy):
  - the `datetime` value and its chronological order;
  - `Parse`, the `strptime` pattern `%Y-%m-%dT%H:%M:%S.%fZ` as a partial function. The pattern is a list of numeric directives, each with its width bounds and the separator after it, scanned in turn;
  - `Format`, the canonical text, with a round-trip lemma, and a round trip for text with one to six fraction digits.
- `Members` (members.dfy): raw records, the `Member` record and `create_members`.
- `Cohorts` (cohorts.dfy): the two cohort rules and `filter_mentors_and_mentorees`.
- `Pairing` (pairing.dfy):
  - the stable in-place sort of a cohort, on an `array`;
  - `create_mentorships`;
  - `assign_mentorships`.
- `Analytics` (analytics.dfy): `median_age_of_male_mentorees` and `total_mentorees_by_gender_and_mentor_age`.
- `Audit` (audit.dfy): `check_discrepancies`.
- `Pipeline` (pipeline.dfy): one run of the whole pipeline. An empty pairing table stops the run before any report. Otherwise, when member uuids are unique, the audit of the engine's own output is empty.

## Model

| member | source | states |
|---|---|---|
| Sequences.Select | helper_functions.py:159-170 | The filter keeps exactly the elements that pass, and never yields more than it was given. |
| Sequences.SelectIsSubsequence | helper_functions.py:159-170 | What a filter keeps appears in the input's relative order. |
| Sequences.SelectConcat | helper_functions.py:159-170 | Filtering a concatenation gives the concatenation of the two filtered parts. |
| Timestamps.TicksChronological | helper_functions.py:165 | On valid timestamps, the integer key is smaller exactly when the date-time is earlier. Equal keys mean equal timestamps. Every date comparison in the model therefore compares date-times. |
| Timestamps.Parse | helper_functions.py:70 | A parsed timestamp is a real calendar date-time: year 1..9999, a day that exists in that month, hours below 24, minutes and seconds below 60. |
| Timestamps.ParseFormat | helper_functions.py:70 | Every valid timestamp, written in canonical form, parses back to itself. |
| Timestamps.ParseShortFraction | helper_functions.py:70 | A valid timestamp written with w fraction digits, for any w from 1 to 6, parses back to itself. The fraction is padded on the right, so ".808" is 808000 microseconds. |
| Timestamps.ParseScanned | helper_functions.py:70 | Text whose seven fields scan to a valid timestamp's values, with nothing left over, parses to that timestamp. The fraction's value times 10^(6 - its width) is the microseconds. |
| Timestamps.MicrosecondsScale | helper_functions.py:70 | Padding a fraction of w digits on the right to six digits multiplies it by 10^(6 - w). |
| Timestamps.ScanRender | helper_functions.py:70 | Text written field by field, each field within its directive's width bounds and followed by one of its separator spellings, scans back to exactly those values and widths. |
| Timestamps.DigitsValueOf | helper_functions.py:70 | A value below 10^w, written as w zero-padded digits, reads back as that value. |
| Members.FirstMissing | helper_functions.py:102-114 | The key reported is absent from the record. None is reported exactly when all keys are present. |
| Members.FirstMissingIsFirst | helper_functions.py:102-114 | Every key read before the reported one is present, so the report names the first missing key in reading order. |
| Members.Normalize | helper_functions.py:63-71 | A record becomes a member exactly when every key is present and the date parses. A skip for a missing key names a key that is absent. A skip for a bad date holds the exact text that failed to parse. |
| Members.NormalizedFields | helper_functions.py:63-71 | The full name is first name, a space, last name. The address is "<number> <street>, <postcode> <city>". The date is the parsed text. The other fields are copied unchanged. |
| Members.NormalizeAll | helper_functions.py:84-138 | Normalising never yields more members than input records. |
| Members.NormalizeAllMembers | helper_functions.py:99-126 | A member is in the output exactly when some input record normalises to it. |
| Members.BadRecordIsSkipped | helper_functions.py:131-134 | A failing record is dropped without disturbing the records before or after it. |
| Members.NormalizeAllConcat | helper_functions.py:99-134 | Records are processed independently: the output for a concatenation is the concatenation of the outputs. |
| Members.NormalizedDatesValid | helper_functions.py:70 | Every member's registration date is a valid date-time. |
| Members.EveryRecordAccountedFor | helper_functions.py:99-134 | Each input record is either a member or a reported skip. |
| Members.SkipsAreExact | helper_functions.py:131-134 | The reported skips are in increasing input order. Each carries the reason its record failed. Every failing record is reported. |
| Members.CreateMembers | helper_functions.py:84-138 | The loop yields the normalised members in input order, plus the skip report. Their counts add up to the input count. |
| Cohorts.FilterMentorsAndMentorees | helper_functions.py:141-183 | The loop appends each member to the mentor list when it is female, at least 40 and registered at or before 2004-01-01 00:00. It appends the member to the mentoree list when it is at most 30. The two tests are separate. |
| Cohorts.CohortsKeepOrder | helper_functions.py:159-170 | Each cohort is a subsequence of the member list. |
| Cohorts.CohortsAreDisjoint | helper_functions.py:165-170 | No member satisfies both rules, because the age tests exclude each other. |
| Pairing.SwapKeepsDateRuns | helper_functions.py:289-290 | Swapping two neighbours with different dates keeps every same-date run and the multiset. |
| Pairing.StableSortIsUnique | helper_functions.py:289-290 | Two date-sorted lists with the same same-date runs are equal. The stable sort's result is therefore unique. |
| Pairing.SwapNeighbours | helper_functions.py:289-290 | An in-place swap of two neighbours with different dates keeps the same-date runs and the multiset. |
| Pairing.InsertIntoSorted | helper_functions.py:289-290 | Sifting element i left extends the sorted prefix by one. It keeps every same-date run and the multiset, and leaves the elements after i unchanged. |
| Pairing.SortByRegistration | helper_functions.py:289-290 | The list is sorted in place by registration date. It is a stable permutation: equal-date members keep their relative order. |
| Pairing.SortCohorts | helper_functions.py:289-290 | Both caller lists end stably sorted, even when they are the same list. |
| Pairing.CreateMentorships | helper_functions.py:210-263 | When either list is empty, the result is empty and the warning is raised. Otherwise the k-th pairing joins the k-th mentor to the k-th mentoree under the k-th id, for min(len) pairings. |
| Pairing.AssignMentorships | helper_functions.py:266-321 | With no mentors or no mentorees, it warns, returns nothing and leaves both lists untouched. Otherwise both lists end stably sorted by date, there is one pairing per mentoree, and pairing i joins mentor i mod count to mentoree i. |
| Pairing.EachMentoreeOnce | helper_functions.py:297-308 | When mentoree uuids are distinct, each mentoree is named by exactly one pairing. |
| Analytics.MentoreeRows | helper_functions.py:376 | The inner join keeps exactly the members that some pairing names as mentoree. |
| Analytics.MentoreeRowsCount | helper_functions.py:376 | Each member occurs in the joined rows as often as it occurs in the member table, times the number of pairings naming it as mentoree. |
| Analytics.InsertInt | helper_functions.py:391 | Inserting into a sorted list keeps it sorted and adds exactly the new element. |
| Analytics.SortIntsCount | helper_functions.py:391 | Sorting the ages does not change how many pass any test, so the sorted list is a rearrangement of the original. |
| Analytics.Median | helper_functions.py:391 | No value exactly for an empty list. |
| Analytics.MedianIsMiddle | helper_functions.py:391 | The median is the middle element for an odd count, and the mean of the two middle elements for an even count. |
| Analytics.MiddlesSplitList | helper_functions.py:391 | Both middle elements come from the list, the lower is at most the upper, and they coincide for an odd count. At least half the list lies at or below the lower one, and at least half at or above the upper one. |
| Analytics.MiddleRanks | helper_functions.py:391 | At most (n - 1) / 2 elements lie strictly below the lower middle, and at most (n - 1) / 2 strictly above the upper middle. With MiddlesSplitList, this fixes the middle elements as the list's order statistics. |
| Analytics.MedianOfPermutation | helper_functions.py:391 | Two lists with the same multiset of values have the same median. |
| Analytics.MedianAgeOfMaleMentorees | helper_functions.py:360-396 | No value exactly when no male member registered on or after 2010-01-01 is named as mentoree by a pairing. |
| Analytics.MaleMentoreeAgesMeaning | helper_functions.py:376-381 | An age occurs in the ages the median is taken over exactly when some paired male mentoree who registered on or after 2010-01-01 has that age. |
| Analytics.MaleMentoreeAgeCounts | helper_functions.py:376-381 | Each age occurs in the median's input as many times as the inner join matches a male member of that age registered on or after 2010-01-01: one match per member row and pairing naming it. |
| Analytics.MedianAgeValue | helper_functions.py:360-396 | The report equals the median of any list that holds each age as often as the inner join matches such a member of that age. The report does not depend on row order. |
| Analytics.SeniorMentorUuids | helper_functions.py:418-422 | The sub-query yields exactly the mentor uuids of pairings that match a member aged 60 or more. |
| Analytics.SeniorGenderRows | helper_functions.py:414-423 | The join keeps a (gender, mentoree) row exactly when some pairing with a senior mentor names that mentoree, and a member with that uuid has that gender. |
| Analytics.GroupDistinct | helper_functions.py:415-423 | Grouping has a group exactly for each gender that occurs. A group holds exactly the mentoree uuids seen with that gender, and no group is empty. |
| Analytics.TotalMentoreesByGender | helper_functions.py:399-436 | Every reported count is at least one. |
| Analytics.TotalMentoreesMeaning | helper_functions.py:414-423 | A gender is reported exactly when some mentoree of that gender has a mentor aged 60 or more, and its count is the number of distinct such mentorees. Pairings whose mentor or mentoree is missing count for nothing. |
| Audit.LeftMatches | helper_functions.py:456-460 | The left join's entries are exactly the members with the uuid, or a missing entry when there is none. It is never empty. |
| Audit.LeftMatchesCounts | helper_functions.py:456-460 | A uuid that matches no member gives exactly one missing entry. Otherwise there is one entry per matching member row, and each matching member occurs as often as in the member table. |
| Audit.MergeRows | helper_functions.py:456-460 | The joined rows are exactly a pairing, one of its mentor entries and one of its mentoree entries. |
| Audit.CheckDiscrepancies | helper_functions.py:439-480 | Each reported row comes from a pairing and breaks the rule for its side. |
| Audit.InvalidMentorIff | helper_functions.py:466-470 | A pairing is reported as an invalid mentor exactly when its mentor uuid matches no member, or matches a member that is not female, under 40 or registered after 2004-01-01. |
| Audit.InvalidMentoreeIff | helper_functions.py:474-477 | A pairing is reported as an invalid mentoree exactly when its mentoree uuid matches no member, or matches a member older than 30. |
| Audit.AuditCleanOnCohortPairs | helper_functions.py:439-480 | With unique member uuids, pairings drawn from the two cohorts give two empty reports. |
| Pipeline.PairsDrawnFromCohorts | helper_functions.py:297-305 | Pairings whose mentors and mentorees come from rearranged cohort lists name only members that keep the cohort rules. |
| Pipeline.RunPipeline | main.py:14-50 | A full run yields the normalised members and the skip report. The pairing table is empty exactly when a cohort is empty; otherwise it has one pairing per mentoree, and every pairing follows the cohort rules. No report is produced exactly when the pairing table is empty. Otherwise the reports are the two queries and the audit over the result, and with unique member uuids the audit is empty. |

## Left out

- `fetch_users`, the HTTP request and JSON decoding: I/O. The raw records are an input, with nested keys flattened to one optional field each.
- All logging and the progress messages. The warnings at the empty checks of `create_mentorships` and `assign_mentorships` are returned as a `Warning` value.
- The `__str__` methods of `Member` and `Mentorships`: formatting only.
- `normalize_data`: only a conversion to dataframes. Tables stay sequences of records.
- `uuid.uuid4()` for pairing ids: randomness. The caller supplies the ids as a sequence. Distinctness of the ids is the caller's concern.
- The catch-all `except Exception` branches:
  - the model's records are typed, so an age that is not a number, or a field of the wrong type, cannot occur;
  - `create_members` skips a record only for a missing key or a date that fails to parse.
- Values are typed: age is an integer, and street number and postcode are text. The text conversions of the source's f-strings, and JSON `null` values, are not modelled.
- Timestamps.Parse: does not accept non-ASCII digits, and does not accept the leading spaces `strptime` tolerates in numeric fields. Text accepted by the model is accepted by `strptime` with the same result.
- The column-less dataframe itself. With no mentors or no mentorees, `assign_mentorships` returns an empty list (helper_functions.py:281-286). The mentorship dataframe built from it has no columns, so the first join (helper_functions.py:376) raises a `KeyError`. `main` catches it, and no report is produced. `Pipeline.RunPipeline` models this outcome as a run with no reports; it does not model the exception or the dataframe.
- pandas details: float64 ages, NaN beyond "missing fails the rule" and "empty gives no value", merge column suffixes, and the row order of the SQL group-by. The grouped report is a map from gender to count.
- Analytics.Median: computed exactly on `real`, not in floating point.
- main.py's `try/except` around the run, and its logging of the results.
- The docstring of `check_discrepancies` calls invalid mentors "younger than 40". The code tests the rule itself, and the model follows the code.
- The mentor and mentoree rules cannot both hold for one member (40 or older against 30 or younger). The two separate tests in `filter_mentors_and_mentorees` therefore never put a member in both lists; `Cohorts.CohortsAreDisjoint` states this.
- Nothing in the code requires ages to be non-negative, and the model does not require it either.
