# school_erp core, modelled in Dafny

This project models the deterministic core of the school ERP: its server services in TypeScript and the CSV-handling client pages. The parts it covers:

- **Analytics engine** (`analytics.service.ts`): the pure helpers `average`, `toPercent`, `computeScore`, `computeRisk`, `correlation` and `buildDistribution`. It also covers the three report builders: the monthly class report, the per-exam class report and the student timeline. Each SQL aggregate they read (`SUM`/`AVG`/`CASE`) is written as a fold over a sequence of rows. The TypeScript post-processing is modelled as written.
- **Record-keeping upserts**: the attendance entries with their audit trail, the marks rows with optional-subject enrolment, the `deleteExam` guard, subject set-up (`core.service.ts`) and the student CSV import (`data.service.ts`). Each is a class whose fields are the tables the service writes. A method's `ensures` ties the new state to a specification function, and lemmas prove what that function keeps: one row per key, an audit row exactly on a status change, the last item per student wins, and nothing else changes.
- **CSV text handling**: the character-level reader of `client/src/utils/csv.ts`, the escaper, writer and marks-export mapper of `exports.service.ts`, and the per-row upload loops of the Marks and Attendance pages. For those loops, the model proves that the counters add up, how lookups resolve, the error rows, grouping, and the merge into the on-screen entries.
- **Small string helpers**: subject-code generation and `formatClassLabel`.

Conventions:

- Marks and percentages are exact `real`s; counts are `nat`; SQL/JS `null` is `Option`.
- Strings are `seq<char>` over ASCII. `trim` removes ASCII white space.
- A database table is a sequence of rows whose id is the row's position, or a map keyed by the table's unique key.
- Calls the model cannot see are function parameters: `Math.sqrt` is `sqrt`, `Number(text)` is `number` or `parseNumber`, and `String(number)` is `numberText`.

Modules and their files:

| module | file |
|---|---|
| `Common` | `common.dfy` (text and order helpers shared by the modules below) |
| `AnalyticsPrimitives` | `analytics_primitives.dfy` |
| `ClassAnalytics` | `analytics_class.dfy` |
| `StudentAnalytics` | `analytics_student.dfy` |
| `Attendance` | `attendance.dfy` |
| `Core` | `core.dfy` |
| `Marks` | `marks.dfy` |
| `StudentImport` | `student_import.dfy` |
| `Exports` | `exports.dfy` |
| `Csv` | `csv.dfy` |
| `Format` | `format.dfy` |
| `Roster` | `roster.dfy` (the student lookup both upload pages share) |
| `AttendanceUpload` | `attendance_upload.dfy` |
| `MarksUpload` | `marks_upload.dfy` |

## Model

| member | source | states |
|---|---|---|
| AnalyticsPrimitives.Average | server/src/modules/analytics/analytics.service.ts:16-20 | null exactly when no entry is non-null; otherwise the result times the number of non-null entries is their sum (the arithmetic mean) |
| AnalyticsPrimitives.AverageWithinBounds | server/src/modules/analytics/analytics.service.ts:16-20 | the mean lies within any bounds that every non-null entry obeys |
| AnalyticsPrimitives.ToPercent | server/src/modules/analytics/analytics.service.ts:90-93 | null exactly when the denominator is 0; otherwise the result times the denominator is the numerator |
| AnalyticsPrimitives.ComputeScore | server/src/modules/analytics/analytics.service.ts:22-37 | null iff both inputs are null; a sole present input is returned unchanged; with both present it is 0.4·attendance + 0.6·marks and lies between the two |
| AnalyticsPrimitives.ComputeRisk | server/src/modules/analytics/analytics.service.ts:39-46 | "unknown" exactly when both inputs are null |
| AnalyticsPrimitives.OneMissingInputIsHighRisk | server/src/modules/analytics/analytics.service.ts:40-44 | a null input reads as 0, so exactly one null input always gives "high" |
| AnalyticsPrimitives.RiskThresholds | server/src/modules/analytics/analytics.service.ts:43-45 | for known inputs: high iff att < 0.75 or marks < 0.4; medium iff not high and (att < 0.85 or marks < 0.6); low iff att ≥ 0.85 and marks ≥ 0.6 |
| AnalyticsPrimitives.RiskMonotone | server/src/modules/analytics/analytics.service.ts:43-45 | better attendance and marks never raise the risk level |
| AnalyticsPrimitives.TallyRisks | server/src/modules/analytics/analytics.service.ts:186-192 | each of the four risk_counts is the number of students at that level, and together they sum to the number of students |
| AnalyticsPrimitives.Correlation | server/src/modules/analytics/analytics.service.ts:48-65 | the accumulating loop computes the reference Pearson coefficient (means, cross and squared deviation sums, null guards) |
| AnalyticsPrimitives.CorrelationNullExactly | server/src/modules/analytics/analytics.service.ts:49-61 | null exactly when there are fewer than two pairs or either series is constant, given that sqrt is 0 only at 0 |
| AnalyticsPrimitives.IdenticalSeriesCorrelateFully | server/src/modules/analytics/analytics.service.ts:48-65 | identical, non-constant attendance and marks series give exactly 1 |
| AnalyticsPrimitives.BuildDistribution | server/src/modules/analytics/analytics.service.ts:67-88 | the five labelled buckets in fixed order, each counting the non-null values in its half-open [min, max); a sixth "No data" bucket with the null count exactly when that count is positive |
| AnalyticsPrimitives.BucketUnique | server/src/modules/analytics/analytics.service.ts:68-74 | a value in [0, 1.01) lies in exactly one bucket |
| AnalyticsPrimitives.DistributionPartition | server/src/modules/analytics/analytics.service.ts:76-88 | with every value null or in [0, 1.01), the bucket counts sum to the number of values |
| ClassAnalytics.EntryRatio | server/src/modules/analytics/analytics.service.ts:112-118 | a row yields a ratio only when it is not absent, is marked and has non-zero max_marks |
| ClassAnalytics.SubjectAverages | server/src/modules/analytics/analytics.service.ts:112-118 | at most one average row per subject |
| ClassAnalytics.RatiosNullIff | server/src/modules/analytics/analytics.service.ts:112-118 | a subject average is null exactly when each of its rows is absent, unmarked or has max_marks 0 |
| ClassAnalytics.SubjectAverageBounded | server/src/modules/analytics/analytics.service.ts:112-118 | with 0 ≤ marks ≤ max on every row, a subject average lies in [0, 1] |
| ClassAnalytics.MonthlyTotalsOf | server/src/modules/analytics/analytics.service.ts:139-158 | missing_count is the number of rows neither absent nor marked, so at most the number of rows and 0 when none is unmarked |
| ClassAnalytics.MonthlyTotalsOrdered | server/src/modules/analytics/analytics.service.ts:139-158 | with well-formed rows, 0 ≤ obtained_total ≤ max_total |
| ClassAnalytics.MarksPercent | server/src/modules/analytics/analytics.service.ts:164-165 | marks_percent is null exactly when max_total is not positive |
| ClassAnalytics.MarksPercentBounded | server/src/modules/analytics/analytics.service.ts:139-165 | with well-formed rows, marks_percent lies in [0, 1] |
| ClassAnalytics.AttendanceRate | server/src/modules/analytics/analytics.service.ts:126-132 | null exactly when the student has no attendance entry; otherwise in [0, 1] |
| ClassAnalytics.Performance | server/src/modules/analytics/analytics.service.ts:160-181 | keeps the student id; risk is unknown iff both rates are null; with no exam there is no marks percent and no missing marks |
| ClassAnalytics.Performances | server/src/modules/analytics/analytics.service.ts:160-181 | one performance row per student, in the students' order; with no exam no marks percent is present |
| ClassAnalytics.CorrelationPairs | server/src/modules/analytics/analytics.service.ts:194-196 | at most one pair per student |
| ClassAnalytics.CorrelationPairsSnoc | server/src/modules/analytics/analytics.service.ts:194-196 | the filter-then-map: no students give no pairs, and each student appends its (attendance, marks) pair exactly when both are non-null |
| ClassAnalytics.CorrelationPairsMembers | server/src/modules/analytics/analytics.service.ts:194-196 | every student with both rates contributes its pair, and every pair comes from such a student |
| ClassAnalytics.ClassReportOf | server/src/modules/analytics/analytics.service.ts:95-215 | the summary, subject averages, distribution and performance fields: one performance row per student in order; the risk counts total the students; with no exam there are no subject averages and no average marks (class, month, latestExam and attendanceTrend are inputs or passed through, see Left out) |
| ClassAnalytics.EmptyClassReport | server/src/modules/analytics/analytics.service.ts:183-198 | a class without students has null averages, a null coefficient, zero risk counts, no performance rows and the five buckets all empty |
| ClassAnalytics.ClassDistributionCountsEveryStudent | server/src/modules/analytics/analytics.service.ts:198 | with well-formed entries, the distribution counts every student exactly once |
| ClassAnalytics.ExamTotalsOf | server/src/modules/analytics/analytics.service.ts:255-284 | entry_count is the number of rows; absent + missing ≤ entries; all rows absent iff absent_count == entry_count, and then obtained_total is 0; positive max_marks on a non-empty set gives max_total > 0; no rows gives max_total 0 |
| ClassAnalytics.ExamTotalsOrdered | server/src/modules/analytics/analytics.service.ts:255-284 | with well-formed rows, 0 ≤ obtained_total ≤ max_total |
| ClassAnalytics.ExamMaxCountsUnmarkedRows | server/src/modules/analytics/analytics.service.ts:259-262 | the exam report's max_total equals the monthly report's plus the max_marks of unmarked rows; obtained and missing totals agree |
| ClassAnalytics.ExamStudentOf | server/src/modules/analytics/analytics.service.ts:286-305 | is_absent iff entry_count > 0 and every entry is absent; percent is null iff max_total is 0 |
| ClassAnalytics.ExamStudents | server/src/modules/analytics/analytics.service.ts:255-305 | one row per kept student, in query order, carrying that student's id |
| ClassAnalytics.KeptStudents | server/src/modules/analytics/analytics.service.ts:244-247 | a student is kept exactly when it is in the class and has not opted out of the optional subject |
| ClassAnalytics.ExamStudentsRows | server/src/modules/analytics/analytics.service.ts:257-270 | a student has a row exactly when it is in the class and has not opted out of the optional subject |
| ClassAnalytics.ClassExamReport | server/src/modules/analytics/analytics.service.ts:217-350 | null exactly when the class or the exam is missing; the subject breakdown is empty when a subject is given; at most five top and five bottom performers |
| ClassAnalytics.ReportOf | server/src/modules/analytics/analytics.service.ts:307-329 | keeps the subject breakdown; at most five top and five bottom performers |
| ClassAnalytics.ClassExamReportFacts | server/src/modules/analytics/analytics.service.ts:307-319 | pass + fail = scored students; total_students counts every kept student; highest and lowest are null iff nobody is scored, otherwise lowest ≤ highest; top performers are the first min(5, scored) of the descending ranking; bottom performers are the same number taken from its end |
| ClassAnalytics.DescendingIsPreorder | server/src/modules/analytics/analytics.service.ts:309 | the percent comparator is a total preorder |
| ClassAnalytics.PassFailSplitScored | server/src/modules/analytics/analytics.service.ts:313-314 | every scored student is exactly one of pass (≥ 0.4) and fail |
| ClassAnalytics.RankedFacts | server/src/modules/analytics/analytics.service.ts:307-309 | the ranking is a permutation of the scored students, sorted descending, all scored |
| ClassAnalytics.RankedStable | server/src/modules/analytics/analytics.service.ts:309 | scored students with equal percents keep their query order in the ranking |
| Common.SortByStable | server/src/modules/analytics/analytics.service.ts:309 | the insertion sort is stable: restricted to any class of mutually tied elements, the output lists them in input order |
| ClassAnalytics.HighestAndLowest | server/src/modules/analytics/analytics.service.ts:309-311 | highest and lowest are null iff nobody is scored; every scored percent lies between them |
| ClassAnalytics.FullyAbsentScoresZero | server/src/modules/analytics/analytics.service.ts:259-292 | a student whose every entry is absent (with positive max_marks) is absent with percent 0, not null |
| ClassAnalytics.NoEntriesNoPercent | server/src/modules/analytics/analytics.service.ts:286-292 | a student without entries has a null percent and is not absent |
| ClassAnalytics.ExamStudentsPartition | server/src/modules/analytics/analytics.service.ts:307-316 | with every max_marks positive, scored + fully absent + missing students = total students |
| ClassAnalytics.ExamDistributionCountsEveryStudent | server/src/modules/analytics/analytics.service.ts:329 | with well-formed entries, the exam distribution counts every kept student exactly once |
| StudentAnalytics.WindowOnUndatedExams | server/src/modules/analytics/analytics.service.ts:399-428 | an exam without a start date passes the window exactly when neither bound is given |
| StudentAnalytics.CountAttendance | server/src/modules/analytics/analytics.service.ts:383-393 | total is the number of rows; each status count is the number of rows with that status, so the four sum to at most the total |
| StudentAnalytics.AttendanceRate | server/src/modules/analytics/analytics.service.ts:395-397 | rate is null exactly when total is 0 |
| StudentAnalytics.AttendanceRateBounded | server/src/modules/analytics/analytics.service.ts:383-397 | rate is null exactly when no row is in range; otherwise it lies in [0, 1] |
| StudentAnalytics.ExamAggOf | server/src/modules/analytics/analytics.service.ts:450-476 | an exam's record carries its exam id |
| StudentAnalytics.SubjectAggOf | server/src/modules/analytics/analytics.service.ts:478-492 | a subject's record carries its subject id |
| StudentAnalytics.ExamOrderKeys | server/src/modules/analytics/analytics.service.ts:476-495 | the insertion order lists exactly the exams with a record, each once |
| StudentAnalytics.SubjectOrderKeys | server/src/modules/analytics/analytics.service.ts:492-507 | the insertion order lists exactly the subjects with a record, each once |
| StudentAnalytics.AggregateMarks | server/src/modules/analytics/analytics.service.ts:450-493 | the loop produces the exam records, subject records and absent_exams of the fold specification |
| StudentAnalytics.ScanMarks | server/src/modules/analytics/analytics.service.ts:450-493 | the row loop builds the exam and subject maps of the fold, their insertion orders and the absent exams |
| StudentAnalytics.ExamMapAgrees | server/src/modules/analytics/analytics.service.ts:450-493 | the map built row by row agrees with the per-exam fold: it has an entry for an exam exactly when that fold gives a record, and the same record |
| StudentAnalytics.SubjectMapAgrees | server/src/modules/analytics/analytics.service.ts:450-493 | the map built row by row agrees with the per-subject fold: it has an entry for a subject exactly when that fold gives a record, and the same record |
| StudentAnalytics.ExamAbsentCount | server/src/modules/analytics/analytics.service.ts:461-463 | absent_count is the number of the exam's absent rows |
| StudentAnalytics.ExamMissingCount | server/src/modules/analytics/analytics.service.ts:472-474 | missing_count is the number of the exam's unmarked rows |
| StudentAnalytics.RowKindsPartition | server/src/modules/analytics/analytics.service.ts:461-474 | every row is exactly one of absent, marked and unmarked |
| StudentAnalytics.ExamCountsAddUp | server/src/modules/analytics/analytics.service.ts:461-474 | per exam, absent + missing + marked rows = the exam's rows |
| StudentAnalytics.AbsentExamsPerAbsentRow | server/src/modules/analytics/analytics.service.ts:464-468 | absent_exams has one item per absent row, in row order |
| StudentAnalytics.ExamBeforeIsPreorder | server/src/modules/analytics/analytics.service.ts:500-505 | the exam comparator is a total preorder |
| StudentAnalytics.SortedExamsOrder | server/src/modules/analytics/analytics.service.ts:495-505 | the sorted exams are a permutation; dated exams ascend by start date and come before undated ones; undated exams ascend by exam id |
| StudentAnalytics.SortedSubjectsFacts | server/src/modules/analytics/analytics.service.ts:512-514 | the subject ranking is sorted descending by avg_percent (null as 0) and is a permutation |
| StudentAnalytics.StrengthsRankFirst | server/src/modules/analytics/analytics.service.ts:516 | strengths hold min(3, n) subjects, none ranked below a subject left out |
| StudentAnalytics.SortedExamsStable | server/src/modules/analytics/analytics.service.ts:498-503 | dated exams on the same start date keep their order |
| StudentAnalytics.SortedSubjectsStable | server/src/modules/analytics/analytics.service.ts:512-514 | subjects with equal percents (null as 0) keep their order in the ranking |
| StudentAnalytics.GapsRankLast | server/src/modules/analytics/analytics.service.ts:517 | gaps are the last min(3, n) subjects of the ranking read backwards, so lowest first; every gap is one of the subjects and no subject left out ranks below a gap |
| StudentAnalytics.TrendOf | server/src/modules/analytics/analytics.service.ts:521-534 | unknown with a null delta iff fewer than two percents; delta is last − previous; steady means abs(delta) < 0.02, improving means delta ≥ 0.02, declining means delta ≤ −0.02 |
| StudentAnalytics.MonthRate | server/src/modules/analytics/analytics.service.ts:540-545 | a month's present rate is null iff no attendance row falls in the month; otherwise in [0, 1] |
| StudentAnalytics.CorrelationPairs | server/src/modules/analytics/analytics.service.ts:536-552 | the loop produces the pair sequence of the specification |
| StudentAnalytics.PairsFromDatedScoredExams | server/src/modules/analytics/analytics.service.ts:538-551 | at most one pair per exam; each comes from a dated exam with a percent, and its attendance value lies in [0, 1] |
| StudentAnalytics.GetStudentAnalytics | server/src/modules/analytics/analytics.service.ts:352-572 | null exactly for an unknown student; otherwise the report of the specification |
| StudentAnalytics.AttendanceInWindow | server/src/modules/analytics/analytics.service.ts:364-381 | an attendance row is kept iff its session date lies in the optional start/end window |
| StudentAnalytics.ReportWindow | server/src/modules/analytics/analytics.service.ts:364-428 | the log holds exactly the student's rows in the date window, the counts total the log, and every kept exam is in the window |
| StudentAnalytics.ExamRecordDate | server/src/modules/analytics/analytics.service.ts:451-454 | an exam's record carries the start date of one of its rows |
| Attendance.StoredReason | server/src/modules/attendance/attendance.service.ts:89-100 | `reason \|\| null`: null exactly for a missing or empty reason |
| Attendance.StoredSubject | server/src/modules/attendance/attendance.service.ts:44 | `subjectId \|\| null`: null exactly for a missing subject or subject 0 |
| Attendance.Find | server/src/modules/attendance/attendance.service.ts:68-82 | finds an entry with the (session, student) key, or reports that none has it |
| Attendance.FindUnique | server/src/modules/attendance/attendance.service.ts:80-82 | with unique keys, the lookup finds the one entry with the key |
| Attendance.OverwriteFacts | server/src/modules/attendance/attendance.service.ts:96-100 | overwriting changes only the one entry; it appends an audit row with the old and new status exactly when the status differs |
| Attendance.UpsertFacts | server/src/modules/attendance/attendance.service.ts:79-101 | a row is inserted only when no entry has the key; an insert adds no audit row; keys stay unique |
| Attendance.UpsertAllKeepsKeysUnique | server/src/modules/attendance/attendance.service.ts:79-101 | after bulkUpsertEntries there is at most one entry per (session, student) |
| Attendance.UpsertAllLastItemWins | server/src/modules/attendance/attendance.service.ts:79-101 | each input student's entry carries the status and stored reason of the last input item for that student |
| Attendance.UpsertAllOthersUnchanged | server/src/modules/attendance/attendance.service.ts:79-101 | an entry of another session, or of a student not in the input, is unchanged |
| Attendance.UpsertAllAuditsOnlyChanges | server/src/modules/attendance/attendance.service.ts:84-98 | the audit trail only grows, and every added row records a real status change |
| Attendance.Joined | server/src/modules/attendance/attendance.service.ts:109 | the join yields at most one row per entry |
| Attendance.CountOn | server/src/modules/attendance/attendance.service.ts:109 | a day's count is positive exactly when some joined row has that date |
| Attendance.PresentOn | server/src/modules/attendance/attendance.service.ts:109 | present entries on a day never exceed that day's entries |
| Attendance.InsertDate | server/src/modules/attendance/attendance.service.ts:109 | inserting a date gives the date together with the old dates |
| Attendance.InsertDateAscending | server/src/modules/attendance/attendance.service.ts:109 | inserting keeps a list strictly ascending |
| Attendance.Dates | server/src/modules/attendance/attendance.service.ts:109 | GROUP BY date: exactly the dates of the joined rows |
| Attendance.DatesAscending | server/src/modules/attendance/attendance.service.ts:109 | ORDER BY date: the dates are strictly ascending |
| Attendance.Summary | server/src/modules/attendance/attendance.service.ts:105-112 | one row per distinct date, in the order of the dates, with a present_rate in [0, 1] |
| Attendance.RateOf | server/src/modules/attendance/attendance.service.ts:109 | present ÷ total lies in [0, 1], and times the total gives the present count |
| Attendance.SummaryAscending | server/src/modules/attendance/attendance.service.ts:105-112 | the summary rows are strictly ascending by date |
| Attendance.SummaryCoversEveryDate | server/src/modules/attendance/attendance.service.ts:105-112 | every date with entries has a summary row |
| Attendance.SummaryRate | server/src/modules/attendance/attendance.service.ts:105-112 | each row's date has entries, and its rate is present ÷ all entries that day |
| Attendance.AttendanceStore.constructor | server/src/modules/attendance/attendance.service.ts:1-143 | starts with no sessions, entries or audit rows |
| Attendance.AttendanceStore.CreateSession | server/src/modules/attendance/attendance.service.ts:32-47 | appends a 'draft' session with the stored subject and returns its id; nothing else changes |
| Attendance.AttendanceStore.UpdateSessionStatus | server/src/modules/attendance/attendance.service.ts:49-57 | changes only that session's status; an unknown id changes nothing |
| Attendance.AttendanceStore.BulkUpsertEntries | server/src/modules/attendance/attendance.service.ts:59-103 | the new tables are the upsert fold over the input; sessions are unchanged; keys stay unique |
| Attendance.AttendanceStore.UpdateEntry | server/src/modules/attendance/attendance.service.ts:123-143 | an unknown id is a no-op; otherwise it audits iff the status changes, then overwrites status and reason |
| Core.CodeBase | server/src/modules/core/core.service.ts:65 | only ASCII letters and digits, upper-cased, no longer than the name |
| Core.NormalizeSubjectCode | server/src/modules/core/core.service.ts:64-69 | length 3 or 4 (4 iff the base has at least 4 characters); a prefix of the base when the base has at least 3, else (base + "SUB") cut to 3 |
| Core.SuffixedInjective | server/src/modules/core/core.service.ts:75-78 | different counters give different codes |
| Core.GeneratedCodeUnique | server/src/modules/core/core.service.ts:71-79 | the generated code is determined by the name and the codes in use, and is never one of them |
| Core.GenerateSubjectCode | server/src/modules/core/core.service.ts:71-79 | returns the base when it is free, else the base followed by the least counter k ≥ 1 that is free; the result is not in use |
| Core.LastRule | server/src/modules/core/core.service.ts:106-110 | no rule value exactly when no rule names the class subject and exam type |
| Core.RulesMapLastWins | server/src/modules/core/core.service.ts:106-110 | the rules map holds the class subjects that have rules, and per exam type the value of the last rule read |
| Core.BuildRulesMap | server/src/modules/core/core.service.ts:96-111 | the loop builds the rules map of the fold specification |
| Core.ClassSubjectViews | server/src/modules/core/core.service.ts:113-120 | one view per listed class subject, in order, keeping ids and the optional flag |
| Core.ClassSubjectViewMaxMarks | server/src/modules/core/core.service.ts:113-120 | a view's max_marks gives the last rule per exam type, and {} for a class subject without rules |
| Core.SubjectWithCode | server/src/modules/core/core.service.ts:149 | finds a subject with the code, or none has it |
| Core.SubjectWithName | server/src/modules/core/core.service.ts:151 | finds a subject whose lower-cased name matches, or none does |
| Core.ResolveSubject | server/src/modules/core/core.service.ts:147-151 | a found subject exists; none found means no name matches |
| Core.FindClassSubject | server/src/modules/core/core.service.ts:123-128 | finds the class_subjects row for (class, subject), or none has the pair |
| Core.LinkClassSubjectFacts | server/src/modules/core/core.service.ts:164-177 | linking keeps one row per (class, subject), sets the requested optional flag, and leaves other rows alone |
| Core.ApplyRulesFacts | server/src/modules/core/core.service.ts:179-187 | a rule key gets the given value exactly when it is one of the four exam types of this class subject with a positive value; every other key is unchanged |
| Core.CoreStore.constructor | server/src/modules/core/core.service.ts:130-207 | starts with the given classes and empty tables |
| Core.CoreStore.ClassSubjectMeta | server/src/modules/core/core.service.ts:123-128 | returns the row for (class, subject) exactly when one exists |
| Core.CoreStore.SetStudentSubjectEnrollment | server/src/modules/core/core.service.ts:192-207 | afterwards the (student, class subject) enrolment is the input flag; nothing else changes |
| Core.CoreStore.FindOrCreateSubject | server/src/modules/core/core.service.ts:147-162 | returns the subject found by code or name; otherwise appends one for the class's grade, with the trimmed code given or a generated free code |
| Core.CoreStore.WriteRules | server/src/modules/core/core.service.ts:179-187 | the rules become those of the exam-type filter; nothing else changes |
| Core.CoreStore.UpsertClassSubject | server/src/modules/core/core.service.ts:130-190 | fails exactly when the class is missing, changing nothing; otherwise finds or creates the subject (a new one is appended with the given name, the class's grade as both grade bounds, and the given or generated code), links it, and writes the positive rules |
| Marks.StoredComponent | server/src/modules/marks/marks.service.ts:113 | `componentId \|\| null`: null exactly for a missing component or 0 |
| Marks.MapsEqualByGet | server/src/modules/marks/marks.service.ts:103-161 | two tables that agree on every key are equal |
| Marks.UpsertAllPointwise | server/src/modules/marks/marks.service.ts:103-161 | the batch changes a row only through the items for its student; rows of other sheets and enrolments of other class subjects are unchanged |
| Marks.PrefixFacts | server/src/modules/marks/marks.service.ts:103-161 | opt-outs and effective items of a batch are those of its prefix plus those of its last item |
| Marks.TeacherAfter | server/src/modules/marks/marks.service.ts:138-160 | after an opt-out, a row is re-created with the sheet's teacher; otherwise the teacher is kept |
| Marks.UntouchedRow | server/src/modules/marks/marks.service.ts:104-120 | items without effect, such as not-applicable items on a non-optional subject, leave the row unchanged |
| Marks.RowAfterForgets | server/src/modules/marks/marks.service.ts:103-161 | the row after the batch depends on the row before only through its teacher, and not at all after an opt-out |
| Marks.RowAfterIdempotent | server/src/modules/marks/marks.service.ts:103-161 | applying a student's items twice leaves the row of applying them once |
| Marks.EnrollmentAfterLast | server/src/modules/marks/marks.service.ts:104-128 | on an optional subject the enrolment follows the student's items, whatever it was; otherwise it is unchanged |
| Marks.UpsertAllIdempotent | server/src/modules/marks/marks.service.ts:103-161 | re-applying the same batch yields the same rows and enrolments |
| Marks.LastItemDecides | server/src/modules/marks/marks.service.ts:104-159 | a marks item leaves one row with its max marks, marks and absent flag, and enrolment true on an optional subject; an opt-out on an optional subject leaves no row and enrolment false |
| Marks.MarksStore.constructor | server/src/modules/marks/marks.service.ts:1-188 | starts with the given class set-up and no exams, components or marks |
| Marks.MarksStore.DeleteExam | server/src/modules/marks/marks.service.ts:54-67 | refused exactly when marks reference the exam; otherwise removes the exam and its components; marks never change |
| Marks.MarksStore.BulkUpsertMarks | server/src/modules/marks/marks.service.ts:69-163 | fails without any write exactly when the subject is not assigned to the class; otherwise the row used is the only class_subjects row of the pair and the new state is the upsert fold over the items |
| StudentImport.NormalizeSection | server/src/modules/data/data.service.ts:45-49 | trimmed, upper-cased, as long as the trimmed input |
| StudentImport.NormalizeName | server/src/modules/data/data.service.ts:51-53 | trimmed, lower-cased, as long as the trimmed input |
| StudentImport.NormalizeIdempotent | server/src/modules/data/data.service.ts:45-53 | normalising twice gives what normalising once gives |
| StudentImport.FirstCell | server/src/modules/data/data.service.ts:130-132 | `a \|\| b \|\| …`: empty exactly when every listed cell is empty |
| StudentImport.Checks | server/src/modules/data/data.service.ts:136-167 | the six checks, in the order the loop runs them |
| StudentImport.FirstFailed | server/src/modules/data/data.service.ts:136-167 | the first failed check: every earlier one passed; none when all pass |
| StudentImport.FirstFailedAt | server/src/modules/data/data.service.ts:136-167 | a failed check preceded only by passed ones is the one reported |
| StudentImport.CheckFields | server/src/modules/data/data.service.ts:136-179 | an error carries the row number; an accepted row carries the trimmed and normalised values |
| StudentImport.CheckFieldsFirstFailure | server/src/modules/data/data.service.ts:136-167 | a record is rejected exactly when some check fails, with the problem of the first failed check |
| StudentImport.CheckRow | server/src/modules/data/data.service.ts:125-180 | the row number is index + 2 on both outcomes |
| StudentImport.AcceptedDefaults | server/src/modules/data/data.service.ts:133-134 | a blank status becomes "active" and a blank roll_no becomes null |
| StudentImport.CheckAll | server/src/modules/data/data.service.ts:125-180 | one outcome per raw record |
| StudentImport.Partition | server/src/modules/data/data.service.ts:125-180 | every outcome lands in exactly one of the two lists: \|errors\| + \|valid rows\| = \|outcomes\| |
| StudentImport.PartitionMembers | server/src/modules/data/data.service.ts:125-180 | an error is listed iff a row was rejected with it; a valid row is listed iff a row was accepted as it |
| StudentImport.FileAll | server/src/modules/data/data.service.ts:125-180 | the row loop files the outcomes into the errors and valid rows of the specification |
| StudentImport.Validate | server/src/modules/data/data.service.ts:125-180 | \|errors\| + \|valid rows\| = \|raw rows\| |
| StudentImport.ValidateErrorRows | server/src/modules/data/data.service.ts:126 | every error row number is between 2 and \|raw rows\| + 1 |
| StudentImport.ValidateRowNumbers | server/src/modules/data/data.service.ts:126 | every valid row number is between 2 and \|raw rows\| + 1 |
| StudentImport.ImportAll | server/src/modules/data/data.service.ts:196-226 | each valid row bumps exactly one of inserted, updated and skipped; one error per skip, appended after the validation errors |
| StudentImport.UpsertRows | server/src/modules/data/data.service.ts:196-226 | the upsert loop ends in the table and counts of the upsert fold |
| StudentImport.OtherClassUntouched | server/src/modules/data/data.service.ts:201-207 | a student of another class is never modified, and every row with its admission number gets an "in another class" error |
| StudentImport.ImportTouchesOnlyNamedStudents | server/src/modules/data/data.service.ts:196-226 | a student whose admission number is in no row is unchanged |
| StudentImport.WithoutClass | server/src/modules/data/data.service.ts:192-194 | replace mode keeps exactly the students of other classes |
| StudentImport.StudentTable.constructor | server/src/modules/data/data.service.ts:101-232 | starts with the given students |
| StudentImport.StudentTable.ValidateRows | server/src/modules/data/data.service.ts:125-180 | the forEach produces the errors and valid rows of the validation specification |
| StudentImport.StudentTable.ImportStudents | server/src/modules/data/data.service.ts:101-232 | unknown class: zero counts, one row-0 error, nothing changes; no valid rows: skipped = \|raw rows\|, nothing changes; otherwise the table and counts of the upsert fold |
| Exports.DoubleQuotes | server/src/modules/exports/exports.service.ts:7 | escaping never shortens the text |
| Exports.DoubleQuotesNoQuote | server/src/modules/exports/exports.service.ts:7 | a string without quotes is unchanged |
| Exports.EscapeCsv | server/src/modules/exports/exports.service.ts:3-10 | null is ""; a text without quote, comma or line feed is unchanged; otherwise it is quoted with inner quotes doubled |
| Exports.EscapedSeparatorsAreQuoted | server/src/modules/exports/exports.service.ts:3-10 | an escaped cell holds a comma, line feed or quote only when it is wrapped in quotes |
| Exports.Lines | server/src/modules/exports/exports.service.ts:12-18 | the header line (headers joined by commas, not escaped), then one line of escaped cells per row |
| Exports.ToCsv | server/src/modules/exports/exports.service.ts:12-18 | the loop's text is the lines joined by line feeds |
| Exports.MarksExportCells | server/src/modules/exports/exports.service.ts:102-118 | nine cells; max marks prefer the entry's, then the rule's, then ""; not-applicable rows give "NA" and an empty absent cell; other rows give the marks (or "") and "true"/"false" |
| Exports.MissingEnrollmentIsApplicable | server/src/modules/exports/exports.service.ts:103 | a missing enrolment row never makes a row not-applicable |
| Exports.ExportMarks | server/src/modules/exports/exports.service.ts:100-121 | the marks CSV is the header and the mapped rows written by toCsv |
| Csv.CollapseRuns | client/src/utils/csv.ts:7 | only [a-z0-9_] and no double underscore; ends in "_" exactly when the input ends in a non-alphanumeric |
| Csv.CollapseRunsKeepsAlnum | client/src/utils/csv.ts:7 | letters and digits survive the collapse, in order |
| Csv.StripUnderscores | client/src/utils/csv.ts:8 | no underscore at either end; keeps the absence of double underscores |
| Csv.NormalizeHeader | client/src/utils/csv.ts:3-9 | only [a-z0-9_], no underscore at either end, never two in a row |
| Csv.SomeCellFilledIffNotBlank | client/src/utils/csv.ts:11-15 | some cell non-blank iff the row is not blank |
| Csv.PushRowKeepsFilled | client/src/utils/csv.ts:11-15 | a row is kept exactly when not all its cells are blank |
| Csv.Step | client/src/utils/csv.ts:24-64 | one loop pass moves forward and stays within the text |
| Csv.Clean | client/src/utils/csv.ts:18 | exactly one leading byte-order mark is removed |
| Csv.LineBreakEndsOneRow | client/src/utils/csv.ts:52-61 | outside quotes, "\n", "\r" or "\r\n" ends exactly one row |
| Csv.KeptRowsNotBlank | client/src/utils/csv.ts:11-67 | no kept row is blank |
| Csv.ScanPlain | client/src/utils/csv.ts:63 | outside quotes, ordinary characters are appended to the field |
| Csv.QuotedStep | client/src/utils/csv.ts:27-38 | inside quotes, a doubled quote yields one quote and any other character is kept literally |
| Csv.ScanQuotedBody | client/src/utils/csv.ts:27-38 | inside quotes, a doubled-quote body reads back as the original text |
| Csv.EscapedFieldRoundTrip | client/src/utils/csv.ts:27-50 | a cell written by the export escaper is read back as the original text |
| Csv.RecordKeys | client/src/utils/csv.ts:73-79 | a record has exactly the header keys |
| Csv.RecordValueAt | client/src/utils/csv.ts:75-77 | a header's value is the trimmed cell at its last index, "" when missing |
| Csv.Headers | client/src/utils/csv.ts:71 | the header row is normalised cell by cell |
| Csv.Records | client/src/utils/csv.ts:69-79 | no kept rows gives []; otherwise one record per kept row after the header row |
| Csv.RecordsShape | client/src/utils/csv.ts:71-79 | each record has exactly the normalised header keys, holding the trimmed cells |
| Csv.RecordValuesTrimmed | client/src/utils/csv.ts:76 | every value of every record is trimmed |
| Csv.BuildRecord | client/src/utils/csv.ts:74-78 | the forEach builds the record of the specification |
| Csv.ScanRows | client/src/utils/csv.ts:19-67 | the character loop produces the rows of the scan specification |
| Csv.ParseCsv | client/src/utils/csv.ts:17-80 | the method returns the records of the specification of the text |
| Csv.HeaderRow | client/src/utils/csv.ts:71 | the map over the first row gives the normalised headers |
| Csv.RecordRows | client/src/utils/csv.ts:73-79 | the map over the later rows gives the records of the specification |
| Csv.RecordsOf | client/src/utils/csv.ts:73-79 | one record per body row, record i built from row i over the same headers |
| Csv.GetCsvValue | client/src/utils/csv.ts:82-88 | the first non-empty value in key order, "" exactly when none exists |
| Csv.ParseCsvBoolean | client/src/utils/csv.ts:90-96 | true iff the trimmed, lower-cased text is true/1/yes/y; false iff it is false/0/no/n; null for empty or anything else |
| Csv.ParseCsvBooleanIgnoresCase | client/src/utils/csv.ts:90-96 | the reading ignores case |
| Csv.ExportedAbsentReadsBack | client/src/utils/csv.ts:90-96 | the absent cell of an applicable marks-export row reads back as the row's flag |
| Csv.ParseCsvNumber | client/src/utils/csv.ts:98-102 | a cell is null exactly when empty; any other value is what Number() reads |
| Format.LabelParts | client/src/utils/format.ts:8-17 | grade part only for a truthy grade, the name only when non-empty, the upper-cased section last when present, in that order |
| Format.FormatClassLabel | client/src/utils/format.ts:7-19 | all-empty input gives ""; the label is trimmed |
| Format.ZeroGradeOmitted | client/src/utils/format.ts:9-11 | grade 0 is left out exactly as a missing grade |
| Format.FullLabel | client/src/utils/format.ts:7-19 | with all three parts it is "Grade N name SECTION" |
| Roster.LastValue | client/src/pages/MarksPage.tsx:166-169 | `new Map(pairs).get(key)`: none iff no pair has the key; otherwise the value of the last such pair |
| Roster.AdmissionPairs | client/src/pages/AttendancePage.tsx:142 | one (trimmed admission number, student) pair per student, in order |
| Roster.RollPairs | client/src/pages/AttendancePage.tsx:143-145 | exactly the (roll number text, student) pairs of the students with a roll number |
| Roster.FindStudent | client/src/pages/AttendancePage.tsx:154-156 | a non-empty admission cell finds a student exactly when some trimmed admission number equals it, and then the last such student; an empty one finds a student exactly when some roll number reads as the roll cell, and that student has it; both empty find nobody |
| Roster.AdmissionLookup | client/src/pages/AttendancePage.tsx:142 | the admission Map lookup is null exactly when no trimmed admission number matches, and otherwise gives the last student that matches |
| Roster.RollLookup | client/src/pages/AttendancePage.tsx:143-145 | no roll pair carries the key exactly when no student with a roll number has that roll text |
| Roster.NoRollFallback | client/src/pages/MarksPage.tsx:249-251 | a non-empty admission cell that matches nobody is not retried with the roll number |
| Roster.UniqueAdmissionFound | client/src/pages/MarksPage.tsx:166 | a student with a unique admission number is found by it |
| AttendanceUpload.ParseStatus | client/src/pages/AttendancePage.tsx:164-166 | a status is accepted exactly when it is one of the four words |
| AttendanceUpload.ParseStatusText | client/src/pages/AttendancePage.tsx:164-166 | every status word reads back as itself |
| AttendanceUpload.ClassifyRow | client/src/pages/AttendancePage.tsx:152-175 | an unknown student gives "Student not found" at row index + 2; an invalid lower-cased status gives "Invalid status"; a found student with a valid status is applied with that student, status and reason, and an applied row is always of that kind |
| AttendanceUpload.Outcomes | client/src/pages/AttendancePage.tsx:152-175 | one outcome per row, in order |
| AttendanceUpload.TallyOf | client/src/pages/AttendancePage.tsx:147-175 | applied + skipped = rows; one error per skip; a student has an update iff some row for the student was applied |
| AttendanceUpload.LastUpdateWins | client/src/pages/AttendancePage.tsx:173 | a later applied row for the same student overrides an earlier one |
| AttendanceUpload.Merge | client/src/pages/AttendancePage.tsx:177-182 | entries without an update are unchanged; the others take the update's status and reason |
| AttendanceUpload.MergeNothing | client/src/pages/AttendancePage.tsx:177-182 | merging no updates changes nothing |
| AttendanceUpload.CountStatus | client/src/pages/AttendancePage.tsx:62-63 | a status count is at most the number of entries |
| AttendanceUpload.StatsOf | client/src/pages/AttendancePage.tsx:59-65 | total is the students, marked the entries; absentees and late each at most marked |
| AttendanceUpload.AbsentAndLateWithinMarked | client/src/pages/AttendancePage.tsx:62-63 | absentees + late ≤ entries |
| AttendanceUpload.StatsBound | client/src/pages/AttendancePage.tsx:59-65 | absentees + late ≤ marked |
| AttendanceUpload.NoneAbsentOrLate | client/src/pages/AttendancePage.tsx:62-63 | all-present entries have no absentees and no late |
| AttendanceUpload.AttendanceSheet.Load | client/src/pages/AttendancePage.tsx:49-53 | one present entry with an empty reason per student, in order |
| AttendanceUpload.AttendanceSheet.MarkAllPresent | client/src/pages/AttendancePage.tsx:255 | every status present and every reason empty, with the same students in the same order; afterwards no absentees and no late |
| AttendanceUpload.AttendanceSheet.HandleCsvUpload | client/src/pages/AttendancePage.tsx:137-184 | no rows: applied = skipped = 0, one error, entries unchanged; otherwise the counts and errors of the tally and the merged entries, with applied + skipped = rows |
| AttendanceUpload.RunRows | client/src/pages/AttendancePage.tsx:147-175 | the forEach produces the tally of the outcomes |
| MarksUpload.NaMarkerIgnoresCase | client/src/pages/MarksPage.tsx:145-148 | the NA marker test ignores case |
| MarksUpload.CanonicalNumber | client/src/pages/MarksPage.tsx:197-198 | a cell is read as an id only when Number() reads it and the number prints back as the trimmed cell |
| MarksUpload.ClassPairs | client/src/pages/MarksPage.tsx:156-160 | two keys per class |
| MarksUpload.ClassPairsMembers | client/src/pages/MarksPage.tsx:156-160 | every key belongs to a listed class and is its normalised name or its normalised label |
| MarksUpload.SubjectCodePairs | client/src/pages/MarksPage.tsx:162-164 | only subjects with a code, keyed by the normalised code |
| MarksUpload.Resolve | client/src/pages/MarksPage.tsx:194-257 | class mismatch or missing iff the class check fails; missing exam or subject iff either id is falsy once the class passes; student not found iff both checks pass and the lookup is null; resolved iff all three pass; a resolved row has non-zero ids, the selected class when one is selected, and a student of the roster |
| MarksUpload.ClassifyCells | client/src/pages/MarksPage.tsx:259-352 | an NA marker in either cell takes precedence; an unparseable absent cell is an error; an absent row is applied as absent; a blank marks cell is skipped without error; otherwise an unreadable mark is an "Invalid marks" error, a mark above a non-zero cap a "Marks exceed max" error, and any other mark is applied with the cap (or the selected max) as max_marks; only an NA marker gives a not-applicable entry; only the current exam and subject update the screen |
| MarksUpload.ClassifyRow | client/src/pages/MarksPage.tsx:192-353 | an unresolved row is skipped with its error; a resolved row is classified by its cells |
| MarksUpload.AppliedRowInSelectedClass | client/src/pages/MarksPage.tsx:205-209 | an applied row belongs to the selected class when one is selected |
| MarksUpload.TotalEntriesUpdate | client/src/pages/MarksPage.tsx:271-283 | replacing a group's entries changes the total by the difference |
| MarksUpload.AddToGroup | client/src/pages/MarksPage.tsx:271-283 | appends exactly one entry, to the group of its key (new or existing); keys stay distinct |
| MarksUpload.AddMax | client/src/pages/MarksPage.tsx:259-262 | a Set add: the value is present afterwards, once |
| MarksUpload.Outcomes | client/src/pages/MarksPage.tsx:192-353 | one outcome per row, in order |
| MarksUpload.UpdatesOf | client/src/pages/MarksPage.tsx:268-337 | a student has an update iff some applied row for the current selection updated them |
| MarksUpload.TallyOf | client/src/pages/MarksPage.tsx:171-353 | applied + skipped = rows; total group entries = applied; group keys distinct; errors at most the skips |
| MarksUpload.LastUpdateWins | client/src/pages/MarksPage.tsx:268-337 | a later update for the same student overrides an earlier one |
| MarksUpload.RunRows | client/src/pages/MarksPage.tsx:192-353 | the forEach produces the tally of the outcomes |
| MarksUpload.Merge | client/src/pages/MarksPage.tsx:359-364 | entries without an update are unchanged; the others take the update |
| MarksUpload.NewMaxMarks | client/src/pages/MarksPage.tsx:355-357 | with exactly one max value seen and exam, subject and class all selected, max marks become that value; otherwise they are unchanged |
| MarksUpload.MarksSheet.constructor | client/src/pages/MarksPage.tsx:171-190 | starts with the given selection and entries |
| MarksUpload.MarksSheet.HandleCsvUpload | client/src/pages/MarksPage.tsx:150-364 | no rows: one error, nothing changes; otherwise the tally's counts, errors and groups, the new max marks and the merged entries, with applied + skipped = rows and total group entries = applied |

## Left out

- ClassAnalytics.ClassReportOf: the returned class id and name, month and latestExam are the lookup results passed through, so the record leaves them out; attendanceTrend is `getClassAttendanceSummary` for the month, modelled as Attendance.ClassAttendanceSummary and not repeated in the record.
- SQL engine, persistence, transactions and the HTTP layer. Every query result is an input sequence of rows, and the SQL text itself is not modelled.
- The time stamps (`new Date()`), the default month and `logActivity` writes. They do not influence any value the model states.
- `Math.sqrt` is a parameter `sqrt`. The null guard of the correlation is proved only under the hypothesis that sqrt is 0 exactly at 0 for non-negative input.
- `Number()` parsing and `String()` of numbers are the parameters `number`/`parseNumber` and `numberText`. NaN is `None`. Integer ids parsed from text are modelled only through those parameters.
- Floating-point rounding: the model uses exact reals.
- The latest exam of the monthly report (`ORDER BY start_date DESC LIMIT 1`, with no tie-break) is an input.
- `localeCompare` on ISO dates is modelled as lexicographic order.
- The monthly report's attendance rate follows the code: its query is not restricted to the month.
- The per-exam class report also follows the code. A fully-absent student has percent 0 and lands in the "<40%" bucket, not in "No data".
- In the student report, an exam with a null start date drops out as soon as a date bound is given, because the SQL comparison with NULL fails.
- The asynchronous group save of MarksPage.tsx (lines 366-390), the saved-groups state, React rendering, file reading and downloads.
- The list and get helpers of the services are not modelled, because they are plain queries.
- Class data clearing and its counts: `clearClassData` and the clear helpers are cascaded deletes. Replace mode is modelled only as removing the class's students.
- Authentication, middleware and the remaining pages.
- The duplicate CSV escaper of AnalyticsPage.tsx is not modelled separately.
- Attendance and marks rows are stored positionally or by composite key. The database's own row ids and timestamps are not modelled.
- Exports.EscapeCsv: a number cell is rendered through the parameter `numberText`, so its quoting depends on that function.
- Csv.EscapedFieldRoundTrip: stated for cells that contain no carriage return unless quoted, and that are followed by a non-quote character. The reader would otherwise treat them differently.
- MarksUpload.ClassifyCells: the error message text for marks above the cap uses `numberText` for both numbers.
- ClassAnalytics.SubjectAverages: states only the bound on the number of rows. The contents of each average are stated by ClassAnalytics.RatiosNullIff and ClassAnalytics.SubjectAverageBounded.
