# Administrative Supervisor's Companion — verified model of the evaluation core

This project models the record-keeping core of a school supervisor's web
app in Dafny:

- **The teacher follow-up grid.** A daily report holds one evaluation record
  per teacher. Each record has fourteen metric scores, a deduction and
  violation notes. The page edits cells with clamping, fills columns, adds and
  removes teachers, and creates and deletes reports. It works out each row's
  total and percentage, the footer's column totals and the points possible
  per teacher. It also derives the displayed view: rows filtered by a
  selected teacher or a name search, then stably sorted by name, by subject
  rank, by class or by manual order, or by total in percent mode.
- **The class-cover (substitution) sheet.** It adds, edits, signs and deletes
  rows. It lists every teacher name met in any daily report once.
- **The generic table's text exports.** The clipboard copy and the WhatsApp
  message.

Every page operation is copy-on-write: it returns the new collection that
the page hands to its store. The store itself is not modelled.

Each piece of the model takes the form of the code it models:

- Expressions built from `map`, `filter` and spread become functions.
- Loops that build values become methods with loop invariants, each proved
  against a specification function:
  - the in-place `Array.prototype.sort`;
  - the `columnTotals` dictionary fill;
  - the `fillAllMax` field loop;
  - the nested `teacherList` loops;
  - the nested WhatsApp text builder.

Modules:

- `Seqs` — `filter` and `reduce`-style sums.
- `Strings` — JavaScript string `<`, `includes`, `join`, single-character
  `split` and decimal rendering.
- `Records` — the record types and a by-field accessor.
- `Scoring` — totals, footer, points possible and percentages.
- `ReportEdits` — page edits.
- `Sorting` — a generic stable insertion sort on an array.
- `ReportView` — filtering, the comparator and the displayed metric columns.
- `Substitutions` — the class-cover sheet.
- `TableText` — the text exports.

Browser prompts (`confirm`) become a `confirmed` input. `Date.now()`,
`Math.random()`, `getDay()` and `toISOString()` become parameters: fresh ids,
a weekday number and a timestamp or date string.

Where the design description and the code disagree, the model follows the
code:

- **Teacher filter with no selection.** The design describes a strict
  single-teacher filter that yields nothing when no teacher is selected. In
  the grid's code, teacher mode with no selection falls through to the name
  search (`Visible`).
- **Missing max grade.** The design says a missing max grade counts as 0.
  The code uses `|| 999` as the clamping bound in `updateCell` and
  `bulkUpdateMetric`, and `|| 0` only when filling maxima and in the footer
  percentages (`Bound`, `MaxOrZero`).
- **Manual order.** The design gives an unset manual order the default
  "row index + 1". The comparator uses `order || 0` (`OrderKey`); index + 1 is
  only what the row displays.
- **Points possible.** The design describes the points possible as the sum
  of the max grades of the metric keys. The code sums every value of the
  max-grade table (`TotalPossible`), including any non-metric key.

## Model

| member | source | states |
|---|---|---|
| Records.FieldsDetermineRecord | types.ts:23-45 | two records that agree on every field, as read through `Get`, are the same record |
| Records.EveryMetricListed | app/ReportsPage.tsx:39-54 | the metric list has fourteen columns and every metric appears in it at its position |
| Seqs.FilterKeeps | app/ReportsPage.tsx:111 | `filter` keeps the elements that pass in their original order, each as often as before, and drops the others |
| Seqs.FilterUnique | app/ReportsPage.tsx:111 | any subsequence with those multiplicities is the filtered list, so order and multiplicity pin the result down |
| ReportEdits.FindReport | app/ReportsPage.tsx:66 | `find` returns the first report with the id, or none when no report has it |
| ReportEdits.ActiveReport | app/ReportsPage.tsx:65-68 | there is an active report exactly when at least one report exists, and it is one of them |
| ReportEdits.ActiveReportChoice | app/ReportsPage.tsx:65-68 | an active id that names a report selects that report; otherwise the last report is active |
| ReportEdits.UpdateActiveReport | app/ReportsPage.tsx:76-83 | without a target id nothing changes; otherwise exactly the reports with the target id get the update merged in (teachers, day name or date, as the header inputs at lines 259 and 261 send), and ids, order and all other reports are kept |
| ReportEdits.Clamp | app/ReportsPage.tsx:136 | the result never exceeds the bound, is at least 0 when the bound is non-negative, and equals the value when it is already in range |
| ReportEdits.ApplyEdit | app/ReportsPage.tsx:133-138 | the edited field holds the stored value and every other field, the id included, is unchanged |
| ReportEdits.UpdateTeachers | app/ReportsPage.tsx:131-141 | the list length is kept; records with other ids are unchanged; records with the id change only in the edited field |
| ReportEdits.UnknownIdNoOp | app/ReportsPage.tsx:131-141 | an edit addressed to an id no record has leaves the list unchanged |
| ReportEdits.StoredWithinBound | app/ReportsPage.tsx:133-137 | a stored score or deduction lies in [0, max], and at most 999 when the table gives no non-zero max |
| ReportEdits.UpdateTeachersIdempotent | app/ReportsPage.tsx:129-143 | applying the same cell edit twice gives the same list as applying it once |
| ReportEdits.UpdateCell | app/ReportsPage.tsx:129-143 | with no active report nothing changes; otherwise the active report's edited teacher list is written back through `updateActiveReport` |
| ReportEdits.UpdateCellOnActive | app/ReportsPage.tsx:129-143 | when the active id names report i, that report receives the edited teachers and reports with other ids are unchanged |
| ReportEdits.FillRecord | app/ReportsPage.tsx:147-152 | the copied record has every metric at its max grade (0 when the table has none) and keeps every non-metric field, the id included |
| ReportEdits.FillTeachers | app/ReportsPage.tsx:147-153 | one filled copy per record, in the same order |
| ReportEdits.FillForgetsScores | app/ReportsPage.tsx:147-153 | the filled record depends only on the kept fields, not on the scores it had before |
| ReportEdits.FillAllMax | app/ReportsPage.tsx:145-155 | without confirmation or an active report nothing changes; otherwise the targeted report keeps its id, day name and date, its records are the filled copies of the active report's records, and every other report is unchanged |
| ReportEdits.BulkValue | app/ReportsPage.tsx:159-160 | the value is v capped at the clamp bound (the max, or 999 when it is missing or 0): never above the bound, equal to v when v is within it, and with no lower clamp |
| ReportEdits.SetColumn | app/ReportsPage.tsx:161 | every record gets the same value for the metric, and ids and all other fields are kept |
| ReportEdits.BulkUpdateMetric | app/ReportsPage.tsx:157-163 | with no active report nothing changes; otherwise the active report's teachers all get the bounded value through `updateActiveReport` |
| ReportEdits.BulkThenEditCell | app/ReportsPage.tsx:157-163 | after a bulk fill, an in-range cell edit changes only the addressed records' score |
| ReportEdits.Toggle | app/ReportsPage.tsx:243-247 | a present preset is removed, every occurrence of it, while the other notes keep their order and their multiplicity; an absent preset is appended at the end of the unchanged notes |
| ReportEdits.ToggleTwice | app/ReportsPage.tsx:243-247 | toggling an absent preset on and then off gives back the original notes |
| ReportEdits.NotesOf | app/ReportsPage.tsx:241 | the notes are those of the first record with the id, at whatever position, or empty when no record has it |
| ReportEdits.ToggleViolationPreset | app/ReportsPage.tsx:239-249 | with no modal teacher or no active report nothing changes; otherwise the teacher's notes become the toggled list through `updateCell` |
| ReportEdits.Carried | app/ReportsPage.tsx:93-101 | a carried record gets the fresh id, keeps name, subject, class and order, and has every score and the deduction at 0 and no notes |
| ReportEdits.CreateNewReport | app/ReportsPage.tsx:85-107 | exactly one report is appended and made active, with the weekday's name and the date; its teachers correspond one to one, in order, to the last report's carried teachers, or are empty when there was no report |
| ReportEdits.NewReportTotalsZero | app/ReportsPage.tsx:93-101 | every record of the new report totals 0 |
| ReportEdits.DeleteReport | app/ReportsPage.tsx:109-115 | unconfirmed, nothing changes; confirmed, the remaining reports are exactly the reports with other ids, in their original order and with their multiplicity, and the active id is cleared if it was the deleted one |
| ReportEdits.DeleteReportKeepsRest | app/ReportsPage.tsx:111 | deleting an id no report has changes no report |
| ReportEdits.NewTeacher | app/ReportsPage.tsx:120-125 | the new record has the fresh id and the given order, blank texts, all scores 0, deduction 0 and no notes |
| ReportEdits.NewTeacherTotalsZero | app/ReportsPage.tsx:120-125 | the new record totals 0 |
| ReportEdits.AddNewTeacher | app/ReportsPage.tsx:117-127 | with no active report nothing changes; otherwise the new record, with order `length + 1`, is appended to the active report's teachers |
| ReportEdits.RemoveTeacher | app/ReportsPage.tsx:446 | exactly the records with other ids remain, in their original order and with their multiplicity |
| ReportEdits.DeleteTeacher | app/ReportsPage.tsx:446 | unconfirmed or with no active report nothing changes; otherwise the active report loses the records with the id |
| ReportEdits.AddThenRemove | app/ReportsPage.tsx:117-127 | deleting a just-added record whose id is new gives back the original teacher list |
| Scoring.ZeroRecordTotal | app/ReportsPage.tsx:414 | a record with every score and the deduction at 0 totals 0 |
| Scoring.TotalWithinBounds | app/ReportsPage.tsx:414 | when every score is within [0, its bound], the metric sum is within [0, the sum of the bounds] |
| Scoring.GrandTotalSplit | app/ReportsPage.tsx:222-225 | the grand total is the sum of the metric column sums minus the deduction column sum |
| Scoring.ColumnTotalsOrderFree | app/ReportsPage.tsx:216-227 | every footer total is the same for any permutation of the displayed rows |
| Scoring.MetricColumnTotals | app/ReportsPage.tsx:218-220 | the metric loop puts every metric column in the dictionary with its column sum, and nothing else |
| Scoring.ColumnTotals | app/ReportsPage.tsx:216-227 | every metric column holds its sum, the deduction column its sum, and the grand total equals the metric entries' sum minus the deduction entry |
| Scoring.FooterAddsUp | app/ReportsPage.tsx:216-227 | any dictionary of the footer's column sums satisfies grand total = sum of the metric entries minus the deduction entry |
| Scoring.EmptyViewTotals | app/ReportsPage.tsx:216-227 | an empty view gives 0 in every footer total |
| Scoring.MapSumRemove | app/ReportsPage.tsx:165-167 | the sum of the max-grade table does not depend on the order its values are added in |
| Scoring.MapSumUpdate | app/ReportsPage.tsx:165-167 | changing one max grade changes the points possible by exactly the difference |
| Scoring.MapSumNonNegative | app/ReportsPage.tsx:165-167 | a table of non-negative max grades gives non-negative points possible |
| Scoring.TotalPossible | app/ReportsPage.tsx:165-167 | the loop returns the sum of every value in the max-grade table |
| Scoring.TwoGradesExample | app/ReportsPage.tsx:165-167 | worked example only, covered in general by `TotalPossible`, `MapSumRemove` and `MapSumUpdate`: max grades of 10 and 5 give 15 points possible per teacher |
| Scoring.Percent | app/ReportsPage.tsx:415 | a non-positive denominator gives 0; otherwise the percentage times the whole is 100 times the part |
| Scoring.PercentWithinRange | app/ReportsPage.tsx:415 | a part within [0, whole] gives a percentage within [0, 100] |
| Scoring.PercentBelowHalf | app/ReportsPage.tsx:445 | with a positive denominator the percentage is below 50 exactly when the part is under half the whole |
| Scoring.RowPercent | app/ReportsPage.tsx:414-415 | 0 when no points are possible; otherwise the row shows red (below 50) exactly when its total is under half the points possible |
| Scoring.ColumnPercent | app/ReportsPage.tsx:466-467 | an empty view gives 0 for every metric column's percentage |
| Scoring.OverallPercent | app/ReportsPage.tsx:473 | an empty view gives an overall percentage of 0 |
| ReportView.Visible | app/ReportsPage.tsx:171-178 | the visible records are a subsequence of the report's records, in the report's order: with a selected teacher, every record with that id, each as often as in the report; else, with a query, every record whose name contains it; else all records |
| ReportView.IndexOf | app/ReportsPage.tsx:190-191 | `indexOf` is -1 exactly when the subject is absent, and otherwise the first position holding it |
| ReportView.SubjectRank | app/ReportsPage.tsx:190-193 | a subject not in the list ranks 999; a listed subject ranks by its position in the list |
| ReportView.SubjectRankOrder | app/ReportsPage.tsx:28-32 | different listed subjects rank differently, and a listed subject ranks before an unlisted one |
| ReportView.KeyKind | app/ReportsPage.tsx:187-195 | names and classes are compared as text, and subject ranks, manual orders and totals as numbers |
| ReportView.KeyBeforeWeakOrder | app/ReportsPage.tsx:198-199 | on keys of one kind, in either direction, the comparator is irreflexive and asymmetric, and "not before" is transitive |
| ReportView.StrWeakOrder | app/ReportsPage.tsx:198-199 | "not less than" on strings is transitive |
| ReportView.ComparatorIsWeakOrder | app/ReportsPage.tsx:179-203 | under every view the comparator is a strict weak order and never separates records with equal keys |
| ReportView.SortedAndFiltered | app/ReportsPage.tsx:169-205 | no active report gives no rows; otherwise the view is the visible records stably sorted: a permutation of them, ordered by the comparator, with each key's records in their input order |
| ReportView.PercentPair | app/ReportsPage.tsx:180-183 | in percent mode, a row not ordered before another has a total no greater than the other's |
| ReportView.PercentModeDescending | app/ReportsPage.tsx:179-184 | in percent mode the rows come out with non-increasing totals |
| ReportView.ManualAscending | app/ReportsPage.tsx:194-199 | manual criterion, ascending: the rows come out with non-decreasing `order`, read as 0 when unset |
| ReportView.DisplayMetrics | app/ReportsPage.tsx:207-212 | the displayed columns keep the grid's column order; in metric mode with a selection, they are exactly the metrics whose keys are selected, each once; otherwise all fourteen |
| Sorting.InsertAt | app/ReportsPage.tsx:186-202 | inserting at the position where the shifting loop stops equals the functional insertion |
| Sorting.InsertPermutes | app/ReportsPage.tsx:186-202 | an insertion adds exactly the inserted element |
| Sorting.InsertSorted | app/ReportsPage.tsx:186-202 | inserting into a sorted list keeps it sorted under a strict weak order |
| Sorting.InsertStable | app/ReportsPage.tsx:186-202 | an insertion keeps every key group in order and puts the new element last in its group |
| Sorting.SortPermutes | app/ReportsPage.tsx:179-203 | the sort returns a permutation of its input |
| Sorting.SortOrders | app/ReportsPage.tsx:179-203 | the sort's output has no element the comparator puts before an earlier one |
| Sorting.SortStable | app/ReportsPage.tsx:179-203 | records with equal keys keep their input order |
| Sorting.InsertLast | app/ReportsPage.tsx:186-202 | one pass shifts the prefix and places the element, so the prefix becomes the functional insertion and the rest of the array is untouched |
| Sorting.SortInPlace | app/ReportsPage.tsx:179-203 | the array ends as the functional insertion sort of its initial contents |
| Substitutions.DatePartOfTimestamp | app/SubstitutionPage.tsx:26 | the date part of `date + "T" + time` is the date |
| Substitutions.SigFieldInjective | app/SubstitutionPage.tsx:131-137 | slots `sig1`..`sig7` name seven distinct fields |
| Substitutions.NewEntry | app/SubstitutionPage.tsx:20-32 | the new row has the fresh id, today's date and status `pending` |
| Substitutions.NewEntryBlank | app/SubstitutionPage.tsx:20-32 | the new row has exactly the id, date, status, teacher, period, class, `p1`..`p7` and signature fields, and all but the first three are blank |
| Substitutions.NewEntryUnsigned | app/SubstitutionPage.tsx:20-32 | no signature slot of a new row shows the approval |
| Substitutions.AddRow | app/SubstitutionPage.tsx:20-34 | exactly one row is appended, the new pending row with blank fields, and the existing rows are untouched |
| Substitutions.UpdateEntry | app/SubstitutionPage.tsx:36-41 | the length is kept; rows with other ids are unchanged; rows with the id get the field set and keep every other field |
| Substitutions.UpdateEntryIdempotent | app/SubstitutionPage.tsx:36-41 | setting the same field to the same value twice equals doing it once, even for the id field |
| Substitutions.UpdateEntryUnknownId | app/SubstitutionPage.tsx:36-41 | an id no row has changes nothing |
| Substitutions.Delete | app/SubstitutionPage.tsx:43-47 | unconfirmed, nothing changes; confirmed, exactly the rows with other ids remain, in their original order and with their multiplicity |
| Substitutions.AddThenDelete | app/SubstitutionPage.tsx:20-47 | adding a row under an unused id and deleting that id gives back the sheet |
| Substitutions.SignMarks | app/SubstitutionPage.tsx:131-137 | signing slot k marks it approved on the rows with the id, keeps their other slots, and changes no other row |
| Substitutions.SignIdempotent | app/SubstitutionPage.tsx:131-137 | signing an already signed slot again changes nothing |
| Substitutions.NamesOf | app/SubstitutionPage.tsx:13-15 | a report contributes exactly its records' non-empty names |
| Substitutions.AllNames | app/SubstitutionPage.tsx:12-16 | the names gathered are exactly the non-empty names of the records of all reports |
| Substitutions.DedupeMembers | app/SubstitutionPage.tsx:11-17 | the set's listing holds exactly the names added to it |
| Substitutions.DedupeDistinct | app/SubstitutionPage.tsx:11-17 | the set's listing holds no name twice |
| Substitutions.DedupeOrder | app/SubstitutionPage.tsx:11-17 | the listed names are a subsequence of the gathered names |
| Substitutions.DedupeFirstOccurrence | app/SubstitutionPage.tsx:11-17 | names are listed in order of first occurrence, as `Array.from` lists a `Set` in insertion order: every occurrence of a later-listed name comes after an occurrence of each earlier-listed name |
| Substitutions.TeacherList | app/SubstitutionPage.tsx:10-18 | the nested loops produce each gathered name once, at its first occurrence |
| Substitutions.TeacherListNames | app/SubstitutionPage.tsx:10-18 | the teacher list holds exactly the non-empty names from any report, each exactly once |
| TableText.RowLineSingleLine | components/DynamicTable.tsx:44 | a copied line holds no line break when no label or value does |
| TableText.CopyTextLines | components/DynamicTable.tsx:43-45 | splitting the copied text on line breaks gives back exactly one line per record |
| TableText.CopyTextEmpty | components/DynamicTable.tsx:43-45 | with no records the copied text is empty |
| TableText.BlocksLength | components/DynamicTable.tsx:30-36 | each record's block has `columns.length + 2` lines |
| TableText.ShareLinesCount | components/DynamicTable.tsx:26-36 | the message has 2 lines plus `columns.length + 2` lines per reported record |
| TableText.BlockAt | components/DynamicTable.tsx:30-36 | the i-th block of the message is the i-th record's, headed with the number i + 1 |
| TableText.ShareOneItem | components/DynamicTable.tsx:28-31 | sharing one item gives the title, a blank line and exactly one block, numbered 1 |
| TableText.ShareEmptyTable | components/DynamicTable.tsx:27-28 | sharing an empty table gives only the title and the blank line |
| TableText.UnlinesSplit | components/DynamicTable.tsx:27-35 | text built line by line splits back into its lines when none holds a line break |
| TableText.ShareTextLines | components/DynamicTable.tsx:26-36 | when title, labels and values have no line breaks, the message splits back into exactly its lines |
| TableText.ShareText | components/DynamicTable.tsx:26-36 | the nested loops build exactly the title, blank line and numbered blocks, each line followed by a line break |

## Left out

- Rendering, React state and hooks, modal visibility and the filter-mode
  buttons are not modelled. The view controls are a plain `ViewState` input.
- `confirm`, `alert`, the clipboard write, `encodeURIComponent` and
  `window.open` are not modelled. A confirmation is a boolean input; the
  exports stop at the text.
- Id and date generation (`Date.now()`, `Math.random()`, `new Date()`,
  `getDay()`, `toISOString()`) is not modelled. These values are parameters;
  the model does not claim the generated ids are unique.
- `Number()` coercion, `NaN` and non-integer input are not modelled. Scores
  are integers, and a record's missing score reads as 0, as `|| 0` does.
- Floating-point percentages and `toFixed` rounding are not modelled.
  Percentages are exact reals.
- JavaScript numbers are modelled as unbounded integers, so sums never lose
  precision.
- A substitution row's values are text only. The `paymentStatus` union is
  stored as text.
- The generic table's template-literal rendering of non-string cell values
  (numbers, booleans, `null`) is not modelled. A table record holds each
  value already rendered as text; only a missing key's `undefined` is
  modelled.
- String comparison is modelled as lexicographic on characters. JavaScript
  compares UTF-16 code units, which differs only for characters outside the
  Basic Multilingual Plane.
- ReportEdits.ToggleViolationPreset: does not model the page throwing when
  the violation modal is open without an active report. The model leaves
  the page unchanged instead.
- ReportEdits.Clamp: does not model clamping when a max-grade entry is
  negative. The model returns the negative bound, as `Math.min` does; no
  non-negativity is claimed then.
- Scoring.ColumnPercent: states only the empty-view case beyond the general
  facts proved about `Percent`.
- Scoring.OverallPercent: states only the empty-view case beyond the general
  facts proved about `Percent`.
- The dashboard page and the global store are not part of this model. A
  store update is whole-collection replacement.
- The class-level list and the violation-preset list are display data. The
  model takes presets as arbitrary strings.
