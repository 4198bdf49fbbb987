/**
 * The copy-on-write edits of the teacher follow-up page: the page state is
 * the list of daily reports, the max-grade table and the active report id;
 * every operation returns the new state that the page hands to the store as a
 * whole-collection replacement. Browser prompts become a `confirmed` input,
 * and generated ids, the weekday and the date become parameters.
 */
module ReportEdits {
  import opened Records
  import opened Seqs
  import opened Scoring

  datatype Page = Page(reports: seq<Report>, grades: map<string, int>, activeId: Option<string>)

  /** The index of the first report with the given id, if any. */
  function FindReport(rs: seq<Report>, id: string): (r: Option<nat>)
    ensures r.Some? ==> r.value < |rs| && rs[r.value].id == id
    ensures r.Some? ==> forall j :: 0 <= j < r.value ==> rs[j].id != id
    ensures r.None? ==> forall j :: 0 <= j < |rs| ==> rs[j].id != id
  {
    if rs == [] then None
    else if rs[0].id == id then Some(0)
    else
      match FindReport(rs[1..], id)
      case None => None
      case Some(k) => Some(k + 1)
  }

  /** `activeReport`: the report with the active id, else the last report, else none. */
  function ActiveReport(p: Page): (r: Option<Report>)
    ensures r.None? <==> |p.reports| == 0
    ensures r.Some? ==> r.value in p.reports
  {
    var found := match p.activeId
      case Some(id) => FindReport(p.reports, id)
      case None => None;
    match found
    case Some(i) => Some(p.reports[i])
    case None => if |p.reports| == 0 then None else Some(p.reports[|p.reports| - 1])
  }

  /** The lookup takes the first report with the active id when there is one, and the last report otherwise. */
  lemma ActiveReportChoice(p: Page)
    ensures p.activeId.Some? && (exists i :: 0 <= i < |p.reports| && p.reports[i].id == p.activeId.value) ==>
      ActiveReport(p).Some? && ActiveReport(p).value.id == p.activeId.value
    ensures (p.activeId.None? || forall i :: 0 <= i < |p.reports| ==> p.reports[i].id != p.activeId.value) && |p.reports| > 0 ==>
      ActiveReport(p) == Some(p.reports[|p.reports| - 1])
  {
    if p.activeId.Some? {
      var _ := FindReport(p.reports, p.activeId.value);
    }
  }

  /**
   * The id `updateActiveReport` writes to: the active id when it is a
   * non-empty string, else the id of the looked-up report when non-empty.
   */
  function TargetId(p: Page): Option<string>
  {
    if p.activeId.Some? && p.activeId.value != "" then p.activeId
    else match ActiveReport(p)
      case Some(r) => if r.id != "" then Some(r.id) else None
      case None => None
  }

  /** The partial report the page merges into the active report. */
  datatype ReportUpdate = SetTeachers(teachers: seq<Teacher>) | SetDayName(dayName: string) | SetDateStr(dateStr: string)

  function Merge(r: Report, u: ReportUpdate): Report
  {
    match u
    case SetTeachers(ts) => r.(teachersData := ts)
    case SetDayName(d) => r.(dayName := d)
    case SetDateStr(d) => r.(dateStr := d)
  }

  /**
   * `updateActiveReport`: merge the update into every report whose id is the
   * target id; without a target nothing changes.
   */
  function UpdateActiveReport(p: Page, u: ReportUpdate): (q: Page)
    ensures q.grades == p.grades && q.activeId == p.activeId
    ensures |q.reports| == |p.reports|
    ensures TargetId(p).None? ==> q == p
    ensures forall i :: 0 <= i < |p.reports| ==> q.reports[i].id == p.reports[i].id
    ensures forall i :: 0 <= i < |p.reports| && TargetId(p) != Some(p.reports[i].id) ==> q.reports[i] == p.reports[i]
    ensures forall i :: 0 <= i < |p.reports| && TargetId(p) == Some(p.reports[i].id) ==> q.reports[i] == Merge(p.reports[i], u)
  {
    match TargetId(p)
    case None => p
    case Some(id) =>
      p.(reports := seq(|p.reports|, i requires 0 <= i < |p.reports| =>
        if p.reports[i].id == id then Merge(p.reports[i], u) else p.reports[i]))
  }

  /** A cell edit: the field and the value the grid passes to `updateCell`. */
  datatype Edit =
    | SetName(name: string)
    | SetSubject(subject: string)
    | SetClass(className: string)
    | SetNotes(notes: seq<string>)
    | SetOrder(order: int)
    | SetScore(metric: Metric, score: int)
    | SetViolations(deduction: int)

  function FieldOf(e: Edit): Field
  {
    match e
    case SetName(_) => Name
    case SetSubject(_) => Subject
    case SetClass(_) => Class
    case SetNotes(_) => Notes
    case SetOrder(_) => Order
    case SetScore(m, _) => ScoreOf(m)
    case SetViolations(_) => Violations
  }

  /** `maxGrades[key] || 999`: a missing or zero max means 999. */
  function Bound(grades: map<string, int>, key: string): (b: int)
    ensures key !in grades || grades[key] == 0 ==> b == 999
    ensures key in grades && grades[key] != 0 ==> b == grades[key]
  {
    if key in grades && grades[key] != 0 then grades[key] else 999
  }

  /** `Math.min(Math.max(0, v), bound)`. */
  function Clamp(v: int, bound: int): (r: int)
    ensures r <= bound
    ensures 0 <= bound ==> 0 <= r
    ensures 0 <= v <= bound ==> r == v
    ensures v < 0 && 0 <= bound ==> r == 0
    ensures bound < v ==> r == bound
  {
    if v < 0 then (if 0 < bound then 0 else bound)
    else if v < bound then v else bound
  }

  /** The value an edit stores: scores and the deduction are clamped, the other fields are stored as given. */
  function Stored(e: Edit, grades: map<string, int>): Value
  {
    match e
    case SetName(s) => Text(s)
    case SetSubject(s) => Text(s)
    case SetClass(s) => Text(s)
    case SetNotes(ns) => List(ns)
    case SetOrder(n) => Num(n)
    case SetScore(m, v) => Num(Clamp(v, Bound(grades, m.Key())))
    case SetViolations(v) => Num(Clamp(v, Bound(grades, ViolationsKey)))
  }

  /** `{ ...t, [field]: val }`: the edited field takes the stored value and every other field is kept. */
  function ApplyEdit(t: Teacher, e: Edit, grades: map<string, int>): (r: Teacher)
    ensures r.id == t.id
    ensures Get(r, FieldOf(e)) == Stored(e, grades)
    ensures forall f :: f != FieldOf(e) ==> Get(r, f) == Get(t, f)
  {
    match e
    case SetName(s) => t.(teacherName := s)
    case SetSubject(s) => t.(subjectCode := s)
    case SetClass(s) => t.(className := s)
    case SetNotes(ns) => t.(violationsNotes := ns)
    case SetOrder(n) => t.(order := Some(n))
    case SetScore(m, v) => t.(scores := t.scores[m := Clamp(v, Bound(grades, m.Key()))])
    case SetViolations(v) => t.(violationsScore := Clamp(v, Bound(grades, ViolationsKey)))
  }

  /** The teacher list after `updateCell`: only the records with the id change, and only in the edited field. */
  function UpdateTeachers(ts: seq<Teacher>, id: string, e: Edit, grades: map<string, int>): (r: seq<Teacher>)
    ensures |r| == |ts|
    ensures forall i :: 0 <= i < |ts| && ts[i].id != id ==> r[i] == ts[i]
    ensures forall i :: 0 <= i < |ts| && ts[i].id == id ==> r[i].id == id && Get(r[i], FieldOf(e)) == Stored(e, grades)
    ensures forall i, f :: 0 <= i < |ts| && f != FieldOf(e) ==> Get(r[i], f) == Get(ts[i], f)
  {
    seq(|ts|, i requires 0 <= i < |ts| => if ts[i].id == id then ApplyEdit(ts[i], e, grades) else ts[i])
  }

  /** An edit addressed to an id that no record has changes nothing. */
  lemma UnknownIdNoOp(ts: seq<Teacher>, id: string, e: Edit, grades: map<string, int>)
    requires forall i :: 0 <= i < |ts| ==> ts[i].id != id
    ensures UpdateTeachers(ts, id, e, grades) == ts
  {
  }

  /** A stored score or deduction lies within [0, max], and the max is 999 when the table has no non-zero entry. */
  lemma StoredWithinBound(e: Edit, grades: map<string, int>)
    requires e.SetScore? || e.SetViolations?
    ensures var key := if e.SetScore? then e.metric.Key() else ViolationsKey;
      && Stored(e, grades).Num?
      && Stored(e, grades).n <= Bound(grades, key)
      && (0 <= Bound(grades, key) ==> 0 <= Stored(e, grades).n)
      && (key !in grades || grades[key] == 0 ==> Stored(e, grades).n <= 999)
  {
  }

  /** Re-applying an edit to the records it already reached changes nothing further. */
  lemma {:induction false} UpdateTeachersIdempotent(ts: seq<Teacher>, id: string, e: Edit, grades: map<string, int>)
    ensures UpdateTeachers(UpdateTeachers(ts, id, e, grades), id, e, grades) == UpdateTeachers(ts, id, e, grades)
  {
    var once := UpdateTeachers(ts, id, e, grades);
    var twice := UpdateTeachers(once, id, e, grades);
    forall i | 0 <= i < |ts|
      ensures twice[i] == once[i]
    {
      if ts[i].id == id {
        assert Get(twice[i], FieldOf(e)) == Get(once[i], FieldOf(e));
        FieldsDetermineRecord(twice[i], once[i]);
      }
    }
  }

  /** `updateCell`: edit the active report's teachers and write them back through `updateActiveReport`. */
  function UpdateCell(p: Page, teacherId: string, e: Edit): (q: Page)
    ensures ActiveReport(p).None? ==> q == p
    ensures ActiveReport(p).Some? ==>
      q == UpdateActiveReport(p, SetTeachers(UpdateTeachers(ActiveReport(p).value.teachersData, teacherId, e, p.grades)))
  {
    match ActiveReport(p)
    case None => p
    case Some(r) => UpdateActiveReport(p, SetTeachers(UpdateTeachers(r.teachersData, teacherId, e, p.grades)))
  }

  /**
   * When the active id names a report, `updateCell` reaches that report and
   * leaves every report with another id as it was.
   */
  lemma UpdateCellOnActive(p: Page, teacherId: string, e: Edit, i: nat)
    requires p.activeId.Some? && p.activeId.value != ""
    requires i < |p.reports| && p.reports[i].id == p.activeId.value
    requires forall j :: 0 <= j < |p.reports| && p.reports[j].id == p.activeId.value ==> p.reports[j] == p.reports[i]
    ensures var q := UpdateCell(p, teacherId, e);
      && q.reports[i].teachersData == UpdateTeachers(p.reports[i].teachersData, teacherId, e, p.grades)
      && (forall j :: 0 <= j < |p.reports| && p.reports[j].id != p.activeId.value ==> q.reports[j] == p.reports[j])
  {
    ActiveReportChoice(p);
    var _ := FindReport(p.reports, p.activeId.value);
  }

  /** `r` is `t` with every metric at its max grade and every other field kept. */
  ghost predicate FilledFrom(r: Teacher, t: Teacher, grades: map<string, int>)
  {
    && r.id == t.id
    && (forall m :: Get(r, ScoreOf(m)) == Num(MaxOrZero(grades, m.Key())))
    && (forall f: Field :: !f.ScoreOf? ==> Get(r, f) == Get(t, f))
  }

  /** The copy of one record that `fillAllMax` builds: the loop over the metric columns. */
  method FillRecord(t: Teacher, grades: map<string, int>) returns (r: Teacher)
    ensures FilledFrom(r, t, grades)
  {
    var metrics := Metrics;
    var scores := t.scores;
    for i := 0 to |metrics|
      invariant forall k :: 0 <= k < i ==> metrics[k] in scores && scores[metrics[k]] == MaxOrZero(grades, metrics[k].Key())
    {
      var m := metrics[i];
      scores := scores[m := MaxOrZero(grades, m.Key())];
    }
    r := t.(scores := scores);
    forall m ensures Get(r, ScoreOf(m)) == Num(MaxOrZero(grades, m.Key())) {
      EveryMetricListed();
      assert metrics[Position(m)] == m;
    }
  }

  /** The filled copies of a teacher list, one per record and in the same order. */
  method FillTeachers(ts: seq<Teacher>, grades: map<string, int>) returns (filled: seq<Teacher>)
    ensures |filled| == |ts|
    ensures forall i :: 0 <= i < |ts| ==> FilledFrom(filled[i], ts[i], grades)
  {
    filled := [];
    for i := 0 to |ts|
      invariant |filled| == i
      invariant forall k :: 0 <= k < i ==> FilledFrom(filled[k], ts[k], grades)
    {
      var r := FillRecord(ts[i], grades);
      filled := filled + [r];
    }
  }

  /** Filling is the same whatever the record held before, except for the fields it keeps. */
  lemma FillForgetsScores(r1: Teacher, t1: Teacher, r2: Teacher, t2: Teacher, grades: map<string, int>)
    requires FilledFrom(r1, t1, grades) && FilledFrom(r2, t2, grades)
    requires t1.id == t2.id && forall f: Field :: !f.ScoreOf? ==> Get(t1, f) == Get(t2, f)
    ensures r1 == r2
  {
    forall f ensures Get(r1, f) == Get(r2, f) {
      if f.ScoreOf? {
        assert Get(r1, ScoreOf(f.metric)) == Get(r2, ScoreOf(f.metric));
      }
    }
    FieldsDetermineRecord(r1, r2);
  }

  /** `fillAllMax`: once confirmed, every record of the active report gets every metric at its max grade. */
  method FillAllMax(p: Page, confirmed: bool) returns (q: Page)
    ensures !confirmed || ActiveReport(p).None? ==> q == p
    ensures q.grades == p.grades && q.activeId == p.activeId && |q.reports| == |p.reports|
    ensures forall i :: 0 <= i < |p.reports| && TargetId(p) != Some(p.reports[i].id) ==> q.reports[i] == p.reports[i]
    ensures confirmed && ActiveReport(p).Some? ==>
      forall i :: 0 <= i < |p.reports| && TargetId(p) == Some(p.reports[i].id) ==>
        var before := ActiveReport(p).value.teachersData;
        && q.reports[i] == p.reports[i].(teachersData := q.reports[i].teachersData)
        && |q.reports[i].teachersData| == |before|
        && forall k :: 0 <= k < |before| ==> FilledFrom(q.reports[i].teachersData[k], before[k], p.grades)
  {
    if !confirmed || ActiveReport(p).None? {
      return p;
    }
    var filled := FillTeachers(ActiveReport(p).value.teachersData, p.grades);
    q := UpdateActiveReport(p, SetTeachers(filled));
  }

  /** `bulkUpdateMetric`: `min(v, maxGrades[key] || 999)`, with no lower clamp. */
  function BulkValue(grades: map<string, int>, m: Metric, v: int): (r: int)
    ensures r <= Bound(grades, m.Key())
    ensures v <= Bound(grades, m.Key()) ==> r == v
    ensures r == v || r == Bound(grades, m.Key())
  {
    if v < Bound(grades, m.Key()) then v else Bound(grades, m.Key())
  }

  /** Every record with the one metric set to the same value and every other field kept. */
  function SetColumn(ts: seq<Teacher>, m: Metric, value: int): (r: seq<Teacher>)
    ensures |r| == |ts|
    ensures forall i :: 0 <= i < |ts| ==> r[i].id == ts[i].id && Get(r[i], ScoreOf(m)) == Num(value)
    ensures forall i, f :: 0 <= i < |ts| && f != ScoreOf(m) ==> Get(r[i], f) == Get(ts[i], f)
  {
    seq(|ts|, i requires 0 <= i < |ts| => ts[i].(scores := ts[i].scores[m := value]))
  }

  function BulkUpdateMetric(p: Page, m: Metric, v: int): (q: Page)
    ensures ActiveReport(p).None? ==> q == p
    ensures ActiveReport(p).Some? ==>
      q == UpdateActiveReport(p, SetTeachers(SetColumn(ActiveReport(p).value.teachersData, m, BulkValue(p.grades, m, v))))
  {
    match ActiveReport(p)
    case None => p
    case Some(r) => UpdateActiveReport(p, SetTeachers(SetColumn(r.teachersData, m, BulkValue(p.grades, m, v))))
  }

  /** A bulk fill followed by a cell edit within bounds of the same metric equals setting that cell directly. */
  lemma BulkThenEditCell(ts: seq<Teacher>, m: Metric, value: int, id: string, v: int, grades: map<string, int>)
    requires 0 <= v <= Bound(grades, m.Key())
    ensures var r := UpdateTeachers(SetColumn(ts, m, value), id, SetScore(m, v), grades);
      forall i :: 0 <= i < |ts| ==> Score(r[i], m) == (if ts[i].id == id then v else value)
  {
  }

  /** `toggleViolationPreset`'s list: remove every occurrence of a present preset, append an absent one. */
  function Toggle(notes: seq<string>, preset: string): (r: seq<string>)
    ensures preset in r <==> preset !in notes
    ensures forall n :: n != preset ==> (n in r <==> n in notes)
    ensures preset !in notes ==> r == notes + [preset]
    ensures preset in notes ==> Subseq(r, notes) && forall n :: multiset(r)[n] == if n != preset then multiset(notes)[n] else 0
  {
    if preset in notes then
      var keep := (n: string) => n != preset;
      FilterKeeps(notes, keep);
      Filter(notes, keep)
    else notes + [preset]
  }

  /** Toggling an absent preset twice restores the list. */
  lemma {:induction false} ToggleTwice(notes: seq<string>, preset: string)
    requires preset !in notes
    ensures Toggle(Toggle(notes, preset), preset) == notes
  {
    var keep := (n: string) => n != preset;
    FilterConcat(notes, [preset], keep);
    FilterAll(notes, keep);
    assert Filter([preset], keep) == [];
  }

  /** The notes of the first record with the id, or none (`?.violations_notes || []`). */
  function NotesOf(ts: seq<Teacher>, id: string): (r: seq<string>)
    ensures (forall i :: 0 <= i < |ts| ==> ts[i].id != id) ==> r == []
    ensures forall i :: 0 <= i < |ts| && ts[i].id == id && (forall j :: 0 <= j < i ==> ts[j].id != id) ==>
      r == ts[i].violationsNotes
  {
    if ts == [] then []
    else if ts[0].id == id then ts[0].violationsNotes
    else NotesOf(ts[1..], id)
  }

  /** `toggleViolationPreset`: the modal's teacher gets the toggled notes through `updateCell`. */
  function ToggleViolationPreset(p: Page, modalId: Option<string>, preset: string): (q: Page)
    ensures modalId.None? || ActiveReport(p).None? ==> q == p
    ensures modalId.Some? && ActiveReport(p).Some? ==>
      q == UpdateCell(p, modalId.value, SetNotes(Toggle(NotesOf(ActiveReport(p).value.teachersData, modalId.value), preset)))
  {
    match (modalId, ActiveReport(p))
    case (Some(id), Some(r)) => UpdateCell(p, id, SetNotes(Toggle(NotesOf(r.teachersData, id), preset)))
    case _ => p
  }

  /** The weekday names, Sunday first, as `getDay()` numbers them. */
  const Days: seq<string> := ["الأحد", "الاثنين", "الثلاثاء", "الأربعاء", "الخميس", "الجمعة", "السبت"]

  /** A record carried into a new report: fresh id, every score and the deduction at 0, no notes. */
  function Carried(t: Teacher, freshId: string): (r: Teacher)
    ensures r.id == freshId
    ensures Get(r, Name) == Get(t, Name) && Get(r, Subject) == Get(t, Subject)
    ensures Get(r, Class) == Get(t, Class) && Get(r, Order) == Get(t, Order)
    ensures forall m :: Get(r, ScoreOf(m)) == Num(0)
    ensures Get(r, Violations) == Num(0) && Get(r, Notes) == List([])
  {
    t.(id := freshId, scores := ZeroScores(), violationsScore := 0, violationsNotes := [])
  }

  /**
   * `createNewReport`: append one report for the given weekday and date that
   * carries the last report's teachers with scores reset, and make it active.
   * `freshId(i)` is the id generated for the i-th carried record.
   */
  function CreateNewReport(p: Page, reportId: string, weekday: nat, dateStr: string, freshId: nat -> string): (q: Page)
    requires weekday < 7
    ensures |q.reports| == |p.reports| + 1 && q.reports[..|p.reports|] == p.reports
    ensures q.grades == p.grades && q.activeId == Some(reportId)
    ensures var added := q.reports[|p.reports|];
      && added.id == reportId && added.dayName == Days[weekday] && added.dateStr == dateStr
      && (|p.reports| == 0 ==> added.teachersData == [])
      && (|p.reports| > 0 ==>
        var last := p.reports[|p.reports| - 1].teachersData;
        && |added.teachersData| == |last|
        && forall i :: 0 <= i < |last| ==> added.teachersData[i] == Carried(last[i], freshId(i)))
  {
    var carried := if |p.reports| == 0 then [] else
      var last := p.reports[|p.reports| - 1].teachersData;
      seq(|last|, i requires 0 <= i < |last| => Carried(last[i], freshId(i)));
    var added := Report(reportId, Days[weekday], dateStr, carried);
    assert (p.reports + [added])[..|p.reports|] == p.reports;
    p.(reports := p.reports + [added], activeId := Some(reportId))
  }

  /** Every record of a newly created report totals 0. */
  lemma NewReportTotalsZero(p: Page, reportId: string, weekday: nat, dateStr: string, freshId: nat -> string)
    requires weekday < 7
    ensures var added := CreateNewReport(p, reportId, weekday, dateStr, freshId).reports[|p.reports|];
      forall t :: t in added.teachersData ==> Total(t) == 0
  {
    var added := CreateNewReport(p, reportId, weekday, dateStr, freshId).reports[|p.reports|];
    forall t | t in added.teachersData ensures Total(t) == 0 {
      assert t.scores == ZeroScores() && t.violationsScore == 0;
      ZeroRecordTotal(t);
    }
  }

  /** `deleteReport`: once confirmed, drop every report with the id and clear the active id if it was that one. */
  function DeleteReport(p: Page, reportId: string, confirmed: bool): (q: Page)
    ensures !confirmed ==> q == p
    ensures confirmed ==> q.grades == p.grades
    ensures confirmed ==> forall r :: r in q.reports <==> r in p.reports && r.id != reportId
    ensures confirmed ==> Subseq(q.reports, p.reports)
    ensures confirmed ==> forall r :: multiset(q.reports)[r] == if r.id != reportId then multiset(p.reports)[r] else 0
    ensures confirmed ==> q.activeId == if p.activeId == Some(reportId) then None else p.activeId
  {
    if !confirmed then p
    else
      var keep := (r: Report) => r.id != reportId;
      FilterKeeps(p.reports, keep);
      Page(Filter(p.reports, keep), p.grades,
        if p.activeId == Some(reportId) then None else p.activeId)
  }

  /** Deleting an id no report has changes no report. */
  lemma DeleteReportKeepsRest(p: Page, reportId: string)
    requires forall i :: 0 <= i < |p.reports| ==> p.reports[i].id != reportId
    ensures DeleteReport(p, reportId, true).reports == p.reports
  {
    FilterAll(p.reports, (r: Report) => r.id != reportId);
  }

  /** The blank record `addNewTeacher` appends, numbered after the existing ones. */
  function NewTeacher(id: string, order: int): (t: Teacher)
    ensures t.id == id && Get(t, Order) == Num(order)
    ensures Get(t, Name) == Text("") && Get(t, Subject) == Text("") && Get(t, Class) == Text("")
    ensures forall m :: Get(t, ScoreOf(m)) == Num(0)
    ensures Get(t, Violations) == Num(0) && Get(t, Notes) == List([])
  {
    Teacher(id, "", "", "", ZeroScores(), 0, [], Some(order))
  }

  /** A blank record totals 0. */
  lemma NewTeacherTotalsZero(id: string, order: int)
    ensures Total(NewTeacher(id, order)) == 0
  {
    ZeroRecordTotal(NewTeacher(id, order));
  }

  /** `addNewTeacher`: append a blank record with order `length + 1` to the active report. */
  function AddNewTeacher(p: Page, newId: string): (q: Page)
    ensures ActiveReport(p).None? ==> q == p
    ensures ActiveReport(p).Some? ==>
      var ts := ActiveReport(p).value.teachersData;
      q == UpdateActiveReport(p, SetTeachers(ts + [NewTeacher(newId, |ts| + 1)]))
  {
    match ActiveReport(p)
    case None => p
    case Some(r) => UpdateActiveReport(p, SetTeachers(r.teachersData + [NewTeacher(newId, |r.teachersData| + 1)]))
  }

  /** The teacher list after the row's delete button, once confirmed. */
  function RemoveTeacher(ts: seq<Teacher>, id: string): (r: seq<Teacher>)
    ensures forall t :: t in r <==> t in ts && t.id != id
    ensures Subseq(r, ts)
    ensures forall t :: multiset(r)[t] == if t.id != id then multiset(ts)[t] else 0
  {
    var keep := (t: Teacher) => t.id != id;
    FilterKeeps(ts, keep);
    Filter(ts, keep)
  }

  /** The row delete button: once confirmed, drop the records with the id from the active report. */
  function DeleteTeacher(p: Page, id: string, confirmed: bool): (q: Page)
    ensures !confirmed || ActiveReport(p).None? ==> q == p
    ensures confirmed && ActiveReport(p).Some? ==>
      q == UpdateActiveReport(p, SetTeachers(RemoveTeacher(ActiveReport(p).value.teachersData, id)))
  {
    match ActiveReport(p)
    case None => p
    case Some(r) => if confirmed then UpdateActiveReport(p, SetTeachers(RemoveTeacher(r.teachersData, id))) else p
  }

  /** Deleting a freshly added record, whose id no other record has, restores the teacher list. */
  lemma {:induction false} AddThenRemove(ts: seq<Teacher>, newId: string)
    requires forall i :: 0 <= i < |ts| ==> ts[i].id != newId
    ensures RemoveTeacher(ts + [NewTeacher(newId, |ts| + 1)], newId) == ts
  {
    var keep := (t: Teacher) => t.id != newId;
    var added := NewTeacher(newId, |ts| + 1);
    FilterConcat(ts, [added], keep);
    FilterAll(ts, keep);
    assert Filter([added], keep) == [];
  }
}
