/**
 * The records of the evaluation pages: one teacher's follow-up record
 * (`TeacherFollowUp`), the daily report that groups them
 * (`DailyReportContainer`), and a typed accessor per field in place of the
 * source's `t[field]` string lookup.
 */
module Records {

  datatype Option<T> = None | Some(value: T)

  /** The fourteen scored metrics of a teacher record. */
  datatype Metric =
    | Attendance | Appearance | Preparation
    | SupervisionQueue | SupervisionRest | SupervisionEnd
    | CorrectionNotebooks | CorrectionBooks | CorrectionFollowup
    | TeachingAids | ExtraActivities | Radio | Creativity | ZeroPeriod
  {
    /** The record key of the metric, also its key in the max-grade table. */
    function Key(): string
    {
      match this
      case Attendance => "attendance"
      case Appearance => "appearance"
      case Preparation => "preparation"
      case SupervisionQueue => "supervision_queue"
      case SupervisionRest => "supervision_rest"
      case SupervisionEnd => "supervision_end"
      case CorrectionNotebooks => "correction_notebooks"
      case CorrectionBooks => "correction_books"
      case CorrectionFollowup => "correction_followup"
      case TeachingAids => "teaching_aids"
      case ExtraActivities => "extra_activities"
      case Radio => "radio"
      case Creativity => "creativity"
      case ZeroPeriod => "zero_period"
    }
  }

  /** The metric columns of the grid, in display order. */
  const Metrics: seq<Metric> := [
    Attendance, Appearance, Preparation,
    SupervisionQueue, SupervisionRest, SupervisionEnd,
    CorrectionNotebooks, CorrectionBooks, CorrectionFollowup,
    TeachingAids, ExtraActivities, Radio, Creativity, ZeroPeriod
  ]

  /** The max-grade table key the grid uses for the deduction column. */
  const ViolationsKey: string := "violations_score"

  /** The position of a metric in the display order. */
  function Position(m: Metric): nat
  {
    match m
    case Attendance => 0
    case Appearance => 1
    case Preparation => 2
    case SupervisionQueue => 3
    case SupervisionRest => 4
    case SupervisionEnd => 5
    case CorrectionNotebooks => 6
    case CorrectionBooks => 7
    case CorrectionFollowup => 8
    case TeachingAids => 9
    case ExtraActivities => 10
    case Radio => 11
    case Creativity => 12
    case ZeroPeriod => 13
  }

  /** Every metric is listed, at its position. */
  lemma EveryMetricListed()
    ensures |Metrics| == 14
    ensures forall m: Metric :: Position(m) < |Metrics| && Metrics[Position(m)] == m
  {
  }

  lemma MetricsCoverAll()
    ensures forall m: Metric :: m in Metrics
  {
    forall m: Metric ensures m in Metrics {
      EveryMetricListed();
      assert Metrics[Position(m)] == m;
    }
  }

  /**
   * One teacher's record in one daily report. A metric missing from `scores`
   * is an unset field of the source record and reads as 0; `order` is the
   * optional manual position.
   */
  datatype Teacher = Teacher(
    id: string,
    teacherName: string,
    subjectCode: string,
    className: string,
    scores: map<Metric, int>,
    violationsScore: int,
    violationsNotes: seq<string>,
    order: Option<int>)

  datatype Report = Report(id: string, dayName: string, dateStr: string, teachersData: seq<Teacher>)

  /** `t[m.key] || 0`. */
  function Score(t: Teacher, m: Metric): int
  {
    if m in t.scores then t.scores[m] else 0
  }

  /** `t.order || 0`, the manual sort position. */
  function OrderKey(t: Teacher): int
  {
    match t.order
    case Some(n) => n
    case None => 0
  }

  /** Every metric set to 0, as new and copied records start. */
  function ZeroScores(): (z: map<Metric, int>)
    ensures forall m :: m in z && z[m] == 0
  {
    MetricsCoverAll();
    map m | m in Metrics :: 0
  }

  /** `maxGrades[key] || 0`: a missing or zero max grade reads as 0. */
  function MaxOrZero(grades: map<string, int>, key: string): int
  {
    if key in grades then grades[key] else 0
  }

  /** The editable fields of a record; `id` is not editable. */
  datatype Field = Name | Subject | Class | Notes | Order | ScoreOf(metric: Metric) | Violations

  /** The value a field holds; `Absent` is an unset optional field. */
  datatype Value = Text(text: string) | List(items: seq<string>) | Num(n: int) | Absent

  /** Reads one field of a record. */
  function Get(t: Teacher, f: Field): Value
  {
    match f
    case Name => Text(t.teacherName)
    case Subject => Text(t.subjectCode)
    case Class => Text(t.className)
    case Notes => List(t.violationsNotes)
    case Order => (match t.order case Some(n) => Num(n) case None => Absent)
    case ScoreOf(m) => if m in t.scores then Num(t.scores[m]) else Absent
    case Violations => Num(t.violationsScore)
  }

  /** Two records with the same id that agree on every field are the same record. */
  lemma {:induction false} FieldsDetermineRecord(a: Teacher, b: Teacher)
    requires a.id == b.id
    requires forall f :: Get(a, f) == Get(b, f)
    ensures a == b
  {
    assert Get(a, Name) == Get(b, Name) && Get(a, Subject) == Get(b, Subject);
    assert Get(a, Class) == Get(b, Class) && Get(a, Notes) == Get(b, Notes);
    assert Get(a, Violations) == Get(b, Violations);
    assert a.order == b.order by {
      assert Get(a, Order) == Get(b, Order);
    }
    forall m ensures (m in a.scores) == (m in b.scores) && (m in a.scores ==> a.scores[m] == b.scores[m]) {
      assert Get(a, ScoreOf(m)) == Get(b, ScoreOf(m));
    }
    assert a.scores == b.scores;
  }
}
