/**
 * What the grid displays: the active report's teachers narrowed by the
 * teacher selection or the name search, then sorted by the chosen criterion
 * (or by total, descending, in percent mode), and the metric columns narrowed
 * by the metric picker. The page sorts with `Array.prototype.sort`, which is
 * stable; the model sorts a copy in an array by insertion, which orders the
 * same comparator the same stable way.
 */
module ReportView {
  import opened Records
  import opened Seqs
  import opened Strings
  import opened Scoring
  import opened ReportEdits
  import opened Sorting

  datatype FilterMode = ShowAll | TeacherMode | MetricMode | PercentMode | DateMode
  datatype Criterion = ByName | BySubject | ByClass | Manual
  datatype Direction = Asc | Desc

  /** What a comparator compares: a text (names, classes) or a number (ranks, orders, totals). */
  datatype SortKey = Str(s: string) | Rank(n: int)

  /** JavaScript's `<` on two values of the same kind; the grid never compares a text with a number. */
  predicate KeyLess(x: SortKey, y: SortKey)
  {
    match (x, y)
    case (Str(s), Str(t)) => StrLess(s, t)
    case (Rank(m), Rank(n)) => m < n
    case _ => false
  }

  /** The comparator returns a negative number: `x` before `y` in direction `d`. */
  predicate KeyBefore(d: Direction, x: SortKey, y: SortKey)
  {
    if d == Asc then KeyLess(x, y) else KeyLess(y, x)
  }

  /** Keys of one kind are strictly weakly ordered by `KeyBefore`. */
  lemma KeyBeforeWeakOrder(d: Direction, x: SortKey, y: SortKey, z: SortKey)
    requires x.Str? == y.Str? == z.Str?
    ensures !KeyBefore(d, x, x)
    ensures KeyBefore(d, x, y) ==> !KeyBefore(d, y, x)
    ensures !KeyBefore(d, x, y) && !KeyBefore(d, y, z) ==> !KeyBefore(d, x, z)
  {
    if x.Str? {
      StrLessIrreflexive(x.s);
      if StrLess(x.s, y.s) && StrLess(y.s, x.s) {
        StrLessTransitive(x.s, y.s, x.s);
      }
      StrWeakOrder(x.s, y.s, z.s);
      StrWeakOrder(z.s, y.s, x.s);
    }
  }

  /** Not-less is transitive on strings. */
  lemma StrWeakOrder(a: string, b: string, c: string)
    ensures !StrLess(a, b) && !StrLess(b, c) ==> !StrLess(a, c)
  {
    if !StrLess(a, b) && !StrLess(b, c) && StrLess(a, c) {
      if a == b {
      } else {
        StrLessTotal(a, b);
        StrLessTransitive(b, a, c);
      }
    }
  }

  /** The page's view controls. An empty selected id is the "choose a teacher" placeholder. */
  datatype ViewState = ViewState(
    mode: FilterMode,
    query: string,
    selectedId: Option<string>,
    criterion: Criterion,
    direction: Direction,
    selectedMetrics: seq<string>)

  /** A teacher is selected: teacher mode with a non-empty selected id. */
  predicate HasSelection(v: ViewState)
  {
    v.mode == TeacherMode && v.selectedId.Some? && v.selectedId.value != ""
  }

  /** The filtering step of `sortedAndFilteredData`: the selected teacher, else the name search, else everyone. */
  function Visible(ts: seq<Teacher>, v: ViewState): (r: seq<Teacher>)
    ensures HasSelection(v) ==> forall t :: t in r <==> t in ts && t.id == v.selectedId.value
    ensures !HasSelection(v) && v.query != "" ==> forall t :: t in r <==> t in ts && Contains(t.teacherName, v.query)
    ensures Subseq(r, ts)
    ensures HasSelection(v) ==> forall t :: multiset(r)[t] == if t.id == v.selectedId.value then multiset(ts)[t] else 0
    ensures !HasSelection(v) && v.query != "" ==>
      forall t :: multiset(r)[t] == if Contains(t.teacherName, v.query) then multiset(ts)[t] else 0
    ensures !HasSelection(v) && v.query == "" ==> r == ts
  {
    if HasSelection(v) then
      var keep := (t: Teacher) => t.id == v.selectedId.value;
      FilterKeeps(ts, keep);
      Filter(ts, keep)
    else if v.query != "" then
      var keep := (t: Teacher) => Contains(t.teacherName, v.query);
      FilterKeeps(ts, keep);
      Filter(ts, keep)
    else
      SubseqRefl(ts);
      ts
  }

  /** The subject list of the grid, whose positions rank subjects. */
  const Subjects: seq<string> := [
    "القرآن الكريم", "التربية الإسلامية", "اللغة العربية", "اللغة الإنجليزية",
    "الرياضيات", "العلوم", "الكيمياء", "الفيزياء", "الأحياء", "الاجتماعيات",
    "الحاسوب", "المكتبة", "الفنية", "المختص الاجتماعي", "الأنشطة", "غيرها"
  ]

  /** `xs.indexOf(s)`: the first position of `s`, or -1. */
  function IndexOf(xs: seq<string>, s: string): (r: int)
    ensures -1 <= r < |xs|
    ensures r == -1 <==> s !in xs
    ensures 0 <= r ==> xs[r] == s && s !in xs[..r]
  {
    if xs == [] then -1
    else if xs[0] == s then 0
    else
      var k := IndexOf(xs[1..], s);
      if k == -1 then -1
      else
        assert xs[..k + 1] == [xs[0]] + xs[1..][..k];
        k + 1
  }

  /** The subject criterion: the subject's position in the list, 999 for a subject not listed. */
  function SubjectRank(subject: string): (r: int)
    ensures subject !in Subjects <==> r == 999
    ensures subject in Subjects ==> 0 <= r < |Subjects| && Subjects[r] == subject
  {
    var i := IndexOf(Subjects, subject);
    if i == -1 then 999 else i
  }

  /** Two listed subjects that differ get different ranks, and a listed subject ranks before an unlisted one. */
  lemma SubjectRankOrder(a: string, b: string)
    ensures a in Subjects && b in Subjects && a != b ==> SubjectRank(a) != SubjectRank(b)
    ensures a in Subjects && b !in Subjects ==> SubjectRank(a) < SubjectRank(b)
  {
  }

  /** The value the comparator compares: the total in percent mode, else the criterion's projection. */
  function KeyOf(v: ViewState, t: Teacher): SortKey
  {
    if v.mode == PercentMode then Rank(Total(t))
    else match v.criterion
      case ByName => Str(t.teacherName)
      case BySubject => Rank(SubjectRank(t.subjectCode))
      case ByClass => Str(t.className)
      case Manual => Rank(OrderKey(t))
  }

  function KeyFn(v: ViewState): Teacher -> SortKey
  {
    t => KeyOf(v, t)
  }

  /** Percent mode always sorts descending; otherwise the chosen direction applies. */
  function DirectionOf(v: ViewState): Direction
  {
    if v.mode == PercentMode then Desc else v.direction
  }

  /** The comparator of `sortedAndFilteredData` returns a negative number for `a` and `b`. */
  predicate Before(v: ViewState, a: Teacher, b: Teacher)
  {
    KeyBefore(DirectionOf(v), KeyOf(v, a), KeyOf(v, b))
  }

  function BeforeFn(v: ViewState): (Teacher, Teacher) -> bool
  {
    (a, b) => Before(v, a, b)
  }

  /** Under every view the comparator is a strict weak order that never separates records with equal keys. */
  lemma ComparatorIsWeakOrder(v: ViewState)
    ensures Asymmetric(BeforeFn(v))
    ensures NegativelyTransitive(BeforeFn(v))
    ensures TiesShareKeys(BeforeFn(v), KeyFn(v))
  {
    forall a, b, c
      ensures BeforeFn(v)(a, b) ==> !BeforeFn(v)(b, a)
      ensures !BeforeFn(v)(a, b) && !BeforeFn(v)(b, c) ==> !BeforeFn(v)(a, c)
      ensures KeyFn(v)(a) == KeyFn(v)(b) ==> !BeforeFn(v)(a, b)
    {
      KeyKind(v, a);
      KeyKind(v, b);
      KeyKind(v, c);
      KeyBeforeWeakOrder(DirectionOf(v), KeyOf(v, a), KeyOf(v, b), KeyOf(v, c));
    }
  }

  /** Names and classes are compared as text, everything else as numbers. */
  lemma KeyKind(v: ViewState, t: Teacher)
    ensures KeyOf(v, t).Str? <==> v.mode != PercentMode && (v.criterion == ByName || v.criterion == ByClass)
  {
  }

  /**
   * `sortedAndFilteredData`: the active report's teachers, filtered, copied
   * into an array and sorted there. The result holds exactly the visible
   * records, ordered by the comparator, with ties in their original order.
   */
  method SortedAndFiltered(p: Page, v: ViewState) returns (view: seq<Teacher>)
    ensures ActiveReport(p).None? ==> view == []
    ensures ActiveReport(p).Some? ==>
      var visible := Visible(ActiveReport(p).value.teachersData, v);
      && view == InsertionSorted(BeforeFn(v), visible)
      && multiset(view) == multiset(visible)
      && Sorted(BeforeFn(v), view)
      && forall k :: Filter(view, WithKey(KeyFn(v), k)) == Filter(visible, WithKey(KeyFn(v), k))
  {
    if ActiveReport(p).None? {
      return [];
    }
    var result := Visible(ActiveReport(p).value.teachersData, v);
    var a := new Teacher[|result|](i requires 0 <= i < |result| => result[i]);
    assert a[..] == result;
    var before := BeforeFn(v);
    SortInPlace(a, before);
    view := a[..];
    ComparatorIsWeakOrder(v);
    SortPermutes(before, result);
    SortOrders(before, result);
    forall k ensures Filter(view, WithKey(KeyFn(v), k)) == Filter(result, WithKey(KeyFn(v), k)) {
      SortStable(before, KeyFn(v), result, k);
    }
  }

  /** In percent mode the rows come out with non-increasing totals. */
  lemma PercentModeDescending(v: ViewState, view: seq<Teacher>)
    requires v.mode == PercentMode && Sorted(BeforeFn(v), view)
    ensures forall i, j :: 0 <= i < j < |view| ==> Total(view[i]) >= Total(view[j])
  {
    forall i, j | 0 <= i < j < |view| ensures Total(view[i]) >= Total(view[j]) {
      assert !BeforeFn(v)(view[j], view[i]);
      PercentPair(v, view[i], view[j]);
    }
  }

  lemma PercentPair(v: ViewState, a: Teacher, b: Teacher)
    requires v.mode == PercentMode && !Before(v, b, a)
    ensures Total(a) >= Total(b)
  {
    assert KeyOf(v, a) == Rank(Total(a)) && KeyOf(v, b) == Rank(Total(b));
  }

  /** In manual mode, ascending, the rows come out with non-decreasing `order || 0`. */
  lemma ManualAscending(v: ViewState, view: seq<Teacher>)
    requires v.mode != PercentMode && v.criterion == Manual && v.direction == Asc
    requires Sorted(BeforeFn(v), view)
    ensures forall i, j :: 0 <= i < j < |view| ==> OrderKey(view[i]) <= OrderKey(view[j])
  {
    forall i, j | 0 <= i < j < |view| ensures OrderKey(view[i]) <= OrderKey(view[j]) {
      assert !BeforeFn(v)(view[j], view[i]);
      assert KeyOf(v, view[i]) == Rank(OrderKey(view[i])) && KeyOf(v, view[j]) == Rank(OrderKey(view[j]));
    }
  }

  /** `displayMetrics`: the picked metric columns in metric mode when some are picked, else all of them. */
  function DisplayMetrics(v: ViewState): (r: seq<Metric>)
    ensures v.mode == MetricMode && |v.selectedMetrics| > 0 ==> forall m :: m in r <==> m.Key() in v.selectedMetrics
    ensures Subseq(r, Metrics)
    ensures v.mode == MetricMode && |v.selectedMetrics| > 0 ==>
      forall m :: multiset(r)[m] == if m.Key() in v.selectedMetrics then multiset(Metrics)[m] else 0
    ensures !(v.mode == MetricMode && |v.selectedMetrics| > 0) ==> r == Metrics
  {
    if v.mode == MetricMode && |v.selectedMetrics| > 0 then
      MetricsCoverAll();
      var keep := (m: Metric) => m.Key() in v.selectedMetrics;
      FilterKeeps(Metrics, keep);
      Filter(Metrics, keep)
    else
      SubseqRefl(Metrics);
      Metrics
  }
}
