/**
 * The substitution (class cover) sheet: one row per absent teacher, with the
 * covering teacher, the seven period cells `p1`..`p7`, a payment status and
 * seven signature slots `sig1`..`sig7`. A row is a string-keyed record whose
 * fields the page reads and writes by name, so it is modelled as a map from
 * field name to text; a name the row lacks is JavaScript's `undefined`.
 * The sheet also offers the names of every teacher who appears in any daily
 * report, once each, in the order they are first met.
 */
module Substitutions {
  import opened Records
  import opened Seqs
  import opened Strings

  /** One row of the sheet, by field name. */
  type Entry = map<string, string>

  /** `s.id === id`: a row without an id never matches a text id. */
  predicate Matches(e: Entry, id: string)
  {
    "id" in e && e["id"] == id
  }

  /** `iso.split('T')[0]`: the calendar date of an ISO timestamp. */
  function DatePart(iso: string): string
  {
    Split(iso, 'T')[0]
  }

  /** For a timestamp `date + "T" + time`, the date part is `date`. */
  lemma DatePartOfTimestamp(date: string, time: string)
    requires 'T' !in date
    ensures DatePart(date + "T" + time) == date
  {
    SplitAfter(date, 'T', time);
  }

  /** The fields a new row starts with blank. */
  const BlankFields: set<string> := {
    "absentTeacher", "replacementTeacher", "period", "class",
    "p1", "p2", "p3", "p4", "p5", "p6", "p7", "signature"
  }

  /** The approval text a signature slot holds once signed. */
  const Approval: string := "تمت الموافقة"

  /** The field of signature slot `k`, one of `sig1`..`sig7`. */
  function SigField(k: nat): (f: string)
    requires 1 <= k <= 7
    ensures |f| == 4 && f[..3] == "sig"
  {
    "sig" + [DigitChar(k)]
  }

  /** Different slots are different fields. */
  lemma SigFieldInjective(k: nat, l: nat)
    requires 1 <= k <= 7 && 1 <= l <= 7
    ensures SigField(k) == SigField(l) <==> k == l
  {
    if SigField(k) == SigField(l) {
      assert SigField(k)[3] == SigField(l)[3];
    }
  }

  /** Slot `k` of the row shows the approval mark. */
  predicate IsSigned(e: Entry, k: nat)
    requires 1 <= k <= 7
  {
    SigField(k) in e && e[SigField(k)] == Approval
  }

  /** `handleAddRow`'s new row: a fresh id, today's date and status pending. */
  function NewEntry(newId: string, iso: string): (e: Entry)
    ensures Matches(e, newId)
    ensures "date" in e && e["date"] == DatePart(iso)
    ensures "paymentStatus" in e && e["paymentStatus"] == "pending"
  {
    (map f | f in BlankFields :: "")["id" := newId]["date" := DatePart(iso)]["paymentStatus" := "pending"]
  }

  /** The new row has just these fields, and all but the id, date and status are blank. */
  lemma NewEntryBlank(newId: string, iso: string)
    ensures forall f :: f in NewEntry(newId, iso) <==> f in BlankFields || f == "id" || f == "date" || f == "paymentStatus"
    ensures forall f :: f in BlankFields ==> NewEntry(newId, iso)[f] == ""
  {
  }

  /** No signature slot of the new row is signed. */
  lemma NewEntryUnsigned(newId: string, iso: string)
    ensures forall k :: 1 <= k <= 7 ==> !IsSigned(NewEntry(newId, iso), k)
  {
    forall k | 1 <= k <= 7 ensures SigField(k) !in NewEntry(newId, iso) {
      assert SigField(k)[..3] == "sig";
    }
  }

  /** `handleAddRow`: the sheet with the new row appended. */
  function AddRow(es: seq<Entry>, newId: string, iso: string): (r: seq<Entry>)
    ensures |r| == |es| + 1 && r[..|es|] == es
    ensures r[|es|] == NewEntry(newId, iso)
  {
    es + [NewEntry(newId, iso)]
  }

  /** `updateEntry`: set one field of every row with the id, leaving every other row as it was. */
  function UpdateEntry(es: seq<Entry>, id: string, field: string, value: string): (r: seq<Entry>)
    ensures |r| == |es|
    ensures forall i :: 0 <= i < |es| && !Matches(es[i], id) ==> r[i] == es[i]
    ensures forall i :: 0 <= i < |es| && Matches(es[i], id) ==>
      r[i].Keys == es[i].Keys + {field} && r[i][field] == value &&
      forall f :: f in es[i] && f != field ==> r[i][f] == es[i][f]
  {
    seq(|es|, i requires 0 <= i < |es| => if Matches(es[i], id) then es[i][field := value] else es[i])
  }

  /** Setting the same field to the same value twice is the same as once, even when the field is the id. */
  lemma UpdateEntryIdempotent(es: seq<Entry>, id: string, field: string, value: string)
    ensures UpdateEntry(UpdateEntry(es, id, field, value), id, field, value) == UpdateEntry(es, id, field, value)
  {
    var once := UpdateEntry(es, id, field, value);
    var twice := UpdateEntry(once, id, field, value);
    forall i | 0 <= i < |es| ensures twice[i] == once[i] {
      if Matches(once[i], id) {
        assert once[i][field := value] == once[i];
      }
    }
  }

  /** An id no row has changes nothing. */
  lemma UpdateEntryUnknownId(es: seq<Entry>, id: string, field: string, value: string)
    requires forall i :: 0 <= i < |es| ==> !Matches(es[i], id)
    ensures UpdateEntry(es, id, field, value) == es
  {
  }

  /** `handleDelete`: when the user confirms, every row with the id goes; the others stay in order. */
  function Delete(es: seq<Entry>, id: string, confirmed: bool): (r: seq<Entry>)
    ensures !confirmed ==> r == es
    ensures forall e :: e in r <==> e in es && !(confirmed && Matches(e, id))
    ensures Subseq(r, es)
    ensures forall e :: multiset(r)[e] == if confirmed && Matches(e, id) then 0 else multiset(es)[e]
  {
    if confirmed then
      var keep := (e: Entry) => !Matches(e, id);
      FilterKeeps(es, keep);
      Filter(es, keep)
    else
      SubseqRefl(es);
      es
  }

  /** Adding a row under an unused id and deleting that id gives the sheet back. */
  lemma {:induction false} AddThenDelete(es: seq<Entry>, newId: string, iso: string)
    requires forall i :: 0 <= i < |es| ==> !Matches(es[i], newId)
    ensures Delete(AddRow(es, newId, iso), newId, true) == es
  {
    var keep := (e: Entry) => !Matches(e, newId);
    FilterConcat(es, [NewEntry(newId, iso)], keep);
    FilterAll(es, keep);
  }

  /** The signature button: slot `k` of the row with the id gets the approval text. */
  function Sign(es: seq<Entry>, id: string, k: nat): (r: seq<Entry>)
    requires 1 <= k <= 7
  {
    UpdateEntry(es, id, SigField(k), Approval)
  }

  /** Signing marks the slot on the rows with the id, keeps their other slots, and touches no other row. */
  lemma SignMarks(es: seq<Entry>, id: string, k: nat)
    requires 1 <= k <= 7
    ensures |Sign(es, id, k)| == |es|
    ensures forall i :: 0 <= i < |es| && Matches(es[i], id) ==> IsSigned(Sign(es, id, k)[i], k)
    ensures forall i, l :: 0 <= i < |es| && 1 <= l <= 7 && l != k ==>
      IsSigned(Sign(es, id, k)[i], l) == IsSigned(es[i], l)
    ensures forall i :: 0 <= i < |es| && !Matches(es[i], id) ==> Sign(es, id, k)[i] == es[i]
  {
    forall l | 1 <= l <= 7 && l != k ensures SigField(l) != SigField(k) {
      SigFieldInjective(l, k);
    }
  }

  /** Signing a slot that is already signed changes nothing. */
  lemma SignIdempotent(es: seq<Entry>, id: string, k: nat)
    requires 1 <= k <= 7
    ensures Sign(Sign(es, id, k), id, k) == Sign(es, id, k)
  {
    UpdateEntryIdempotent(es, id, SigField(k), Approval);
  }

  /** The non-empty teacher names of a report's records, in record order. */
  function NamesOf(ts: seq<Teacher>): (r: seq<string>)
    ensures forall n :: n in r <==> n != "" && exists t :: t in ts && t.teacherName == n
  {
    if ts == [] then []
    else
      var t := Last(ts);
      assert ts == Front(ts) + [t];
      NamesOf(Front(ts)) + (if t.teacherName != "" then [t.teacherName] else [])
  }

  /** The non-empty teacher names of all reports, report by report. */
  function AllNames(rs: seq<Report>): (r: seq<string>)
    ensures forall n :: n in r <==> n != "" && exists i, t :: 0 <= i < |rs| && t in rs[i].teachersData && t.teacherName == n
  {
    if rs == [] then []
    else
      assert rs == Front(rs) + [Last(rs)];
      AllNames(Front(rs)) + NamesOf(Last(rs).teachersData)
  }

  /** What adding the names one at a time to a `Set` and listing it gives: each name once, at its first place. */
  function Dedupe(xs: seq<string>): seq<string>
  {
    if xs == [] then []
    else
      var d := Dedupe(Front(xs));
      if Last(xs) in d then d else d + [Last(xs)]
  }

  /** The listing holds exactly the names added. */
  lemma {:induction false} DedupeMembers(xs: seq<string>)
    ensures forall n :: n in Dedupe(xs) <==> n in xs
  {
    if xs != [] {
      DedupeMembers(Front(xs));
      assert xs == Front(xs) + [Last(xs)];
    }
  }

  /** The listing holds no name twice. */
  lemma {:induction false} DedupeDistinct(xs: seq<string>)
    ensures forall i, j :: 0 <= i < j < |Dedupe(xs)| ==> Dedupe(xs)[i] != Dedupe(xs)[j]
  {
    if xs != [] {
      DedupeDistinct(Front(xs));
    }
  }

  /** The deduplicated names keep the order in which they first appear. */
  lemma {:induction false} DedupeOrder(xs: seq<string>)
    ensures Subseq(Dedupe(xs), xs)
  {
    if xs != [] {
      DedupeOrder(Front(xs));
      SubseqSnoc(Dedupe(Front(xs)), Front(xs), Last(xs));
      assert xs == Front(xs) + [Last(xs)];
    }
  }

  /**
   * The listing follows first occurrence: every occurrence of a name listed
   * later is preceded in `xs` by an occurrence of each name listed before it.
   */
  lemma {:induction false} DedupeFirstOccurrence(xs: seq<string>)
    ensures forall i, j, q :: 0 <= i < j < |Dedupe(xs)| && 0 <= q < |xs| && xs[q] == Dedupe(xs)[j] ==>
      Dedupe(xs)[i] in xs[..q]
  {
    if xs != [] {
      var front, l := Front(xs), Last(xs);
      var d := Dedupe(front);
      DedupeFirstOccurrence(front);
      DedupeMembers(front);
      assert xs == front + [l];
      var dd := Dedupe(xs);
      assert |dd| <= |d| + 1 && forall k :: 0 <= k < |d| ==> dd[k] == d[k];
      forall i, j, q | 0 <= i < j < |dd| && 0 <= q < |xs| && xs[q] == dd[j]
        ensures dd[i] in xs[..q]
      {
        if q < |front| {
          assert xs[q] == front[q] && xs[..q] == front[..q];
        } else {
          assert xs[..q] == front && d[i] in front;
        }
      }
    }
  }

  /** A name already listed is not listed again. */
  lemma DedupeSnoc(xs: seq<string>, n: string)
    ensures Dedupe(xs + [n]) == if n in Dedupe(xs) then Dedupe(xs) else Dedupe(xs) + [n]
  {
    assert Front(xs + [n]) == xs;
  }

  /** One more record adds its name, if it has one. */
  lemma NamesOfStep(ts: seq<Teacher>, j: nat)
    requires j < |ts|
    ensures NamesOf(ts[..j + 1]) == NamesOf(ts[..j]) + (if ts[j].teacherName != "" then [ts[j].teacherName] else [])
  {
    assert Front(ts[..j + 1]) == ts[..j] && Last(ts[..j + 1]) == ts[j];
  }

  /** One more report adds its records' names. */
  lemma AllNamesStep(rs: seq<Report>, i: nat)
    requires i < |rs|
    ensures AllNames(rs[..i + 1]) == AllNames(rs[..i]) + NamesOf(rs[i].teachersData)
  {
    assert Front(rs[..i + 1]) == rs[..i] && Last(rs[..i + 1]) == rs[i];
  }

  /** `teacherList`: walk every report's records, adding each non-empty name the first time it is met. */
  method TeacherList(rs: seq<Report>) returns (names: seq<string>)
    ensures names == Dedupe(AllNames(rs))
  {
    names := [];
    for i := 0 to |rs|
      invariant names == Dedupe(AllNames(rs[..i]))
    {
      var ts := rs[i].teachersData;
      ghost var seen := AllNames(rs[..i]);
      assert seen + NamesOf(ts[..0]) == seen;
      for j := 0 to |ts|
        invariant names == Dedupe(seen + NamesOf(ts[..j]))
      {
        var n := ts[j].teacherName;
        NamesOfStep(ts, j);
        if n != "" {
          assert seen + NamesOf(ts[..j + 1]) == seen + NamesOf(ts[..j]) + [n];
          DedupeSnoc(seen + NamesOf(ts[..j]), n);
          if n !in names {
            names := names + [n];
          }
        } else {
          assert NamesOf(ts[..j + 1]) == NamesOf(ts[..j]);
        }
      }
      AllNamesStep(rs, i);
      assert ts[..|ts|] == ts;
    }
    assert rs[..|rs|] == rs;
  }

  /** The offered names: every non-empty name of every report, each exactly once. */
  lemma TeacherListNames(rs: seq<Report>)
    ensures forall n :: n in Dedupe(AllNames(rs)) <==>
      n != "" && exists i, t :: 0 <= i < |rs| && t in rs[i].teachersData && t.teacherName == n
    ensures forall i, j :: 0 <= i < j < |Dedupe(AllNames(rs))| ==> Dedupe(AllNames(rs))[i] != Dedupe(AllNames(rs))[j]
  {
    DedupeMembers(AllNames(rs));
    DedupeDistinct(AllNames(rs));
  }
}
