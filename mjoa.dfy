/**
 `add_mJOA_to_df`: the results data frame, and the step that fills its `mJOA`
 column in place from the participants table.
 */
module MjoaJoin {
  import opened MsccTypes
  import opened MsccResults
  import opened SubjectNames
  import opened DiscLevels
  import opened LevelSelection

  /** The `mjoa` of the subject's first participant row; None when it has none. */
  function MjoaOf(participants: seq<Participant>, id: string): (r: Option<real>)
    ensures r.Some? <==> exists i :: 0 <= i < |participants| && participants[i].id == id
    ensures r.Some? ==> exists i :: 0 <= i < |participants| && participants[i].id == id &&
                          r.value == participants[i].mjoa &&
                          forall j :: 0 <= j < i ==> participants[j].id != id
  {
    match FindParticipant(participants, id)
    case None => None
    case Some(i) => Some(participants[i].mjoa)
  }

  /** How many entries of `ss` are `s`: the number of rows the mask `subject == s` selects. */
  function Occurrences(ss: seq<string>, s: string): (c: nat)
    ensures c <= |ss|
    ensures c == 0 <==> s !in ss
  {
    if ss == [] then 0
    else Occurrences(ss[..|ss| - 1], s) + (if ss[|ss| - 1] == s then 1 else 0)
  }

  /** A subject occurs exactly once exactly when no other entry has the same subject. */
  lemma {:induction false} OccurrencesOne(ss: seq<string>, n: int)
    requires 0 <= n < |ss|
    ensures Occurrences(ss, ss[n]) == 1 <==> forall k :: 0 <= k < |ss| && ss[k] == ss[n] ==> k == n
  {
    var init, last := ss[..|ss| - 1], ss[|ss| - 1];
    if n == |ss| - 1 {
      assert Occurrences(init, last) == 0 <==> forall k :: 0 <= k < |init| ==> init[k] != last;
    } else {
      OccurrencesOne(init, n);
      assert forall k :: 0 <= k < |init| ==> init[k] == ss[k];
      if last == ss[n] {
        assert ss[n] in init;
      }
    }
  }

  /**
   The assignment for subject `s` goes through: the subject has a participant
   row and is on exactly one result row, so the one-element value list matches
   the one selected row. Otherwise pandas raises on the length mismatch.
   */
  predicate Joinable(participants: seq<Participant>, subjects: seq<string>, s: string)
  {
    MjoaOf(participants, s).Some? && Occurrences(subjects, s) == 1
  }

  /** The mJOA column after the assignment for subject `s`: rows of `s` get `v`, the others keep theirs. */
  function SetForSubject(col: seq<Option<real>>, subjects: seq<string>, s: string, v: Option<real>): (r: seq<Option<real>>)
    requires |col| == |subjects|
    ensures |r| == |col|
    ensures forall k :: 0 <= k < |r| ==> r[k] == if subjects[k] == s then v else col[k]
  {
    seq(|col|, k requires 0 <= k < |col| => if subjects[k] == s then v else col[k])
  }

  /**
   The mJOA column `col` after the assignments for the first `n` subjects:
   rows of those subjects hold their `mjoa`, the others keep `orig`.
   */
  ghost predicate FilledUpTo(col: seq<Option<real>>, orig: seq<Option<real>>, subjects: seq<string>, n: int,
                             participants: seq<Participant>)
    requires 0 <= n <= |subjects|
  {
    && |col| == |subjects| && |orig| == |subjects|
    && forall k :: 0 <= k < |subjects| ==>
         col[k] == if subjects[k] in subjects[..n] then MjoaOf(participants, subjects[k]) else orig[k]
  }

  /** One more assignment extends the filled prefix by one subject. */
  lemma FilledStep(col: seq<Option<real>>, orig: seq<Option<real>>, subjects: seq<string>, n: int,
                   participants: seq<Participant>)
    requires 0 <= n < |subjects|
    requires FilledUpTo(col, orig, subjects, n, participants)
    ensures FilledUpTo(SetForSubject(col, subjects, subjects[n], MjoaOf(participants, subjects[n])),
                       orig, subjects, n + 1, participants)
  {
    assert subjects[..n + 1] == subjects[..n] + [subjects[n]];
  }

  /** No subject is on two rows. */
  predicate DistinctSubjects(rows: seq<MsccRow>)
  {
    forall i, j :: 0 <= i < j < |rows| ==> rows[i].subject != rows[j].subject
  }

  /**
   The results data frame: one entry per row in each column. `mjoa[k]` is
   None while row k has no mJOA value (the column is absent, or NaN).
   */
  class MsccFrame {
    var subject: seq<string>
    var level: seq<int>
    var mscc: seq<real>
    var msccNorm: seq<real>
    var mjoa: seq<Option<real>>

    /** Every column has one entry per row. */
    ghost predicate Valid()
      reads this
    {
      && |level| == |subject|
      && |mscc| == |subject|
      && |msccNorm| == |subject|
      && |mjoa| == |subject|
    }

    /** The frame `read_MSCC` returns: its four columns, and no mJOA yet. */
    constructor (cols: MsccColumns)
      requires Aligned(cols)
      ensures Valid()
      ensures subject == cols.subject && level == cols.level
      ensures mscc == cols.mscc && msccNorm == cols.msccNorm
      ensures forall k :: 0 <= k < |mjoa| ==> mjoa[k].None?
    {
      subject := cols.subject;
      level := cols.level;
      mscc := cols.mscc;
      msccNorm := cols.msccNorm;
      mjoa := seq(|cols.subject|, _ => None);
    }

    /**
     For each subject in turn, sets `mJOA` on the rows of that subject to the
     subject's `mjoa` in the participants table. Stops at the first subject
     whose assignment fails (no participant row, or several result rows) and
     returns it; the rows of the subjects before it are already updated. No
     other column changes, nor the row count.
     */
    method AddMjoa(participants: seq<Participant>) returns (failed: Option<string>)
      requires Valid()
      modifies this
      ensures Valid()
      ensures subject == old(subject) && level == old(level)
      ensures mscc == old(mscc) && msccNorm == old(msccNorm)
      ensures failed.None? <==> forall k :: 0 <= k < |subject| ==> Joinable(participants, subject, subject[k])
      ensures failed.None? ==> forall k :: 0 <= k < |subject| ==> mjoa[k] == MjoaOf(participants, subject[k])
      ensures failed.Some? ==>
                exists n :: 0 <= n < |subject| && failed.value == subject[n] &&
                  !Joinable(participants, subject, subject[n]) &&
                  (forall j :: 0 <= j < n ==> Joinable(participants, subject, subject[j])) &&
                  forall k :: 0 <= k < |subject| ==>
                    mjoa[k] == if subject[k] in subject[..n] then MjoaOf(participants, subject[k]) else old(mjoa)[k]
    {
      var subjects := subject;
      var n := 0;
      while n < |subjects|
        invariant 0 <= n <= |subjects|
        invariant Valid()
        invariant subject == subjects == old(subject) && level == old(level)
        invariant mscc == old(mscc) && msccNorm == old(msccNorm)
        invariant forall j :: 0 <= j < n ==> Joinable(participants, subjects, subjects[j])
        invariant FilledUpTo(mjoa, old(mjoa), subjects, n, participants)
      {
        var s := subjects[n];
        var m := MjoaOf(participants, s);
        if m.None? || Occurrences(subjects, s) != 1 {
          return Some(s);
        }
        FilledStep(mjoa, old(mjoa), subjects, n, participants);
        mjoa := SetForSubject(mjoa, subjects, s, m);
        n := n + 1;
      }
      assert subjects[..n] == subjects;
      failed := None;
    }
  }

  /**
   `read_MSCC` followed by `add_mJOA_to_df`. After a successful read every
   reported subject has a participant row, so the join succeeds exactly when
   no subject is reported twice; then every row has the mJOA of its subject.
   */
  method CollectResults(files: seq<string>, read: string -> seq<Row>, exclude: set<string>,
                        participants: seq<Participant>) returns (r: Result<MsccFrame>)
    ensures ReadMsccSpec(files, read, exclude, participants).Err? ==>
              r == Err(ReadMsccSpec(files, read, exclude, participants).error)
    ensures ReadMsccSpec(files, read, exclude, participants).Ok? ==>
              var rows := ReadMsccSpec(files, read, exclude, participants).value;
              && (r.Ok? <==> DistinctSubjects(rows))
              && (r.Err? ==> exists i :: 0 <= i < |rows| && r.error == MjoaMismatch(rows[i].subject))
    ensures r.Ok? ==>
              var rows := ReadMsccSpec(files, read, exclude, participants).value;
              && fresh(r.value) && r.value.Valid()
              && Columns(rows) == MsccColumns(r.value.subject, r.value.level, r.value.mscc, r.value.msccNorm)
              && forall k :: 0 <= k < |rows| ==> r.value.mjoa[k] == MjoaOf(participants, rows[k].subject)
  {
    var cols := ReadMscc(files, read, exclude, participants);
    if cols.Err? {
      return Err(cols.error);
    }
    ghost var rows := ReadMsccSpec(files, read, exclude, participants).value;
    var frame := new MsccFrame(cols.value);
    ReadMsccRowFacts(files, read, exclude, participants);
    JoinableIffDistinct(rows, participants);
    var failed := frame.AddMjoa(participants);
    if failed.Some? {
      return Err(MjoaMismatch(failed.value));
    }
    r := Ok(frame);
  }

  /**
   When every reported subject has a participant row, every row's assignment
   goes through exactly when the subjects are distinct.
   */
  lemma JoinableIffDistinct(rows: seq<MsccRow>, participants: seq<Participant>)
    requires forall i :: 0 <= i < |rows| ==> FindParticipant(participants, rows[i].subject).Some?
    ensures var subjects := Columns(rows).subject;
            (forall k :: 0 <= k < |subjects| ==> Joinable(participants, subjects, subjects[k])) <==>
              DistinctSubjects(rows)
  {
    var subjects := Columns(rows).subject;
    forall k | 0 <= k < |subjects|
      ensures MjoaOf(participants, subjects[k]).Some?
      ensures Occurrences(subjects, subjects[k]) == 1 <==>
                forall j :: 0 <= j < |subjects| && subjects[j] == subjects[k] ==> j == k
    {
      OccurrencesOne(subjects, k);
    }
    if DistinctSubjects(rows) {
      forall k | 0 <= k < |subjects|
        ensures Joinable(participants, subjects, subjects[k])
      {
        forall j | 0 <= j < |subjects| && subjects[j] == subjects[k]
          ensures j == k
        {
          assert rows[j].subject == rows[k].subject;
          assert !(j < k) && !(k < j);
        }
      }
    } else {
      var i, j :| 0 <= i < j < |rows| && rows[i].subject == rows[j].subject;
      assert subjects[i] == subjects[j];
      assert !Joinable(participants, subjects, subjects[i]);
    }
  }

  /**
   Two `_mscc` files of subject `s` give two rows of `s`. The read succeeds,
   but the subjects are not distinct, so the join fails.
   */
  lemma TwoFilesOfOneSubject()
    ensures var files := ["s_mscc", "s_mscc_b"];
            var read := (name: string) => [Row(4, 1.0, 2.0)];
            var participants := [Participant("s", "C3/C4", 15.0)];
            var spec := ReadMsccSpec(files, read, {}, participants);
            spec.Ok? && |spec.value| == 2 && !DistinctSubjects(spec.value)
  {
    var files := ["s_mscc", "s_mscc_b"];
    var read := (name: string) => [Row(4, 1.0, 2.0)];
    var participants := [Participant("s", "C3/C4", 15.0)];
    assert OccursAt(files[0], MsccMarker, 1);
    assert OccursAt(files[1], MsccMarker, 1);
    assert SubjectId(files[0]) == "s" && SubjectId(files[1]) == "s";
    assert DiscName(4) == "C3/C4";
    assert TargetLevel(participants, "s") == Ok(4);
    var row := MsccRow("s", 4, 1.0, 2.0);
    assert SelectRow(read(files[0]), 4) == Some(0);
    assert ProcessFile(files[0], read, {}, participants) == Ok(Some(row));
    assert ProcessFile(files[1], read, {}, participants) == Ok(Some(row));
    var first := files[..1];
    assert first[..|first| - 1] == [] && first[|first| - 1] == files[0];
    assert ReadMsccSpec([], read, {}, participants) == Ok([]);
    assert [] + [row] == [row] && [row] + [row] == [row, row];
    assert files[..|files| - 1] == first && files[|files| - 1] == files[1];
    assert ReadMsccSpec(files[..1], read, {}, participants) == Ok([row]);
    var spec := ReadMsccSpec(files, read, {}, participants);
    assert spec == Ok([row, row]);
    assert spec.value[0].subject == spec.value[1].subject;
  }
}
