/**
 `read_MSCC`: walk the results folder in listing order and, for every MSCC
 table of a subject that is not excluded, report one row — the subject, the
 compression level chosen for it, and that row's MSCC and normalised MSCC.
 Reading a table from disk is the parameter `read`; the participants table is
 a sequence of records.
 */
module MsccResults {
  import opened MsccTypes
  import opened SubjectNames
  import opened DiscLevels
  import opened LevelSelection

  /** The first participant row whose `participant_id` is `id`, as an index. */
  function FindParticipant(participants: seq<Participant>, id: string): (r: Option<nat>)
    ensures r.None? <==> forall i :: 0 <= i < |participants| ==> participants[i].id != id
    ensures r.Some? ==> r.value < |participants| && participants[r.value].id == id
    ensures r.Some? ==> forall j :: 0 <= j < r.value ==> participants[j].id != id
  {
    FirstIndex(participants, (p: Participant) => p.id == id)
  }

  /**
   The target level of subject `id`: the `max_compression_level` label of its
   first participant row, through the label table. Fails when the subject has
   no participant row or the label is not in the table.
   */
  function TargetLevel(participants: seq<Participant>, id: string): (r: Result<int>)
    ensures FindParticipant(participants, id).None? ==> r == Err(MissingParticipant(id))
    ensures FindParticipant(participants, id).Some? ==>
              var disc := participants[FindParticipant(participants, id).value].maxCompressionLevel;
              && (r.Ok? <==> exists k :: 3 <= k <= 7 && disc == DiscName(k))
              && (r.Ok? ==> 3 <= r.value <= 7 && disc == DiscName(r.value))
              && (r.Err? ==> r == Err(UnknownLabel(disc)))
  {
    match FindParticipant(participants, id)
    case None => Err(MissingParticipant(id))
    case Some(p) =>
      var disc := participants[p].maxCompressionLevel;
      match DiscLevel(disc)
      case None => Err(UnknownLabel(disc))
      case Some(k) => Ok(k)
  }

  /** The file is one `read_MSCC` reports on: an MSCC table of a subject not excluded. */
  predicate Keeps(name: string, exclude: set<string>)
  {
    IsMsccFile(name) && SubjectId(name) !in exclude
  }

  /**
   What one entry of the folder listing contributes: nothing (Ok(None)) when it
   is not kept, otherwise exactly one row or the error that aborts the run.
   */
  function ProcessFile(name: string, read: string -> seq<Row>, exclude: set<string>,
                       participants: seq<Participant>): (r: Result<Option<MsccRow>>)
    ensures r == Ok(None) <==> !Keeps(name, exclude)
  {
    if !IsMsccFile(name) then Ok(None)
    else
      var id := SubjectId(name);
      if id in exclude then Ok(None)
      else
        match TargetLevel(participants, id)
        case Err(e) => Err(e)
        case Ok(t) =>
          var table := read(name);
          match SelectRow(table, t)
          case None => Err(EmptyTable(name))
          case Some(i) => Ok(Some(CopyRow(id, table[i])))
  }

  /**
   A kept entry fails when its subject has no participant row or an unknown
   label, or when its table is empty; otherwise its row is the first row of
   its table nearest the subject's target level, copied field by field.
   */
  lemma ProcessFileOutcome(name: string, read: string -> seq<Row>, exclude: set<string>,
                           participants: seq<Participant>)
    requires Keeps(name, exclude)
    ensures var r := ProcessFile(name, read, exclude, participants);
            match TargetLevel(participants, SubjectId(name))
            case Err(e) => r == Err(e)
            case Ok(t) =>
              if |read(name)| == 0 then r == Err(EmptyTable(name))
              else exists i :: IsFirstNearest(read(name), t, i) &&
                               r == Ok(Some(CopyRow(SubjectId(name), read(name)[i])))
  {
    match TargetLevel(participants, SubjectId(name))
    case Err(e) =>
    case Ok(t) =>
      if |read(name)| > 0 {
        var i := SelectRow(read(name), t).value;
        assert IsFirstNearest(read(name), t, i);
      }
  }

  /** The kept entries of the listing, in listing order. */
  function Kept(files: seq<string>, exclude: set<string>): (r: seq<string>)
    ensures |r| <= |files|
    ensures forall f :: f in r <==> f in files && Keeps(f, exclude)
  {
    if files == [] then []
    else
      var init, last := files[..|files| - 1], files[|files| - 1];
      assert files == init + [last];
      if Keeps(last, exclude) then Kept(init, exclude) + [last] else Kept(init, exclude)
  }

  /**
   The result of `read_MSCC` over the listing `files`: the rows in listing
   order, or the error of the first entry that fails.
   */
  function ReadMsccSpec(files: seq<string>, read: string -> seq<Row>, exclude: set<string>,
                        participants: seq<Participant>): Result<seq<MsccRow>>
  {
    if files == [] then Ok([])
    else
      match ReadMsccSpec(files[..|files| - 1], read, exclude, participants)
      case Err(e) => Err(e)
      case Ok(rows) =>
        match ProcessFile(files[|files| - 1], read, exclude, participants)
        case Err(e) => Err(e)
        case Ok(None) => Ok(rows)
        case Ok(Some(row)) => Ok(rows + [row])
  }

  /**
   On success there is exactly one row per kept entry, in listing order, and
   row i is what the i-th kept entry contributes.
   */
  lemma {:induction false} ReadMsccRows(files: seq<string>, read: string -> seq<Row>, exclude: set<string>,
                                        participants: seq<Participant>)
    requires ReadMsccSpec(files, read, exclude, participants).Ok?
    ensures var rows := ReadMsccSpec(files, read, exclude, participants).value;
            var kept := Kept(files, exclude);
            && |rows| == |kept|
            && forall i :: 0 <= i < |rows| ==> ProcessFile(kept[i], read, exclude, participants) == Ok(Some(rows[i]))
  {
    if files != [] {
      var init, last := files[..|files| - 1], files[|files| - 1];
      ReadMsccRows(init, read, exclude, participants);
    }
  }

  /** Entry `i` of `names` is the first whose processing fails. */
  predicate FirstFailure(names: seq<string>, i: int, read: string -> seq<Row>, exclude: set<string>,
                         participants: seq<Participant>)
  {
    && 0 <= i < |names|
    && ProcessFile(names[i], read, exclude, participants).Err?
    && forall j :: 0 <= j < i ==> ProcessFile(names[j], read, exclude, participants).Ok?
  }

  /** Some entry of `names` fails. */
  ghost predicate SomeFailure(names: seq<string>, read: string -> seq<Row>, exclude: set<string>,
                        participants: seq<Participant>)
  {
    exists i :: 0 <= i < |names| && ProcessFile(names[i], read, exclude, participants).Err?
  }

  /** The run over `files` fails exactly as its kept entries dictate. */
  ghost predicate FailsAsKept(files: seq<string>, read: string -> seq<Row>, exclude: set<string>,
                        participants: seq<Participant>)
  {
    var kept, spec := Kept(files, exclude), ReadMsccSpec(files, read, exclude, participants);
    && (spec.Err? <==> SomeFailure(kept, read, exclude, participants))
    && (forall i :: FirstFailure(kept, i, read, exclude, participants) ==>
          spec == Err(ProcessFile(kept[i], read, exclude, participants).error))
  }

  /**
   The run fails exactly when some kept entry fails, and then with the error
   of the first such entry.
   */
  lemma {:induction false} ReadMsccFails(files: seq<string>, read: string -> seq<Row>, exclude: set<string>,
                                         participants: seq<Participant>)
    ensures ReadMsccSpec(files, read, exclude, participants).Err? <==>
              SomeFailure(Kept(files, exclude), read, exclude, participants)
    ensures forall i :: FirstFailure(Kept(files, exclude), i, read, exclude, participants) ==>
              ReadMsccSpec(files, read, exclude, participants) ==
                Err(ProcessFile(Kept(files, exclude)[i], read, exclude, participants).error)
  {
    ReadMsccFailsAsKept(files, read, exclude, participants);
  }

  lemma {:induction false} ReadMsccFailsAsKept(files: seq<string>, read: string -> seq<Row>, exclude: set<string>,
                                               participants: seq<Participant>)
    ensures FailsAsKept(files, read, exclude, participants)
  {
    if files == [] {
      assert Kept(files, exclude) == [];
    } else {
      var init := files[..|files| - 1];
      ReadMsccFailsAsKept(init, read, exclude, participants);
      if ReadMsccSpec(init, read, exclude, participants).Err? {
        FailsStepAfterErr(files, read, exclude, participants);
      } else {
        FailsStepAfterOk(files, read, exclude, participants);
      }
    }
  }

  /** The entries kept from `files` are those kept from all but its last entry, then the last one if kept. */
  lemma KeptStep(files: seq<string>, exclude: set<string>)
    requires files != []
    ensures var keptInit, last := Kept(files[..|files| - 1], exclude), files[|files| - 1];
            Kept(files, exclude) == if Keeps(last, exclude) then keptInit + [last] else keptInit
  {
  }

  lemma FailsStepAfterErr(files: seq<string>, read: string -> seq<Row>, exclude: set<string>,
                          participants: seq<Participant>)
    requires files != []
    requires FailsAsKept(files[..|files| - 1], read, exclude, participants)
    requires ReadMsccSpec(files[..|files| - 1], read, exclude, participants).Err?
    ensures FailsAsKept(files, read, exclude, participants)
  {
    var init := files[..|files| - 1];
    KeptStep(files, exclude);
    var kept, keptInit := Kept(files, exclude), Kept(init, exclude);
    var spec := ReadMsccSpec(files, read, exclude, participants);
    assert spec == ReadMsccSpec(init, read, exclude, participants);
    assert forall i :: 0 <= i < |keptInit| ==> kept[i] == keptInit[i];
    var i :| 0 <= i < |keptInit| && ProcessFile(keptInit[i], read, exclude, participants).Err?;
    assert ProcessFile(kept[i], read, exclude, participants).Err?;
    FirstFailureExists(keptInit, i, read, exclude, participants);
    var first :| FirstFailure(keptInit, first, read, exclude, participants);
    assert FirstFailure(kept, first, read, exclude, participants);
    forall k | FirstFailure(kept, k, read, exclude, participants)
      ensures spec == Err(ProcessFile(kept[k], read, exclude, participants).error)
    {
      FirstFailureUnique(kept, k, first, read, exclude, participants);
    }
  }

  lemma FailsStepAfterOk(files: seq<string>, read: string -> seq<Row>, exclude: set<string>,
                         participants: seq<Participant>)
    requires files != []
    requires FailsAsKept(files[..|files| - 1], read, exclude, participants)
    requires ReadMsccSpec(files[..|files| - 1], read, exclude, participants).Ok?
    ensures FailsAsKept(files, read, exclude, participants)
  {
  }

  /** Any failing entry has a first failing entry at or before it. */
  lemma {:induction false} FirstFailureExists(names: seq<string>, i: int, read: string -> seq<Row>,
                                              exclude: set<string>, participants: seq<Participant>)
    requires 0 <= i < |names| && ProcessFile(names[i], read, exclude, participants).Err?
    ensures exists k :: k <= i && FirstFailure(names, k, read, exclude, participants)
    decreases i
  {
    if !FirstFailure(names, i, read, exclude, participants) {
      var j :| 0 <= j < i && !ProcessFile(names[j], read, exclude, participants).Ok?;
      FirstFailureExists(names, j, read, exclude, participants);
    }
  }

  /** There is only one first failing entry. */
  lemma FirstFailureUnique(names: seq<string>, i: int, k: int, read: string -> seq<Row>,
                           exclude: set<string>, participants: seq<Participant>)
    requires FirstFailure(names, i, read, exclude, participants)
    requires FirstFailure(names, k, read, exclude, participants)
    ensures i == k
  {
  }

  /**
   Every reported row is of a subject that is not excluded and that has a
   participant row; it comes from a file of that subject whose name has a `_`
   right after the subject ID, and it copies one row of that file's table.
   */
  lemma ReadMsccRowFacts(files: seq<string>, read: string -> seq<Row>, exclude: set<string>,
                         participants: seq<Participant>)
    requires ReadMsccSpec(files, read, exclude, participants).Ok?
    ensures var rows := ReadMsccSpec(files, read, exclude, participants).value;
            forall i :: 0 <= i < |rows| ==>
              && rows[i].subject !in exclude
              && FindParticipant(participants, rows[i].subject).Some?
              && exists f :: f in files && IsMsccFile(f) && SubjectId(f) == rows[i].subject &&
                   |rows[i].subject| < |f| && f[|rows[i].subject|] == '_' &&
                   exists k :: 0 <= k < |read(f)| && CopyRow(rows[i].subject, read(f)[k]) == rows[i]
  {
    var rows := ReadMsccSpec(files, read, exclude, participants).value;
    var kept := Kept(files, exclude);
    ReadMsccRows(files, read, exclude, participants);
    forall i | 0 <= i < |rows|
      ensures exists f :: f in files && IsMsccFile(f) && SubjectId(f) == rows[i].subject &&
                |rows[i].subject| < |f| && f[|rows[i].subject|] == '_' &&
                exists k :: 0 <= k < |read(f)| && CopyRow(rows[i].subject, read(f)[k]) == rows[i]
    {
      var f := kept[i];
      assert f in kept;
      MsccFileHasSeparator(f);
      ProcessFileOutcome(f, read, exclude, participants);
    }
  }

  /** The four columns of a list of output rows, entry i of each from row i. */
  function Columns(rows: seq<MsccRow>): (c: MsccColumns)
    ensures Aligned(c) && |c.subject| == |rows|
    ensures forall i :: 0 <= i < |rows| ==>
              && c.subject[i] == rows[i].subject && c.level[i] == rows[i].level
              && c.mscc[i] == rows[i].mscc && c.msccNorm[i] == rows[i].msccNorm
  {
    MsccColumns(seq(|rows|, i requires 0 <= i < |rows| => rows[i].subject),
                seq(|rows|, i requires 0 <= i < |rows| => rows[i].level),
                seq(|rows|, i requires 0 <= i < |rows| => rows[i].mscc),
                seq(|rows|, i requires 0 <= i < |rows| => rows[i].msccNorm))
  }

  /** Once a prefix of the listing fails, the whole run fails with that error. */
  lemma {:induction false} ReadMsccPrefixErr(files: seq<string>, n: nat, read: string -> seq<Row>,
                                             exclude: set<string>, participants: seq<Participant>)
    requires n <= |files|
    requires ReadMsccSpec(files[..n], read, exclude, participants).Err?
    ensures ReadMsccSpec(files, read, exclude, participants) == ReadMsccSpec(files[..n], read, exclude, participants)
    decreases |files| - n
  {
    if n < |files| {
      var init := files[..|files| - 1];
      assert init[..n] == files[..n];
      ReadMsccPrefixErr(init, n, read, exclude, participants);
    } else {
      assert files[..n] == files;
    }
  }

  /**
   `read_MSCC` as the script runs it: one pass over the listing, appending to
   the four column lists, stopping at the first failure.
   */
  method ReadMscc(files: seq<string>, read: string -> seq<Row>, exclude: set<string>,
                  participants: seq<Participant>) returns (r: Result<MsccColumns>)
    ensures match ReadMsccSpec(files, read, exclude, participants)
            case Ok(rows) => r == Ok(Columns(rows))
            case Err(e) => r == Err(e)
  {
    var subject: seq<string> := [];
    var level: seq<int> := [];
    var mscc: seq<real> := [];
    var msccNorm: seq<real> := [];
    for n := 0 to |files|
      invariant ReadMsccSpec(files[..n], read, exclude, participants).Ok?
      invariant Columns(ReadMsccSpec(files[..n], read, exclude, participants).value) ==
                MsccColumns(subject, level, mscc, msccNorm)
    {
      assert files[..n + 1][..n] == files[..n];
      var name := files[n];
      if IsMsccFile(name) {
        var id := SubjectId(name);
        if id !in exclude {
          var table := read(name);
          var target := TargetLevel(participants, id);
          if target.Err? {
            ReadMsccPrefixErr(files, n + 1, read, exclude, participants);
            return Err(target.error);
          }
          var sel := SelectRow(table, target.value);
          if sel.None? {
            ReadMsccPrefixErr(files, n + 1, read, exclude, participants);
            return Err(EmptyTable(name));
          }
          var row := table[sel.value];
          ghost var rows := ReadMsccSpec(files[..n], read, exclude, participants).value;
          ColumnsSnoc(rows, CopyRow(id, row));
          subject := subject + [id];
          level := level + [row.level];
          mscc := mscc + [row.mscc];
          msccNorm := msccNorm + [row.msccNorm];
        }
      }
    }
    assert files[..|files|] == files;
    r := Ok(MsccColumns(subject, level, mscc, msccNorm));
  }

  /** Appending a row appends one entry to each column. */
  lemma ColumnsSnoc(rows: seq<MsccRow>, row: MsccRow)
    ensures var c := Columns(rows);
            Columns(rows + [row]) ==
              MsccColumns(c.subject + [row.subject], c.level + [row.level], c.mscc + [row.mscc], c.msccNorm + [row.msccNorm])
  {
  }
}
