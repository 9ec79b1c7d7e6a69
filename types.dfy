/**
 The values exchanged by the MSCC result collection: one row of a per-subject
 MSCC table, one participant record, one output row, and the error kinds that
 abort a run.
 */
module MsccTypes {

  datatype Option<+T> = None | Some(value: T)

  /** Why collecting the results stops: the exception the script would raise. */
  datatype Error =
    | MissingParticipant(subject: string)  // no participant row for the subject (empty list indexed)
    | UnknownLabel(disc: string)           // the disc label is not a key of the label table
    | EmptyTable(file: string)             // the subject's table has no rows (argmin of nothing)
    | MjoaMismatch(subject: string)        // the mJOA values do not match the subject's result rows one to one

  datatype Result<+T> = Ok(value: T) | Err(error: Error)

  /**
   One row of a per-subject MSCC table: the `Compression Level` column and the
   `MSCC` and `Normalized MSCC` measures. The measures are floating-point in
   the script; here they are carried along and never computed on.
   */
  datatype Row = Row(level: int, mscc: real, msccNorm: real)

  /** One row of the participants table: `participant_id`, `max_compression_level`, `mjoa`. */
  datatype Participant = Participant(id: string, maxCompressionLevel: string, mjoa: real)

  /** One row of the collected results: `subject`, `level`, `MSCC`, `MSCC_norm`. */
  datatype MsccRow = MsccRow(subject: string, level: int, mscc: real, msccNorm: real)

  /** The four result columns, as the script writes them into its data frame. */
  datatype MsccColumns = MsccColumns(subject: seq<string>, level: seq<int>, mscc: seq<real>, msccNorm: seq<real>)

  /** The four columns have one entry per output row. */
  predicate Aligned(c: MsccColumns)
  {
    |c.level| == |c.subject| && |c.mscc| == |c.subject| && |c.msccNorm| == |c.subject|
  }

  /**
   The index of the first element of `s` that satisfies `p`, as pandas finds
   it with `index[mask].tolist()[0]` over a default row index; None when no
   element does.
   */
  function FirstIndex<T>(s: seq<T>, p: T -> bool): (r: Option<nat>)
    ensures r.None? <==> forall i :: 0 <= i < |s| ==> !p(s[i])
    ensures r.Some? ==> r.value < |s| && p(s[r.value])
    ensures r.Some? ==> forall j :: 0 <= j < r.value ==> !p(s[j])
  {
    if s == [] then None
    else if p(s[0]) then Some(0)
    else
      match FirstIndex(s[1..], p)
      case None => None
      case Some(i) => Some(i + 1)
  }

  /** The output row taken from table row `t` of subject `id`: every field is copied. */
  function CopyRow(id: string, t: Row): MsccRow
  {
    MsccRow(id, t.level, t.mscc, t.msccNorm)
  }
}
