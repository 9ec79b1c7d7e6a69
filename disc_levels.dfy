/**
 The table that turns an intervertebral disc label (`C2/C3` … `C6/C7`) into
 the integer compression level used in the per-subject MSCC tables.
 */
module DiscLevels {
  import opened MsccTypes

  /** The label table: the level of a cervical disc is the number of the vertebra below it. */
  const DiscLabels: map<string, int> :=
    map["C2/C3" := 3, "C3/C4" := 4, "C4/C5" := 5, "C5/C6" := 6, "C6/C7" := 7]

  /** The decimal digit for `d`. */
  function Digit(d: int): char
    requires 0 <= d <= 9
  {
    (d + '0' as int) as char
  }

  /** The label of the disc just above cervical vertebra `k`: `C<k-1>/C<k>`. */
  function DiscName(k: int): string
    requires 3 <= k <= 7
  {
    ['C', Digit(k - 1), '/', 'C', Digit(k)]
  }

  /**
   Looks a disc label up in the table. Exactly the five labels `C<k-1>/C<k>`
   with 3 <= k <= 7 are known, and each gives its `k`; any other label is a
   lookup failure.
   */
  function DiscLevel(disc: string): (r: Option<int>)
    ensures r.Some? <==> exists k :: 3 <= k <= 7 && disc == DiscName(k)
    ensures r.Some? ==> 3 <= r.value <= 7 && disc == DiscName(r.value)
  {
    assert DiscName(3) == "C2/C3" && DiscName(4) == "C3/C4" && DiscName(5) == "C4/C5";
    assert DiscName(6) == "C5/C6" && DiscName(7) == "C6/C7";
    if disc in DiscLabels then Some(DiscLabels[disc]) else None
  }

  /** Every level 3 … 7 has its label, and the label gives back the level. */
  lemma DiscLevelOfName(k: int)
    requires 3 <= k <= 7
    ensures DiscLevel(DiscName(k)) == Some(k)
  {
  }
}
