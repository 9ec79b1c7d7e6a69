/**
 Which files of the results folder are MSCC tables, and which subject a file
 belongs to.
 */
module SubjectNames {

  /** `pat` occurs in `s` starting at index `i`. */
  predicate OccursAt(s: string, pat: string, i: nat)
  {
    i + |pat| <= |s| && s[i..i + |pat|] == pat
  }

  /** Python's substring test `pat in s`. */
  function Contains(s: string, pat: string): (b: bool)
    ensures b <==> exists i: nat :: OccursAt(s, pat, i)
    decreases |s|
  {
    if |s| < |pat| then
      false
    else if s[..|pat|] == pat then
      assert OccursAt(s, pat, 0);
      true
    else
      ShiftOccurrence(s, pat);
      Contains(s[1..], pat)
  }

  /** Occurrences in `s[1..]` are the occurrences in `s` past index 0. */
  lemma ShiftOccurrence(s: string, pat: string)
    requires |s| >= |pat| && s[..|pat|] != pat
    ensures (exists i: nat :: OccursAt(s, pat, i)) <==> (exists i: nat :: OccursAt(s[1..], pat, i))
  {
    forall i: nat | OccursAt(s, pat, i)
      ensures i > 0 && OccursAt(s[1..], pat, i - 1)
    {
      assert s[1..][i - 1..i - 1 + |pat|] == s[i..i + |pat|];
    }
    forall i: nat | OccursAt(s[1..], pat, i)
      ensures OccursAt(s, pat, i + 1)
    {
      assert s[1..][i..i + |pat|] == s[i + 1..i + 1 + |pat|];
    }
  }

  /** The marker that names an MSCC result file. */
  const MsccMarker: string := "_mscc"

  /** The file is an MSCC table: its name contains `_mscc`. */
  predicate IsMsccFile(name: string)
  {
    Contains(name, MsccMarker)
  }

  /**
   The subject ID of a file name: `name.split('_')[0]`, the text before the
   first `_`, or the whole name when it has none.
   */
  function SubjectId(name: string): (id: string)
    ensures id <= name
    ensures '_' !in id
    ensures |id| < |name| ==> name[|id|] == '_'
  {
    if name == [] || name[0] == '_' then [] else [name[0]] + SubjectId(name[1..])
  }

  /** Splitting `id + "_" + rest` gives back `id` whenever `id` has no `_`. */
  lemma {:induction false} SubjectIdOfJoined(id: string, rest: string)
    requires '_' !in id
    ensures SubjectId(id + "_" + rest) == id
  {
    if id != [] {
      assert (id + "_" + rest)[1..] == id[1..] + "_" + rest;
      SubjectIdOfJoined(id[1..], rest);
    }
  }

  /** An MSCC file name always has a `_`, so its subject ID is a proper prefix. */
  lemma MsccFileHasSeparator(name: string)
    requires IsMsccFile(name)
    ensures |SubjectId(name)| < |name|
  {
  }
}
