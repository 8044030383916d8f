/** The cleaning step: `dropna(subset=['Cited by', 'Title', 'Year'])`. */
module Cleaning {
  import opened Records
  import opened Sequences

  /** A row survives cleaning when none of the three subset columns is missing. */
  predicate Complete(r: Record)
  {
    r.citedBy.Some? && r.title.Some? && r.year.Some?
  }

  /** The table after cleaning. */
  function Cleaned(rows: seq<Record>): seq<Record>
  {
    Keep(rows, Complete)
  }

  /** Cleaning keeps exactly the rows with all three cells present, every copy of them, nothing
      else, and in their original order. */
  lemma CleanedSpec(rows: seq<Record>)
    ensures forall r :: r in Cleaned(rows) ==> r.citedBy.Some? && r.title.Some? && r.year.Some?
    ensures forall r :: multiset(Cleaned(rows))[r] == if Complete(r) then multiset(rows)[r] else 0
    ensures IsSubsequence(Cleaned(rows), rows)
  {
    forall r ensures multiset(Cleaned(rows))[r] == if Complete(r) then multiset(rows)[r] else 0 {
      KeepCount(rows, Complete, r);
    }
    KeepIsSubsequence(rows, Complete);
  }

  /** Appending one row to the input appends it to the output exactly when it is complete. */
  lemma CleanedSnoc(rows: seq<Record>, r: Record)
    ensures Cleaned(rows + [r]) == if Complete(r) then Cleaned(rows) + [r] else Cleaned(rows)
  {
  }
}
