/** The data frame `scopus_df`, which the script changes in place: first `dropna(...,
    inplace=True)`, then one `replace(..., inplace=True)` per thesaurus row. */
module ScopusData {
  import opened Records
  import opened Cleaning
  import opened Thesaurus

  class ScopusTable {
    var rows: seq<Record>

    /** The table as loaded from the export. */
    constructor (loaded: seq<Record>)
      ensures rows == loaded
    {
      rows := loaded;
    }

    /** Drops, in place, every row whose citation count, title or year is missing. */
    method DropIncomplete()
      modifies this
      ensures rows == Cleaned(old(rows))
    {
      var loaded, kept := rows, [];
      var i := 0;
      while i < |loaded|
        invariant 0 <= i <= |loaded|
        invariant kept == Cleaned(loaded[..i])
      {
        assert loaded[..i + 1] == loaded[..i] + [loaded[i]];
        CleanedSnoc(loaded[..i], loaded[i]);
        if Complete(loaded[i]) {
          kept := kept + [loaded[i]];
        }
        i := i + 1;
      }
      assert loaded[..i] == loaded;
      rows := kept;
    }

    /** One thesaurus row applied to the whole table in place. */
    method Replace(rule: Rule)
      modifies this
      ensures rows == ReplaceInTable(old(rows), rule)
    {
      rows := ReplaceInTable(rows, rule);
    }

    /** The thesaurus applied row by row, in spreadsheet order. The row count, the citation
        counts and the years are unchanged, and each text cell is the thesaurus applied to the
        old cell. */
    method ApplyThesaurus(rules: seq<Rule>)
      modifies this
      ensures rows == ApplyRules(old(rows), rules)
      ensures |rows| == |old(rows)|
      ensures forall i :: 0 <= i < |rows| ==> rows[i].year == old(rows)[i].year && rows[i].citedBy == old(rows)[i].citedBy
      ensures forall i, col :: 0 <= i < |rows| ==> Field(rows[i], col) == ApplyRulesToValue(Field(old(rows)[i], col), rules)
    {
      ghost var loaded := rows;
      for k := 0 to |rules|
        invariant rows == ApplyRules(loaded, rules[..k])
      {
        assert rules[..k + 1][..k] == rules[..k];
        Replace(rules[k]);
      }
      assert rules[..|rules|] == rules;
      ApplyRulesCellwise(loaded, rules);
    }
  }
}
