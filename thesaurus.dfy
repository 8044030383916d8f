/** The thesaurus step: for each row of `thesaurus.xlsx`, `replace(to_replace=Label,
    value=Replace by)` over the whole table. */
module Thesaurus {
  import opened Wrappers
  import opened Records
  import opened Cleaning

  /** One thesaurus row. A blank spreadsheet cell is read as NaN, so either side may be `None`:
      a `None` label matches missing cells and a `None` replacement blanks the cell. */
  datatype Rule = Rule(labelValue: Option<string>, replaceBy: Option<string>)

  /** Whole-value replacement of one cell (not a substring replacement). */
  function ReplaceValue(v: Option<string>, rule: Rule): Option<string>
  {
    if v == rule.labelValue then rule.replaceBy else v
  }

  function ReplaceInRecord(r: Record, rule: Rule): Record
  {
    r.(title := ReplaceValue(r.title, rule),
       abstractText := ReplaceValue(r.abstractText, rule),
       authorKeywords := ReplaceValue(r.authorKeywords, rule))
  }

  /** One rule applied to the whole table: a cell changes only when it equals the label, and
      then it becomes the replacement; the numeric columns and the row count are untouched. */
  function ReplaceInTable(rows: seq<Record>, rule: Rule): (out: seq<Record>)
    ensures |out| == |rows|
    ensures forall i :: 0 <= i < |rows| ==> out[i].year == rows[i].year && out[i].citedBy == rows[i].citedBy
    ensures forall i, col :: 0 <= i < |rows| && Field(rows[i], col) == rule.labelValue ==>
              Field(out[i], col) == rule.replaceBy
    ensures forall i, col :: 0 <= i < |rows| && Field(rows[i], col) != rule.labelValue ==>
              Field(out[i], col) == Field(rows[i], col)
  {
    seq(|rows|, i requires 0 <= i < |rows| => ReplaceInRecord(rows[i], rule))
  }

  /** The whole thesaurus applied in row order; a later rule sees the earlier rules' output. */
  function ApplyRules(rows: seq<Record>, rules: seq<Rule>): (out: seq<Record>)
    ensures |out| == |rows|
  {
    if rules == [] then rows
    else ReplaceInTable(ApplyRules(rows, rules[..|rules| - 1]), rules[|rules| - 1])
  }

  /** The thesaurus applied to one cell value. */
  function ApplyRulesToValue(v: Option<string>, rules: seq<Rule>): Option<string>
  {
    if rules == [] then v
    else ReplaceValue(ApplyRulesToValue(v, rules[..|rules| - 1]), rules[|rules| - 1])
  }

  /** Applying the thesaurus to the table is applying it to every text cell on its own; the
      row count and the numeric columns are unchanged. */
  lemma {:induction false} ApplyRulesCellwise(rows: seq<Record>, rules: seq<Rule>)
    ensures |ApplyRules(rows, rules)| == |rows|
    ensures forall i :: 0 <= i < |rows| ==>
              ApplyRules(rows, rules)[i].year == rows[i].year &&
              ApplyRules(rows, rules)[i].citedBy == rows[i].citedBy
    ensures forall i, col :: 0 <= i < |rows| ==>
              Field(ApplyRules(rows, rules)[i], col) == ApplyRulesToValue(Field(rows[i], col), rules)
  {
    if rules != [] {
      ApplyRulesCellwise(rows, rules[..|rules| - 1]);
    }
  }

  /** A two-row thesaurus applies its first row, then its second. */
  lemma TwoRules(v: Option<string>, first: Rule, second: Rule)
    ensures ApplyRulesToValue(v, [first, second]) == ReplaceValue(ReplaceValue(v, first), second)
  {
    assert [first, second][..1] == [first];
    assert [first][..0] == [];
    assert ApplyRulesToValue(v, [first]) == ReplaceValue(ApplyRulesToValue(v, []), first);
  }

  /** Rules act in thesaurus order: with [A -> B, B -> C] a cell equal to A ends as C. */
  lemma ChainedRules(rows: seq<Record>, i: nat, col: TextColumn, a: Option<string>, b: Option<string>, c: Option<string>)
    requires i < |rows| && Field(rows[i], col) == a
    ensures Field(ApplyRules(rows, [Rule(a, b), Rule(b, c)])[i], col) == c
  {
    ApplyRulesCellwise(rows, [Rule(a, b), Rule(b, c)]);
    TwoRules(a, Rule(a, b), Rule(b, c));
  }

  /** The same two rules in the other order give a different result, so the order matters. */
  lemma ReorderedRules(rows: seq<Record>, i: nat, col: TextColumn, a: Option<string>, b: Option<string>, c: Option<string>)
    requires i < |rows| && Field(rows[i], col) == a
    requires a != b && b != c
    ensures Field(ApplyRules(rows, [Rule(b, c), Rule(a, b)])[i], col) == b
    ensures Field(ApplyRules(rows, [Rule(b, c), Rule(a, b)])[i], col)
         != Field(ApplyRules(rows, [Rule(a, b), Rule(b, c)])[i], col)
  {
    ApplyRulesCellwise(rows, [Rule(b, c), Rule(a, b)]);
    TwoRules(a, Rule(b, c), Rule(a, b));
    ChainedRules(rows, i, col, a, b, c);
  }

  /** Applying one rule a second time changes nothing. */
  lemma ReplaceIdempotent(rows: seq<Record>, rule: Rule)
    ensures ReplaceInTable(ReplaceInTable(rows, rule), rule) == ReplaceInTable(rows, rule)
  {
  }

  /** No rule of the thesaurus has `v` as its label. */
  predicate NoLabel(v: Option<string>, rules: seq<Rule>)
  {
    forall k :: 0 <= k < |rules| ==> rules[k].labelValue != v
  }

  lemma {:induction false} NoLabelUnchanged(v: Option<string>, rules: seq<Rule>)
    requires NoLabel(v, rules)
    ensures ApplyRulesToValue(v, rules) == v
  {
    if rules != [] {
      NoLabelUnchanged(v, rules[..|rules| - 1]);
    }
  }

  /** When no replacement is itself a label, the thesaurus leaves no cell equal to a label:
      the cell either matched no label at all or ends as some rule's replacement. */
  lemma {:induction false} UnchainedLeavesNoLabel(v: Option<string>, rules: seq<Rule>)
    requires forall j, k :: 0 <= j < |rules| && 0 <= k < |rules| ==> rules[j].replaceBy != rules[k].labelValue
    ensures NoLabel(ApplyRulesToValue(v, rules), rules)
  {
    UnchainedOutcome(v, rules);
  }

  lemma {:induction false} UnchainedOutcome(v: Option<string>, rules: seq<Rule>)
    requires forall j, k :: 0 <= j < |rules| && 0 <= k < |rules| ==> rules[j].replaceBy != rules[k].labelValue
    ensures || (ApplyRulesToValue(v, rules) == v && NoLabel(v, rules))
            || (exists j :: 0 <= j < |rules| && ApplyRulesToValue(v, rules) == rules[j].replaceBy)
  {
    if rules != [] {
      var init, last := rules[..|rules| - 1], rules[|rules| - 1];
      UnchainedOutcome(v, init);
      var w := ApplyRulesToValue(v, init);
      if w == v && NoLabel(v, init) {
        if v == last.labelValue {
          assert ApplyRulesToValue(v, rules) == rules[|rules| - 1].replaceBy;
        } else {
          assert NoLabel(v, rules);
        }
      } else {
        var j :| 0 <= j < |init| && w == init[j].replaceBy;
        assert w == rules[j].replaceBy;
        assert w != last.labelValue;
        assert ApplyRulesToValue(v, rules) == rules[j].replaceBy;
      }
    }
  }

  /** A thesaurus whose replacements are never labels is idempotent: a second pass over the
      normalised table changes nothing. */
  lemma UnchainedThesaurusIdempotent(rows: seq<Record>, rules: seq<Rule>)
    requires forall j, k :: 0 <= j < |rules| && 0 <= k < |rules| ==> rules[j].replaceBy != rules[k].labelValue
    ensures ApplyRules(ApplyRules(rows, rules), rules) == ApplyRules(rows, rules)
  {
    var once := ApplyRules(rows, rules);
    var twice := ApplyRules(once, rules);
    ApplyRulesCellwise(rows, rules);
    ApplyRulesCellwise(once, rules);
    forall i | 0 <= i < |rows| ensures twice[i] == once[i] {
      forall col: TextColumn ensures Field(twice[i], col) == Field(once[i], col) {
        var v := Field(rows[i], col);
        UnchainedLeavesNoLabel(v, rules);
        NoLabelUnchanged(ApplyRulesToValue(v, rules), rules);
      }
      assert Field(twice[i], Title) == Field(once[i], Title);
      assert Field(twice[i], Abstract) == Field(once[i], Abstract);
      assert Field(twice[i], AuthorKeywords) == Field(once[i], AuthorKeywords);
    }
  }

  /** With chained rules a second pass is not a no-op: for three distinct values,
      [B -> C, A -> B] maps A to B, and a second pass maps that B to C. */
  lemma ChainedThesaurusNotIdempotent(rows: seq<Record>, i: nat, col: TextColumn, a: Option<string>, b: Option<string>, c: Option<string>)
    requires i < |rows| && Field(rows[i], col) == a
    requires a != b && b != c && a != c
    ensures ApplyRules(ApplyRules(rows, [Rule(b, c), Rule(a, b)]), [Rule(b, c), Rule(a, b)])
         != ApplyRules(rows, [Rule(b, c), Rule(a, b)])
  {
    var rules := [Rule(b, c), Rule(a, b)];
    var once := ApplyRules(rows, rules);
    ApplyRulesCellwise(rows, rules);
    ApplyRulesCellwise(once, rules);
    TwoRules(a, Rule(b, c), Rule(a, b));
    TwoRules(b, Rule(b, c), Rule(a, b));
    assert Field(once[i], col) == b;
    assert Field(ApplyRules(once, rules)[i], col) == c;
  }

  /** A chain in forward order, [A -> B, B -> C], is a no-op the second time for any values:
      every cell ends as C or as a value that is neither A nor B, and both stay put. */
  lemma ForwardChainIdempotent(rows: seq<Record>, a: Option<string>, b: Option<string>, c: Option<string>)
    ensures ApplyRules(ApplyRules(rows, [Rule(a, b), Rule(b, c)]), [Rule(a, b), Rule(b, c)])
         == ApplyRules(rows, [Rule(a, b), Rule(b, c)])
  {
    var rules := [Rule(a, b), Rule(b, c)];
    var once := ApplyRules(rows, rules);
    var twice := ApplyRules(once, rules);
    ApplyRulesCellwise(rows, rules);
    ApplyRulesCellwise(once, rules);
    forall i | 0 <= i < |rows| ensures twice[i] == once[i] {
      forall col: TextColumn ensures Field(twice[i], col) == Field(once[i], col) {
        TwoRules(Field(rows[i], col), Rule(a, b), Rule(b, c));
        TwoRules(Field(once[i], col), Rule(a, b), Rule(b, c));
      }
      assert Field(twice[i], Title) == Field(once[i], Title);
      assert Field(twice[i], Abstract) == Field(once[i], Abstract);
      assert Field(twice[i], AuthorKeywords) == Field(once[i], AuthorKeywords);
    }
  }

  /** A rule whose replacement cell is blank turns a title back into a missing cell, after
      cleaning has already run: the thesaurus does not preserve the cleaning guarantee for Title. */
  lemma BlankReplacementRemovesTitle(rows: seq<Record>, i: nat)
    requires i < |Cleaned(rows)|
    ensures Cleaned(rows)[i].title.Some?
    ensures ReplaceInTable(Cleaned(rows), Rule(Cleaned(rows)[i].title, None))[i].title.None?
  {
    CleanedSpec(rows);
    assert Cleaned(rows)[i] in Cleaned(rows);
    assert Field(Cleaned(rows)[i], Title) == Cleaned(rows)[i].title;
  }
}
