/** The concept filter: `str.contains('usability|utility|user-centric', case=False, na=False)`
    on one column of the ranked table, used as a boolean mask. */
module ConceptFilter {
  import opened Wrappers
  import opened Records
  import opened Sequences
  import opened Ranking

  /** The alternatives of the search pattern, in the order they are joined with `|`. */
  const Concepts: seq<string> := ["usability", "utility", "user-centric"]

  function LowerChar(c: char): char
  {
    if 'A' <= c <= 'Z' then (c as int + 32) as char else c
  }

  /** ASCII lower-casing, which is how the case-insensitive search is modelled. */
  function Lower(s: string): (r: string)
    ensures |r| == |s|
  {
    seq(|s|, i requires 0 <= i < |s| => LowerChar(s[i]))
  }

  /** `pat` occurs in `text` starting at position `i`. */
  ghost predicate OccursAt(text: string, pat: string, i: int)
  {
    0 <= i && i + |pat| <= |text| && text[i..i + |pat|] == pat
  }

  /** Substring search: is `pat` a prefix of `text` or of one of its suffixes? */
  function Contains(text: string, pat: string): bool
    decreases |text|
  {
    if pat <= text then true
    else if text == [] then false
    else Contains(text[1..], pat)
  }

  /** The search finds `pat` exactly when it occurs somewhere in `text`. */
  lemma {:induction false} ContainsIffOccurs(text: string, pat: string)
    ensures Contains(text, pat) <==> exists i :: OccursAt(text, pat, i)
    decreases |text|
  {
    if pat <= text {
      assert OccursAt(text, pat, 0);
    } else if text == [] {
      assert forall i :: !OccursAt(text, pat, i);
    } else {
      ContainsIffOccurs(text[1..], pat);
      forall i | OccursAt(text[1..], pat, i) ensures OccursAt(text, pat, i + 1) {
        assert text[1..][i..i + |pat|] == text[i + 1..i + 1 + |pat|];
      }
      forall i | OccursAt(text, pat, i) ensures OccursAt(text[1..], pat, i - 1) {
        if i == 0 {
          assert false;
        }
        assert text[1..][i - 1..i - 1 + |pat|] == text[i..i + |pat|];
      }
    }
  }

  /** The regular expression `usability|utility|user-centric` searched case-insensitively. */
  predicate MentionsConcept(text: string)
  {
    exists c :: c in Concepts && Contains(Lower(text), c)
  }

  /** The mask of one column: a missing cell never matches (`na=False`). */
  predicate CellMatches(cell: Option<string>)
  {
    cell.Some? && MentionsConcept(cell.value)
  }

  predicate RowMatches(col: TextColumn, r: Record)
  {
    CellMatches(Field(r, col))
  }

  /** The ranked rows whose cell in `col` mentions a concept, in ranked order. */
  function FilterByColumn(mostCited: seq<Record>, col: TextColumn): seq<Record>
  {
    Keep(mostCited, r => RowMatches(col, r))
  }

  /** `filtered_articles` as the script leaves it. The masks on Abstract and on Title are each
      assigned and then overwritten, so only the Author Keywords mask decides. */
  function FilteredArticles(mostCited: seq<Record>): (filtered: seq<Record>)
    ensures |filtered| <= |mostCited|
    ensures forall r :: r in filtered ==> r in mostCited && RowMatches(AuthorKeywords, r)
  {
    FilterByColumn(mostCited, AuthorKeywords)
  }

  /** A ranked row is kept exactly when its Author Keywords are present and, lower-cased,
      contain one of the three concepts as a substring. Every copy of it is kept. */
  lemma FilteredArticlesMembers(mostCited: seq<Record>, r: Record)
    ensures r in FilteredArticles(mostCited) <==>
              r in mostCited && r.authorKeywords.Some? &&
              exists c, i :: c in Concepts && OccursAt(Lower(r.authorKeywords.value), c, i)
    ensures multiset(FilteredArticles(mostCited))[r] ==
              if RowMatches(AuthorKeywords, r) then multiset(mostCited)[r] else 0
  {
    if r.authorKeywords.Some? {
      var text := Lower(r.authorKeywords.value);
      forall c | c in Concepts ensures Contains(text, c) <==> exists i :: OccursAt(text, c, i) {
        ContainsIffOccurs(text, c);
      }
    }
    KeepCount(mostCited, r => RowMatches(AuthorKeywords, r), r);
  }

  /** The filtered rows keep their ranked order, so they are still most cited first. */
  lemma FilteredArticlesRanked(mostCited: seq<Record>)
    ensures IsSubsequence(FilteredArticles(mostCited), mostCited)
    ensures Descending(mostCited) ==> Descending(FilteredArticles(mostCited))
  {
    var filtered := FilteredArticles(mostCited);
    KeepIsSubsequence(mostCited, r => RowMatches(AuthorKeywords, r));
    if Descending(mostCited) {
      assert Ordered(mostCited, RankedBefore);
      SubsequenceKeepsOrder(filtered, mostCited, RankedBefore);
      assert Ordered(filtered, RankedBefore);
    }
  }

  /** Upper and lower case are not distinguished. */
  lemma CaseInsensitive(text: string)
    ensures MentionsConcept(text) <==> MentionsConcept(Lower(text))
  {
    assert Lower(Lower(text)) == Lower(text);
  }

  /** Keywords "usability, UX" mention a concept, so such a row is kept. */
  lemma KeywordsUsabilityKept(mostCited: seq<Record>, r: Record)
    requires r in mostCited && r.authorKeywords == Some("usability, UX")
    ensures r in FilteredArticles(mostCited)
  {
    var text := Lower("usability, UX");
    assert text[0..9] == "usability";
    assert OccursAt(text, "usability", 0);
    ContainsIffOccurs(text, "usability");
    assert "usability" in Concepts;
  }

  /** The filter the comment above the masks describes: a concept in the Title, the Abstract
      or the Author Keywords. */
  predicate AnyColumnMatches(r: Record)
  {
    RowMatches(Title, r) || RowMatches(Abstract, r) || RowMatches(AuthorKeywords, r)
  }

  function FilteredArticlesAnyColumn(mostCited: seq<Record>): seq<Record>
  {
    Keep(mostCited, AnyColumnMatches)
  }

  /** A ranked row is kept by the three-column filter exactly when at least one of its three
      text cells is present and mentions a concept; the result keeps the ranked order. */
  lemma FilteredArticlesAnyColumnSpec(mostCited: seq<Record>, r: Record)
    ensures r in FilteredArticlesAnyColumn(mostCited) <==>
              r in mostCited && exists col, c, i :: Field(r, col).Some? && c in Concepts &&
                                   OccursAt(Lower(Field(r, col).value), c, i)
    ensures IsSubsequence(FilteredArticlesAnyColumn(mostCited), mostCited)
    ensures Descending(mostCited) ==> Descending(FilteredArticlesAnyColumn(mostCited))
  {
    forall col, c | Field(r, col).Some? && c in Concepts
      ensures Contains(Lower(Field(r, col).value), c) <==> exists i :: OccursAt(Lower(Field(r, col).value), c, i)
    {
      ContainsIffOccurs(Lower(Field(r, col).value), c);
    }
    assert AnyColumnMatches(r) <==> exists col :: RowMatches(col, r) by {
      assert RowMatches(Title, r) ==> exists col :: RowMatches(col, r);
      assert RowMatches(Abstract, r) ==> exists col :: RowMatches(col, r);
      assert RowMatches(AuthorKeywords, r) ==> exists col :: RowMatches(col, r);
    }
    KeepIsSubsequence(mostCited, AnyColumnMatches);
    if Descending(mostCited) {
      assert Ordered(mostCited, RankedBefore);
      SubsequenceKeepsOrder(FilteredArticlesAnyColumn(mostCited), mostCited, RankedBefore);
      assert Ordered(FilteredArticlesAnyColumn(mostCited), RankedBefore);
    }
  }

  /** The script as written loses a row whose title says "Usability" when its keywords are
      missing; the three-column filter keeps it. */
  lemma TitleMatchLostByScript(mostCited: seq<Record>, r: Record)
    requires r in mostCited && r.title == Some("Usability") && r.authorKeywords.None?
    ensures r !in FilteredArticles(mostCited)
    ensures r in FilteredArticlesAnyColumn(mostCited)
  {
    var text := Lower("Usability");
    assert text == "usability";
    assert "usability" <= text;
    assert "usability" in Concepts;
    assert RowMatches(Title, r);
  }

  /** What the script keeps is never more than the three-column filter keeps: it only loses
      rows, never admits one. */
  lemma ScriptFilterWithinIntended(mostCited: seq<Record>)
    ensures multiset(FilteredArticles(mostCited)) <= multiset(FilteredArticlesAnyColumn(mostCited))
  {
    forall r ensures multiset(FilteredArticles(mostCited))[r] <= multiset(FilteredArticlesAnyColumn(mostCited))[r] {
      KeepCount(mostCited, x => RowMatches(AuthorKeywords, x), r);
      KeepCount(mostCited, AnyColumnMatches, r);
    }
  }
}
