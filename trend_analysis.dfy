/** The script from top to bottom, without the file reading and the plots: clean the export,
    normalise it with the thesaurus, rank it, filter it by concept and group it by year. */
module TrendAnalysis {
  import opened Records
  import opened Sequences
  import opened Cleaning
  import opened Thesaurus
  import opened ScopusData
  import opened Ranking
  import opened ConceptFilter
  import opened CitationTrends

  /** `loaded` stands for the rows of `FullScopusSource.csv`, `thesaurus` for the rows of
      `thesaurus.xlsx`. Returns `most_cited_articles`, `filtered_articles` and
      `citation_trends`. */
  method Analyse(loaded: seq<Record>, thesaurus: seq<Rule>)
    returns (mostCited: seq<Record>, filtered: seq<Record>, citationTrends: seq<YearTotal>)
    ensures multiset(mostCited) == multiset(ApplyRules(Cleaned(loaded), thesaurus))
    ensures Descending(mostCited)
    ensures forall r :: r in mostCited ==> r.citedBy.Some? && r.year.Some?
    ensures filtered == FilteredArticles(mostCited)
    ensures IsSubsequence(filtered, mostCited) && Descending(filtered)
    ensures forall r :: r in filtered ==> r in mostCited && RowMatches(AuthorKeywords, r)
    ensures forall r :: r in mostCited && RowMatches(AuthorKeywords, r) ==> r in filtered
    ensures citationTrends == GroupByYear(ApplyRules(Cleaned(loaded), thesaurus))
    ensures citationTrends == GroupByYear(mostCited)
    ensures StrictlyAscending(citationTrends)
    ensures YearsOf(citationTrends) == PresentYears(mostCited)
    ensures forall i :: 0 <= i < |citationTrends| ==>
              citationTrends[i].citedBy == SumForYear(mostCited, citationTrends[i].year)
    ensures Total(citationTrends) == TotalCitations(mostCited)
  {
    var scopus := new ScopusTable(loaded);
    scopus.DropIncomplete();
    CleanedSpec(loaded);
    scopus.ApplyThesaurus(thesaurus);
    var normalised := scopus.rows;

    mostCited := RankByCitations(normalised);
    assert forall r :: r in mostCited ==> r.citedBy.Some? && r.year.Some? by {
      forall r | r in mostCited ensures r.citedBy.Some? && r.year.Some? {
        assert r in multiset(normalised);
        var i :| 0 <= i < |normalised| && normalised[i] == r;
        assert Cleaned(loaded)[i] in Cleaned(loaded);
      }
    }

    filtered := FilterByColumn(mostCited, Abstract);
    filtered := FilterByColumn(mostCited, Title);
    filtered := FilterByColumn(mostCited, AuthorKeywords);
    FilteredArticlesRanked(mostCited);

    citationTrends := GroupByYear(normalised);
    GroupByYearPermutation(normalised, mostCited);
    GroupByYearSpec(mostCited);
    GroupSums(mostCited);
    ConservesCitations(mostCited);
  }
}
