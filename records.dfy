/** One row of the Scopus export (`FullScopusSource.csv`), restricted to the five columns
    the analysis reads. A missing cell is `None`. */
module Records {
  import opened Wrappers

  datatype Record = Record(
    title: Option<string>,
    abstractText: Option<string>,
    authorKeywords: Option<string>,
    year: Option<int>,
    citedBy: Option<nat>)

  /** The text columns: the ones a thesaurus label can match and a concept can be found in. */
  datatype TextColumn = Title | Abstract | AuthorKeywords

  function Field(r: Record, col: TextColumn): Option<string>
  {
    match col
    case Title => r.title
    case Abstract => r.abstractText
    case AuthorKeywords => r.authorKeywords
  }
}
