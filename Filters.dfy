/** The filter engine: which questions of the working bank the quiz shows,
    by domain, by tag substrings and by bookmark. */
module Filters {
  import opened Text
  import opened Seqs
  import opened Questions

  /** What the filter controls hold: the domain selector's value ("" when the
      control is missing), the tag text box and the bookmark-only checkbox. */
  datatype FilterInputs = FilterInputs(domain: String, tagText: String, onlyBookmarked: bool)

  /** The filter as the engine applies it. */
  datatype Criteria = Criteria(domain: String, terms: seq<String>, onlyBookmarked: bool)

  predicate NonEmpty(t: String) {
    t != []
  }

  function TrimAll(pieces: seq<String>): seq<String> {
    seq(|pieces|, k requires 0 <= k < |pieces| => Trim(pieces[k]))
  }

  /** The pieces of the lower-cased tag text: split at commas, each trimmed,
      empty pieces dropped. */
  function TagTerms(text: String): (r: seq<String>)
    ensures forall k :: 0 <= k < |r| ==> r[k] != []
  {
    var s := ToLower(Trim(text));
    if s == [] then []
    else
      SelectSpec(TrimAll(Split(s, ',')), NonEmpty);
      Select(TrimAll(Split(s, ',')), NonEmpty)
  }

  /** Trimming only removes characters. */
  lemma TrimChars(s: String, c: char)
    requires c in Trim(s)
    ensures c in s
  {
    var t := TrimStart(s);
    var r := TrimEnd(t);
    var i :| 0 <= i < |r| && r[i] == c;
    assert t[i] == c;
    assert s[|s| - |t| + i] == c;
  }

  predicate SpaceOrComma(c: char) {
    IsSpace(c) || c == ','
  }

  /** The tag text yields no terms, and so switches the tag test off, exactly
      when it holds nothing but white space and commas. */
  lemma TagTermsEmptyIff(text: String)
    ensures TagTerms(text) == [] <==> forall i :: 0 <= i < |text| ==> SpaceOrComma(text[i])
  {
    if forall i :: 0 <= i < |text| ==> SpaceOrComma(text[i]) {
      OnlySpaceOrCommaNoTerms(text);
    } else {
      var i :| 0 <= i < |text| && !SpaceOrComma(text[i]);
      SomeCharSomeTerm(text, i);
    }
  }

  lemma OnlySpaceOrCommaNoTerms(text: String)
    requires forall i :: 0 <= i < |text| ==> SpaceOrComma(text[i])
    ensures TagTerms(text) == []
  {
    var s := ToLower(Trim(text));
    if s != [] {
      forall m | 0 <= m < |s| ensures SpaceOrComma(s[m]) {
        TrimChars(text, Trim(text)[m]);
        LowerCharSpace(Trim(text)[m]);
      }
      BlankPieces(s);
      SelectNone(TrimAll(Split(s, ',')), NonEmpty);
    }
  }

  /** Splitting white space and commas at the commas leaves only pieces that
      trim to nothing. */
  lemma BlankPieces(s: String)
    requires forall m :: 0 <= m < |s| ==> SpaceOrComma(s[m])
    ensures forall k :: 0 <= k < |TrimAll(Split(s, ','))| ==> !NonEmpty(TrimAll(Split(s, ','))[k])
  {
    var pieces := Split(s, ',');
    forall k | 0 <= k < |pieces| ensures Trim(pieces[k]) == [] {
      forall j | 0 <= j < |pieces[k]| ensures IsSpace(pieces[k][j]) {
        SplitChars(s, ',', k, pieces[k][j]);
      }
      TrimEmptyIff(pieces[k]);
    }
  }

  lemma SomeCharSomeTerm(text: String, i: int)
    requires 0 <= i < |text| && !SpaceOrComma(text[i])
    ensures TagTerms(text) != []
  {
    var s := ToLower(Trim(text));
    TrimKeeps(text, i);
    var m :| 0 <= m < |Trim(text)| && Trim(text)[m] == text[i];
    assert s[m] == LowerChar(text[i]);
    LowerCharSpace(text[i]);
    var pieces := Split(s, ',');
    SplitCovers(s, ',', m);
    var k :| 0 <= k < |pieces| && s[m] in pieces[k];
    var j :| 0 <= j < |pieces[k]| && pieces[k][j] == s[m];
    TrimKeeps(pieces[k], j);
    var trimmed := TrimAll(pieces);
    assert NonEmpty(trimmed[k]);
    SelectSpec(trimmed, NonEmpty);
    assert trimmed[k] in TagTerms(text);
  }

  /** The filter an applyFilters call uses: an empty domain selector reads as
      "All". */
  function ParseCriteria(inputs: FilterInputs): Criteria {
    Criteria(if inputs.domain == [] then "All" else inputs.domain,
             TagTerms(inputs.tagText),
             inputs.onlyBookmarked)
  }

  predicate DomainOk(q: Question, domain: String) {
    domain == "All" || q.domain == domain
  }

  /** Some query term occurs, ignoring ASCII case, in some tag of q; no terms
      means no tag test. */
  predicate TagOk(q: Question, terms: seq<String>) {
    terms == [] ||
    exists i, k :: 0 <= i < |q.tags| && 0 <= k < |terms| && Contains(ToLower(q.tags[i]), terms[k])
  }

  predicate BookmarkOk(q: Question, onlyBookmarked: bool, bookmarks: seq<String>) {
    !onlyBookmarked || q.id in bookmarks
  }

  /** The three tests, all of which a question must pass. */
  predicate Keep(q: Question, c: Criteria, bookmarks: seq<String>) {
    DomainOk(q, c.domain) && TagOk(q, c.terms) && BookmarkOk(q, c.onlyBookmarked, bookmarks)
  }

  /** The filtered set. */
  function FilterBank(all: seq<Question>, c: Criteria, bookmarks: seq<String>): seq<Question> {
    Select(all, q => Keep(q, c, bookmarks))
  }

  /** The filtered set is an order-preserving subsequence of the bank that
      holds every question passing all three tests and no other. */
  lemma FilterBankSpec(all: seq<Question>, c: Criteria, bookmarks: seq<String>)
    ensures IsSubseq(FilterBank(all, c, bookmarks), all)
    ensures forall q :: q in FilterBank(all, c, bookmarks) <==> q in all && Keep(q, c, bookmarks)
    ensures forall q ::
      multiset(FilterBank(all, c, bookmarks))[q] == if Keep(q, c, bookmarks) then multiset(all)[q] else 0
  {
    FilterBankSubseq(all, c, bookmarks);
    SelectSpec(all, q => Keep(q, c, bookmarks));
  }

  lemma FilterBankSubseq(all: seq<Question>, c: Criteria, bookmarks: seq<String>)
    ensures IsSubseq(FilterBank(all, c, bookmarks), all)
  {
    SelectSubseq(all, q => Keep(q, c, bookmarks));
  }

  /** With domain "All", a tag text of only white space and commas, and the
      bookmark filter off, the filtered set is the whole bank. */
  lemma FilterOffIsIdentity(all: seq<Question>, inputs: FilterInputs, bookmarks: seq<String>)
    requires inputs.domain == [] || inputs.domain == "All"
    requires forall i :: 0 <= i < |inputs.tagText| ==> SpaceOrComma(inputs.tagText[i])
    requires !inputs.onlyBookmarked
    ensures FilterBank(all, ParseCriteria(inputs), bookmarks) == all
  {
    TagTermsEmptyIff(inputs.tagText);
    var c := ParseCriteria(inputs);
    SelectAll(all, q => Keep(q, c, bookmarks));
  }

  /** With the bookmark filter on and no bookmarks, nothing passes. */
  lemma NoBookmarksNoQuestions(all: seq<Question>, c: Criteria)
    requires c.onlyBookmarked
    ensures FilterBank(all, c, []) == []
  {
    SelectNone(all, q => Keep(q, c, []));
  }

  /** A tag text that is a single lower-case word is its own single term. */
  lemma SingleWordTerm(text: String)
    requires text != []
    requires forall i :: 0 <= i < |text| ==> 'a' <= text[i] <= 'z'
    ensures TagTerms(text) == [text]
  {
    var s := ToLower(Trim(text));
    assert s == text by { LowerWordFixed(text); }
    var pieces := Split(s, ',');
    assert pieces == [text] by { SplitNoSep(text, ','); }
    var trimmed := TrimAll(pieces);
    assert trimmed == [text] by {
      LowerWordFixed(text);
      assert trimmed[0] == Trim(text);
    }
    assert Select(trimmed, NonEmpty) == [text] by {
      assert Select([text][1..], NonEmpty) == [];
    }
  }

  lemma LowerWordFixed(text: String)
    requires text != []
    requires forall i :: 0 <= i < |text| ==> 'a' <= text[i] <= 'z'
    ensures Trim(text) == text && ToLower(text) == text
  {
    var c, d := text[0], text[|text| - 1];
    assert !IsSpace(c) && !IsSpace(d);
    assert TrimStart(text) == text;
    assert TrimEnd(text) == text;
    assert ToLower(text) == text;
  }

  /** The query "cardio" matches a question tagged "Cardiology". */
  lemma CardioMatchesCardiology(q: Question)
    requires q.tags == ["Cardiology"]
    ensures TagOk(q, TagTerms("cardio"))
  {
    var text := "cardio";
    forall i | 0 <= i < |text| ensures 'a' <= text[i] <= 'z' { }
    SingleWordTerm(text);
    CardiologyContainsCardio(q.tags[0]);
    var terms := TagTerms(text);
    assert 0 < |q.tags| && 0 < |terms| && Contains(ToLower(q.tags[0]), terms[0]);
  }

  lemma CardiologyContainsCardio(tag: String)
    requires tag == "Cardiology"
    ensures Contains(ToLower(tag), "cardio")
  {
    var text := "cardio";
    var low := ToLower(tag);
    assert low[..|text|] == text;
  }
}
