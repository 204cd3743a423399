/** The content signal: one text document per catalog row, a query
    pseudo-document built from the request, and the scoring of candidates by
    the similarity of the query with the documents of their fitted rows.
    TF-IDF vectorising and cosine similarity are not modelled: `Fit` receives
    them as a function `sim(query, row)` giving the similarity of the query
    text with the document of fitted row `row`. */
module ContentBased {
  import opened Text
  import opened Catalog

  /** The similarity of a query text with the document of a fitted row. */
  type Similarity = (string, nat) -> real

  /** The fields of a row that make up its document, in document order; the
      pipe-delimited genres and themes have their pipes turned into spaces. */
  function Fields(b: Book): seq<string> {
    [b.title, b.author, ReplaceChar(b.genres, '|', ' '), ReplaceChar(b.themes, '|', ' '),
     DescriptionText(b.description), b.country, b.language]
  }

  /** `str(...)` of the description cell: a missing value is pandas' NaN, whose
      string form is "nan". */
  function DescriptionText(d: Option<string>): (t: string)
    ensures d.None? ==> t == "nan"
    ensures d.Some? ==> t == d.value
  {
    if d.Some? then d.value else "nan"
  }

  /** `[t for t in fields if t]` */
  function NonEmpty(parts: seq<string>): (r: seq<string>)
    ensures |r| <= |parts|
    ensures forall i :: 0 <= i < |r| ==> r[i] != "" && r[i] in parts
    ensures r == [] <==> forall i :: 0 <= i < |parts| ==> parts[i] == ""
    ensures forall i :: 0 <= i < |parts| && parts[i] != "" ==> parts[i] in r
  {
    if |parts| == 0 then []
    else
      var rest := NonEmpty(parts[1..]);
      assert forall i :: 0 <= i < |rest| ==> rest[i] in parts by {
        forall i | 0 <= i < |rest| ensures rest[i] in parts {
          var j :| 0 <= j < |parts[1..]| && parts[1..][j] == rest[i];
          assert parts[j + 1] == rest[i];
        }
      }
      assert (forall i :: 0 <= i < |parts| ==> parts[i] == "") <==>
             parts[0] == "" && forall i :: 0 <= i < |parts[1..]| ==> parts[1..][i] == "" by {
        if parts[0] == "" && forall i :: 0 <= i < |parts[1..]| ==> parts[1..][i] == "" {
          forall i | 0 <= i < |parts| ensures parts[i] == "" { if i > 0 { assert parts[i] == parts[1..][i - 1]; } }
        }
      }
      assert forall i :: 1 <= i < |parts| ==> parts[i] == parts[1..][i - 1];
      if parts[0] == "" then rest else [parts[0]] + rest
  }

  /** The filter distributes over concatenation, so the kept fields keep their
      relative order. */
  lemma {:induction false} NonEmptyAppend(a: seq<string>, b: seq<string>)
    ensures NonEmpty(a + b) == NonEmpty(a) + NonEmpty(b)
  {
    if |a| == 0 {
      assert a + b == b;
    } else {
      assert (a + b)[1..] == a[1..] + b;
      NonEmptyAppend(a[1..], b);
    }
  }

  /** Every non-empty field is kept, at the position counted by the non-empty
      fields before it. */
  lemma NonEmptyKeeps(parts: seq<string>, i: nat)
    requires i < |parts| && parts[i] != ""
    ensures |NonEmpty(parts[..i])| < |NonEmpty(parts)|
    ensures NonEmpty(parts)[|NonEmpty(parts[..i])|] == parts[i]
  {
    var tail := [parts[i]] + parts[i + 1..];
    assert parts == parts[..i] + tail;
    assert tail[1..] == parts[i + 1..];
    NonEmptyAppend(parts[..i], tail);
  }

  /** The document of one row: its non-empty fields joined by single spaces. */
  function Document(b: Book): string {
    Join(NonEmpty(Fields(b)), " ")
  }

  /** `_request_to_query_text`'s tokens: genres, themes, authors, countries,
      languages, then the liked titles. */
  function QueryTokens(request: Request): seq<string> {
    request.genres + request.themes + request.authors + request.countries + request.languages + request.likedBooks
  }

  function QueryText(request: Request): string {
    Join(QueryTokens(request), " ")
  }

  /** `{bid: i for i, bid in enumerate(ids)}`: every id, mapped to the position of
      its last occurrence. */
  function IdIndex(ids: seq<string>): (index: map<string, nat>)
    ensures index.Keys == Elems(ids)
    ensures forall id :: id in index ==> index[id] < |ids| && ids[index[id]] == id
    ensures forall id, j :: id in index && index[id] < j < |ids| ==> ids[j] != id
  {
    if |ids| == 0 then map[]
    else
      var init := ids[..|ids| - 1];
      var last := ids[|ids| - 1];
      assert ids == init + [last];
      IdIndex(init)[last := |ids| - 1]
  }

  /** `[i for i, idx in enumerate(indices) if idx >= 0]`, the positions from `from` on. */
  function ValidPositions(indices: seq<int>, from: nat): (r: seq<nat>)
    requires from <= |indices|
    ensures forall p :: p in r <==> from <= p < |indices| && indices[p] >= 0
    ensures forall j :: 0 <= j < |r| ==> from <= r[j] < |indices| && indices[r[j]] >= 0
    decreases |indices| - from
  {
    if from == |indices| then []
    else if indices[from] >= 0 then [from] + ValidPositions(indices, from + 1)
    else ValidPositions(indices, from + 1)
  }

  /** The ids of the rows at the given positions. */
  function PickedIds(rows: seq<Book>, positions: seq<nat>): set<string>
    requires forall j :: 0 <= j < |positions| ==> positions[j] < |rows|
  {
    if |positions| == 0 then {}
    else PickedIds(rows, positions[..|positions| - 1]) + {rows[positions[|positions| - 1]].bookId}
  }

  lemma {:induction false} PickedIdsMembership(rows: seq<Book>, positions: seq<nat>, id: string)
    requires forall j :: 0 <= j < |positions| ==> positions[j] < |rows|
    ensures id in PickedIds(rows, positions) <==> exists j :: 0 <= j < |positions| && rows[positions[j]].bookId == id
  {
    if |positions| > 0 {
      var init := positions[..|positions| - 1];
      PickedIdsMembership(rows, init, id);
      if exists j :: 0 <= j < |init| && rows[init[j]].bookId == id {
        var j :| 0 <= j < |init| && rows[init[j]].bookId == id;
        assert positions[j] == init[j];
      }
      if exists j :: 0 <= j < |positions| && rows[positions[j]].bookId == id {
        var j :| 0 <= j < |positions| && rows[positions[j]].bookId == id;
        if j < |init| { assert init[j] == positions[j]; }
      }
    }
  }

  /** `[id_to_idx.get(bid, -1) for bid in candidate ids]` */
  function CandidateIndices(candidates: seq<Book>, index: map<string, nat>): (r: seq<int>)
    ensures |r| == |candidates|
    ensures forall i :: 0 <= i < |r| ==> (r[i] >= 0 <==> candidates[i].bookId in index)
    ensures forall i :: 0 <= i < |r| && r[i] >= 0 ==> r[i] == index[candidates[i].bookId]
  {
    seq(|candidates|, i requires 0 <= i < |candidates| =>
      if candidates[i].bookId in index then index[candidates[i].bookId] as int else -1)
  }

  /** The position each id keeps in the index is its last position. */
  lemma IdIndexIsLast(ids: seq<string>)
    ensures forall id :: id in IdIndex(ids) ==> id in ids && IdIndex(ids)[id] == LastIndex(ids, id)
  {
  }

  /** The positions with a fitted row pick exactly the candidate ids that were fitted. */
  lemma MaskCoversFitted(candidates: seq<Book>, ids: seq<string>, index: map<string, nat>, indices: seq<int>, mask: seq<nat>)
    requires index.Keys == Elems(ids)
    requires |indices| == |candidates|
    requires forall i :: 0 <= i < |indices| ==> (indices[i] >= 0 <==> candidates[i].bookId in index)
    requires mask == ValidPositions(indices, 0)
    ensures forall j :: 0 <= j < |mask| ==> mask[j] < |candidates| && candidates[mask[j]].bookId in ids
    ensures PickedIds(candidates, mask) == IdSet(candidates) * Elems(ids)
  {
    forall id | id in IdSet(candidates) * Elems(ids) ensures id in PickedIds(candidates, mask) {
      FittedIsPicked(candidates, index, indices, mask, id);
    }
    forall id | id in PickedIds(candidates, mask) ensures id in IdSet(candidates) * Elems(ids) {
      PickedIdsMembership(candidates, mask, id);
      var j :| 0 <= j < |mask| && candidates[mask[j]].bookId == id;
      assert candidates[mask[j]] in candidates;
    }
  }

  lemma FittedIsPicked(candidates: seq<Book>, index: map<string, nat>, indices: seq<int>, mask: seq<nat>, id: string)
    requires |indices| == |candidates|
    requires forall i :: 0 <= i < |indices| ==> (indices[i] >= 0 <==> candidates[i].bookId in index)
    requires mask == ValidPositions(indices, 0)
    requires id in IdSet(candidates) && id in index
    ensures id in PickedIds(candidates, mask)
  {
    var c :| c in candidates && c.bookId == id;
    var i :| 0 <= i < |candidates| && candidates[i] == c;
    assert i in mask;
    var j :| 0 <= j < |mask| && mask[j] == i;
    PickedIdsMembership(candidates, mask, id);
  }

  /** `_build_corpus`: one document per row, appended in row order. */
  method BuildCorpus(rows: seq<Book>) returns (corpus: seq<string>)
    ensures |corpus| == |rows|
    ensures forall i :: 0 <= i < |rows| ==> corpus[i] == Document(rows[i])
  {
    corpus := [];
    for i := 0 to |rows|
      invariant |corpus| == i
      invariant forall j :: 0 <= j < i ==> corpus[j] == Document(rows[j])
    {
      corpus := corpus + [Document(rows[i])];
    }
  }

  /** The blank-query fallback: every row scored by its rating proxy, a later
      row overwriting an earlier one with the same id. */
  method PopularityScores(rows: seq<Book>) returns (scores: map<string, real>)
    ensures scores == ProxyScores(rows)
  {
    scores := map[];
    for i := 0 to |rows|
      invariant scores == ProxyScores(rows[..i])
    {
      assert rows[..i + 1][..i] == rows[..i];
      scores := scores[rows[i].bookId := RatingProxy(rows[i])];
    }
    assert rows[..|rows|] == rows;
  }

  // ---------------------------------------------------------------------
  // Lemmas

  /** A join of non-empty parts is empty only when there are no parts. */
  lemma {:induction false} JoinNonEmptyParts(parts: seq<string>, sep: string)
    requires forall i :: 0 <= i < |parts| ==> parts[i] != ""
    ensures Join(parts, sep) == "" <==> parts == []
  {
  }

  /** A document is empty exactly when every one of its seven fields is. */
  lemma DocumentEmptyIff(b: Book)
    ensures Document(b) == "" <==>
              b.title == "" && b.author == "" && b.genres == "" && b.themes == "" &&
              b.description == Some("") && b.country == "" && b.language == ""
  {
    var fs := Fields(b);
    JoinNonEmptyParts(NonEmpty(fs), " ");
    assert fs[0] == b.title && fs[1] == b.author && fs[4] == DescriptionText(b.description) && fs[5] == b.country && fs[6] == b.language;
    assert |fs[2]| == |b.genres| && |fs[3]| == |b.themes|;
  }

  /** Splitting a document at spaces gives the space-separated pieces of its
      non-empty fields, field after field in document order. */
  lemma DocumentTokens(b: Book)
    requires NonEmpty(Fields(b)) != []
    ensures Split(Document(b), ' ') == SplitEach(NonEmpty(Fields(b)), ' ')
  {
    SplitJoin(NonEmpty(Fields(b)), ' ');
  }

  /** No pipe survives in the genre and theme parts of a document. */
  lemma PipesReplaced(b: Book)
    ensures '|' !in Fields(b)[2] && '|' !in Fields(b)[3]
  {
  }

  /** The query is blank (`not query.strip()`) exactly when every request token is. */
  lemma QueryBlankIff(request: Request)
    ensures Strip(QueryText(request)) == "" <==>
              forall i :: 0 <= i < |QueryTokens(request)| ==> IsBlank(QueryTokens(request)[i])
  {
    StripShape(QueryText(request));
    JoinBlank(QueryTokens(request));
  }

  /** Round trip: when no token holds a space, splitting the query text at spaces
      gives the tokens back in order. */
  lemma QueryTokensRoundTrip(request: Request)
    requires QueryTokens(request) != []
    requires forall i :: 0 <= i < |QueryTokens(request)| ==> ' ' !in QueryTokens(request)[i]
    ensures Split(QueryText(request), ' ') == QueryTokens(request)
  {
    SplitJoinRoundTrip(QueryTokens(request), ' ');
  }

  // ---------------------------------------------------------------------
  // The recommender object

  class ContentBasedRecommender {
    /** Whether `fit` has run (vectoriser, matrix and book table all present). */
    var fitted: bool
    var books: seq<Book>
    var bookIds: seq<string>
    var corpus: seq<string>
    var similarity: Similarity

    ghost predicate Valid()
      reads this
    {
      fitted ==> bookIds == Ids(books) && |corpus| == |books|
    }

    constructor ()
      ensures Valid() && !fitted && books == [] && bookIds == [] && corpus == []
    {
      fitted := false;
      books := [];
      bookIds := [];
      corpus := [];
      similarity := (q: string, i: nat) => 0.0;
    }

    /** `fit`: keeps the catalog and its ids in catalog order, builds the corpus,
        and installs the similarity fitted on it. */
    method Fit(catalog: seq<Book>, sim: Similarity)
      modifies this
      ensures Valid() && fitted
      ensures books == catalog && bookIds == Ids(catalog) && similarity == sim
      ensures |corpus| == |catalog| && forall i :: 0 <= i < |catalog| ==> corpus[i] == Document(catalog[i])
    {
      books := catalog;
      bookIds := Ids(catalog);
      corpus := BuildCorpus(catalog);
      similarity := sim;
      fitted := true;
    }

    /** `score_candidates`: nothing before `fit` or for no candidates; the rating
        proxy of every candidate for a blank query; otherwise the similarity of the
        query with the last fitted row of each candidate id that was fitted, and
        no entry for an id that was not. */
    method ScoreCandidates(request: Request, candidates: seq<Book>) returns (scores: map<string, real>)
      ensures !fitted || candidates == [] ==> scores == map[]
      ensures fitted && candidates != [] && Strip(QueryText(request)) == "" ==> scores == ProxyScores(candidates)
      ensures fitted && candidates != [] && Strip(QueryText(request)) != "" ==>
                && scores.Keys == IdSet(candidates) * Elems(bookIds)
                && forall id :: id in scores ==> scores[id] == similarity(QueryText(request), LastIndex(bookIds, id))
    {
      if !fitted || |candidates| == 0 {
        return map[];
      }
      var query := QueryText(request);
      if Strip(query) == "" {
        scores := PopularityScores(candidates);
        return;
      }
      scores := ScoreByRows(query, candidates);
    }

    /** The non-blank query case of `score_candidates`: each candidate is looked
        up in `{bid: i for i, bid in enumerate(book_ids)}`, unfitted ones (index -1)
        are dropped, and each remaining id gets the similarity of the query with
        its row. */
    method ScoreByRows(query: string, candidates: seq<Book>) returns (scores: map<string, real>)
      ensures scores.Keys == IdSet(candidates) * Elems(bookIds)
      ensures forall id :: id in scores ==> scores[id] == similarity(query, LastIndex(bookIds, id))
    {
      var candidateIndices, validMask := LocateCandidates(candidates);
      scores := map[];
      if |validMask| == 0 {
        assert validMask[..0] == validMask;
        return;
      }
      for k := 0 to |validMask|
        invariant scores.Keys == PickedIds(candidates, validMask[..k])
        invariant forall id :: id in scores ==> id in bookIds && scores[id] == similarity(query, LastIndex(bookIds, id))
      {
        var localI := validMask[k];
        var bid := candidates[localI].bookId;
        assert validMask[..k + 1][..k] == validMask[..k];
        scores := scores[bid := similarity(query, candidateIndices[localI] as nat)];
      }
      assert validMask[..|validMask|] == validMask;
    }

    /** The row lookup of `score_candidates`: the fitted row of every candidate
        (-1 for none, through `{bid: i for i, bid in enumerate(book_ids)}`) and the
        positions of the candidates that have one. */
    method LocateCandidates(candidates: seq<Book>) returns (candidateIndices: seq<int>, validMask: seq<nat>)
      ensures |candidateIndices| == |candidates|
      ensures forall j :: 0 <= j < |validMask| ==>
                && validMask[j] < |candidates|
                && candidates[validMask[j]].bookId in bookIds
                && candidateIndices[validMask[j]] == LastIndex(bookIds, candidates[validMask[j]].bookId)
      ensures PickedIds(candidates, validMask) == IdSet(candidates) * Elems(bookIds)
    {
      var idToIdx := IdIndex(bookIds);
      IdIndexIsLast(bookIds);
      candidateIndices := CandidateIndices(candidates, idToIdx);
      validMask := ValidPositions(candidateIndices, 0);
      MaskCoversFitted(candidates, bookIds, idToIdx, candidateIndices, validMask);
    }
  }
}
