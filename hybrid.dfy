/** The hybrid recommender: filters the catalog by the request, blends the
    content and collaborative scores, boosts books from rarer countries and
    languages, ranks, and renders the top entries with an explanation. */
module Hybrid {
  import opened Text
  import opened Catalog
  import ContentBased
  import Collaborative

  // ---------------------------------------------------------------------
  // Filtering (`_apply_filters`)

  /** Whether a row's genres text matches the request genres: the source builds
      the case-insensitive regular expression `\bg1\b|\bg2\b|...` from them. */
  type GenreMatcher = (string, seq<string>) -> bool

  /** One filtering stage, in the order the source applies them. */
  datatype Criterion = ByGenre | ByAuthor | ByCountry | ByLanguage | ByMinYear | ByMaxYear

  const Stages: seq<Criterion> := [ByGenre, ByAuthor, ByCountry, ByLanguage, ByMinYear, ByMaxYear]

  /** A stage runs only when the request supplies its list (non-empty) or its year. */
  predicate Active(c: Criterion, request: Request) {
    match c
    case ByGenre => |request.genres| > 0
    case ByAuthor => |request.authors| > 0
    case ByCountry => |request.countries| > 0
    case ByLanguage => |request.languages| > 0
    case ByMinYear => request.minYear.Some?
    case ByMaxYear => request.maxYear.Some?
  }

  /** What a row must satisfy to survive a stage. A row without a year fails the
      year comparisons, as a missing value does in the source. */
  predicate Holds(b: Book, c: Criterion, request: Request, genreMatch: GenreMatcher) {
    match c
    case ByGenre => genreMatch(b.genres, request.genres)
    case ByAuthor => Lower(b.author) in LowerAll(request.authors)
    case ByCountry => Lower(b.country) in LowerAll(request.countries)
    case ByLanguage => Lower(b.language) in LowerAll(request.languages)
    case ByMinYear => request.minYear.Some? && b.year.Some? && b.year.value >= request.minYear.value
    case ByMaxYear => request.maxYear.Some? && b.year.Some? && b.year.value <= request.maxYear.value
  }

  /** One stage: the rows that pass it, in order, or all rows when it is inactive. */
  function Stage(rows: seq<Book>, c: Criterion, request: Request, genreMatch: GenreMatcher): seq<Book> {
    if !Active(c, request) then rows
    else if |rows| == 0 then []
    else (if Holds(rows[0], c, request, genreMatch) then [rows[0]] else []) + Stage(rows[1..], c, request, genreMatch)
  }

  function Chain(rows: seq<Book>, cs: seq<Criterion>, request: Request, genreMatch: GenreMatcher): seq<Book>
    decreases |cs|
  {
    if |cs| == 0 then rows else Chain(Stage(rows, cs[0], request, genreMatch), cs[1..], request, genreMatch)
  }

  /** `_apply_filters`: the stages applied one after the other. */
  function ApplyFilters(rows: seq<Book>, request: Request, genreMatch: GenreMatcher): seq<Book> {
    Chain(rows, Stages, request, genreMatch)
  }

  /** A row passes every active stage of `cs`. */
  predicate PassesAll(b: Book, cs: seq<Criterion>, request: Request, genreMatch: GenreMatcher) {
    |cs| == 0 || ((Active(cs[0], request) ==> Holds(b, cs[0], request, genreMatch)) && PassesAll(b, cs[1..], request, genreMatch))
  }

  /** The reference definition of the filters: a single pass keeping the rows that
      pass every active stage. */
  function SelectEligible(rows: seq<Book>, request: Request, genreMatch: GenreMatcher): seq<Book> {
    if |rows| == 0 then []
    else (if PassesAll(rows[0], Stages, request, genreMatch) then [rows[0]] else []) + SelectEligible(rows[1..], request, genreMatch)
  }

  /** `xs` is `ys` with some elements dropped, the rest in their original order. */
  predicate IsSubsequence<T(==)>(xs: seq<T>, ys: seq<T>) {
    if |xs| == 0 then true
    else if |ys| == 0 then false
    else if xs[0] == ys[0] then IsSubsequence(xs[1..], ys[1..])
    else IsSubsequence(xs, ys[1..])
  }

  /** The candidates of `recommend`: the filtered rows, or the whole catalog when
      no row survives. */
  function CandidateRows(catalog: seq<Book>, request: Request, genreMatch: GenreMatcher): (rows: seq<Book>)
    ensures rows == [] ==> catalog == []
  {
    var filtered := ApplyFilters(catalog, request, genreMatch);
    if |filtered| == 0 then catalog else filtered
  }

  lemma {:induction false} StageCons(b: Book, rest: seq<Book>, c: Criterion, request: Request, genreMatch: GenreMatcher)
    ensures Stage([b] + rest, c, request, genreMatch) ==
              (if !Active(c, request) || Holds(b, c, request, genreMatch) then [b] else []) + Stage(rest, c, request, genreMatch)
  {
  }

  lemma {:induction false} ChainCons(b: Book, rest: seq<Book>, cs: seq<Criterion>, request: Request, genreMatch: GenreMatcher)
    ensures Chain([b] + rest, cs, request, genreMatch) ==
              (if PassesAll(b, cs, request, genreMatch) then [b] else []) + Chain(rest, cs, request, genreMatch)
    decreases |cs|
  {
    if |cs| > 0 {
      StageCons(b, rest, cs[0], request, genreMatch);
      var r := Stage(rest, cs[0], request, genreMatch);
      assert Chain(rest, cs, request, genreMatch) == Chain(r, cs[1..], request, genreMatch);
      if !Active(cs[0], request) || Holds(b, cs[0], request, genreMatch) {
        assert Stage([b] + rest, cs[0], request, genreMatch) == [b] + r;
        assert Chain([b] + rest, cs, request, genreMatch) == Chain([b] + r, cs[1..], request, genreMatch);
        ChainCons(b, r, cs[1..], request, genreMatch);
        assert PassesAll(b, cs, request, genreMatch) == PassesAll(b, cs[1..], request, genreMatch);
      } else {
        assert Stage([b] + rest, cs[0], request, genreMatch) == r;
        assert !PassesAll(b, cs, request, genreMatch);
      }
    }
  }

  lemma {:induction false} ChainEmpty(cs: seq<Criterion>, request: Request, genreMatch: GenreMatcher)
    ensures Chain([], cs, request, genreMatch) == []
    decreases |cs|
  {
    if |cs| > 0 {
      ChainEmpty(cs[1..], request, genreMatch);
    }
  }

  /** The chained stages keep exactly the rows that pass every active stage, in
      their original order: filtering is conjunctive and the order of the stages
      does not matter. */
  lemma {:induction false} FiltersAreConjunctive(rows: seq<Book>, request: Request, genreMatch: GenreMatcher)
    ensures ApplyFilters(rows, request, genreMatch) == SelectEligible(rows, request, genreMatch)
  {
    if |rows| == 0 {
      ChainEmpty(Stages, request, genreMatch);
    } else {
      assert rows == [rows[0]] + rows[1..];
      ChainCons(rows[0], rows[1..], Stages, request, genreMatch);
      FiltersAreConjunctive(rows[1..], request, genreMatch);
    }
  }

  /** What passing every stage means for a row, constraint by constraint; an
      empty request list or an absent year imposes nothing. */
  lemma EligibleMeans(b: Book, request: Request, genreMatch: GenreMatcher)
    ensures PassesAll(b, Stages, request, genreMatch) <==>
              && (|request.genres| > 0 ==> genreMatch(b.genres, request.genres))
              && (|request.authors| > 0 ==> Lower(b.author) in LowerAll(request.authors))
              && (|request.countries| > 0 ==> Lower(b.country) in LowerAll(request.countries))
              && (|request.languages| > 0 ==> Lower(b.language) in LowerAll(request.languages))
              && (request.minYear.Some? ==> b.year.Some? && b.year.value >= request.minYear.value)
              && (request.maxYear.Some? ==> b.year.Some? && b.year.value <= request.maxYear.value)
  {
    StagesUnfold(b, request, genreMatch);
  }

  /** Passing the six stages is passing each of them. */
  lemma StagesUnfold(b: Book, request: Request, genreMatch: GenreMatcher)
    ensures PassesAll(b, Stages, request, genreMatch) <==>
              && (Active(ByGenre, request) ==> Holds(b, ByGenre, request, genreMatch))
              && (Active(ByAuthor, request) ==> Holds(b, ByAuthor, request, genreMatch))
              && (Active(ByCountry, request) ==> Holds(b, ByCountry, request, genreMatch))
              && (Active(ByLanguage, request) ==> Holds(b, ByLanguage, request, genreMatch))
              && (Active(ByMinYear, request) ==> Holds(b, ByMinYear, request, genreMatch))
              && (Active(ByMaxYear, request) ==> Holds(b, ByMaxYear, request, genreMatch))
  {
    var s1 := [ByAuthor, ByCountry, ByLanguage, ByMinYear, ByMaxYear];
    var s2 := [ByCountry, ByLanguage, ByMinYear, ByMaxYear];
    var s3 := [ByLanguage, ByMinYear, ByMaxYear];
    var s4 := [ByMinYear, ByMaxYear];
    var s5 := [ByMaxYear];
    assert Stages[1..] == s1 && s1[1..] == s2 && s2[1..] == s3 && s3[1..] == s4 && s4[1..] == s5 && s5[1..] == [];
    PassesAllCons(b, s5, request, genreMatch);
    PassesAllCons(b, s4, request, genreMatch);
    PassesAllCons(b, s3, request, genreMatch);
    PassesAllCons(b, s2, request, genreMatch);
    PassesAllCons(b, s1, request, genreMatch);
    PassesAllCons(b, Stages, request, genreMatch);
  }

  lemma PassesAllCons(b: Book, cs: seq<Criterion>, request: Request, genreMatch: GenreMatcher)
    requires |cs| > 0
    ensures PassesAll(b, cs, request, genreMatch) <==>
              (Active(cs[0], request) ==> Holds(b, cs[0], request, genreMatch)) && PassesAll(b, cs[1..], request, genreMatch)
  {
  }

  /** The filtered rows are an order-preserving selection of the input, and a row
      is kept exactly when it passes every active stage. */
  lemma {:induction false} FiltersSelect(rows: seq<Book>, request: Request, genreMatch: GenreMatcher)
    ensures IsSubsequence(ApplyFilters(rows, request, genreMatch), rows)
    ensures forall b :: b in ApplyFilters(rows, request, genreMatch) <==> b in rows && PassesAll(b, Stages, request, genreMatch)
  {
    FiltersAreConjunctive(rows, request, genreMatch);
    SelectEligibleSelects(rows, request, genreMatch);
  }

  lemma {:induction false} SelectEligibleSelects(rows: seq<Book>, request: Request, genreMatch: GenreMatcher)
    ensures IsSubsequence(SelectEligible(rows, request, genreMatch), rows)
    ensures forall b :: b in SelectEligible(rows, request, genreMatch) <==> b in rows && PassesAll(b, Stages, request, genreMatch)
  {
    if |rows| > 0 {
      SelectEligibleSelects(rows[1..], request, genreMatch);
      var rest := SelectEligible(rows[1..], request, genreMatch);
      assert rows == [rows[0]] + rows[1..];
      if !PassesAll(rows[0], Stages, request, genreMatch) {
        assert SelectEligible(rows, request, genreMatch) == rest;
        SubsequenceSkip(rest, rows[1..], rows[0]);
      } else {
        assert ([rows[0]] + rest)[1..] == rest;
        assert rows == [rows[0]] + rows[1..];
      }
    }
  }

  lemma {:induction false} SubsequenceSkip<T>(xs: seq<T>, ys: seq<T>, y: T)
    requires IsSubsequence(xs, ys)
    ensures IsSubsequence(xs, [y] + ys)
    decreases |xs| + |ys|, 1
  {
    assert ([y] + ys)[1..] == ys;
    if |xs| > 0 && xs[0] == y {
      SubsequenceTail(xs, ys);
    }
  }

  lemma {:induction false} SubsequenceTail<T>(xs: seq<T>, ys: seq<T>)
    requires |xs| > 0 && IsSubsequence(xs, ys)
    ensures IsSubsequence(xs[1..], ys)
    decreases |xs| + |ys|, 0
  {
    if |ys| > 0 {
      if xs[0] == ys[0] {
        SubsequenceSkip(xs[1..], ys[1..], ys[0]);
        assert ys == [ys[0]] + ys[1..];
      } else {
        SubsequenceTail(xs, ys[1..]);
        SubsequenceSkip(xs[1..], ys[1..], ys[0]);
        assert ys == [ys[0]] + ys[1..];
      }
    }
  }

  // ---------------------------------------------------------------------
  // Blending (`_blend_scores`)

  /** `alpha * cs + (1 - alpha) * ms`, a side without the id contributing 0. */
  function Blend(alpha: real, cs: map<string, real>, ms: map<string, real>, id: string): real {
    alpha * Lookup(cs, id) + (1.0 - alpha) * Lookup(ms, id)
  }

  function Min(a: real, b: real): real { if a <= b then a else b }
  function Max(a: real, b: real): real { if a >= b then a else b }

  /** With 0 <= alpha <= 1 the blend lies between the two sides' scores. */
  lemma BlendBetween(alpha: real, cs: map<string, real>, ms: map<string, real>, id: string)
    requires 0.0 <= alpha <= 1.0
    ensures Min(Lookup(cs, id), Lookup(ms, id)) <= Blend(alpha, cs, ms, id) <= Max(Lookup(cs, id), Lookup(ms, id))
  {
    var c, m := Lookup(cs, id), Lookup(ms, id);
    var lo, hi := Min(c, m), Max(c, m);
    assert Blend(alpha, cs, ms, id) == alpha * c + (1.0 - alpha) * m;
    ConvexBetween(alpha, c, m, lo, hi);
  }

  lemma ConvexBetween(alpha: real, c: real, m: real, lo: real, hi: real)
    requires 0.0 <= alpha <= 1.0 && lo <= c <= hi && lo <= m <= hi
    ensures lo <= alpha * c + (1.0 - alpha) * m <= hi
  {
    MulNonneg(alpha, c - lo);
    MulNonneg(1.0 - alpha, m - lo);
    MulNonneg(alpha, hi - c);
    MulNonneg(1.0 - alpha, hi - m);
    assert alpha * c + (1.0 - alpha) * m - lo == alpha * (c - lo) + (1.0 - alpha) * (m - lo);
    assert hi - (alpha * c + (1.0 - alpha) * m) == alpha * (hi - c) + (1.0 - alpha) * (hi - m);
  }

  lemma MulNonneg(x: real, y: real)
    requires x >= 0.0 && y >= 0.0
    ensures x * y >= 0.0
  {
  }

  /** An id scored by one side only gets that side's share of its score. */
  lemma BlendOneSided(alpha: real, cs: map<string, real>, ms: map<string, real>, id: string)
    ensures id !in ms ==> Blend(alpha, cs, ms, id) == alpha * Lookup(cs, id)
    ensures id !in cs ==> Blend(alpha, cs, ms, id) == (1.0 - alpha) * Lookup(ms, id)
  {
  }

  // ---------------------------------------------------------------------
  // Diversity (`_apply_diversity_boost`)

  datatype Facet = Country | Language

  /** The lower-cased country or language of a row. */
  function FacetOf(b: Book, f: Facet): string {
    Lower(if f == Country then b.country else b.language)
  }

  /** `value_counts()[v]`: the number of rows whose facet is v. */
  function FacetCount(rows: seq<Book>, f: Facet, v: string): nat {
    if |rows| == 0 then 0
    else (if FacetOf(rows[0], f) == v then 1 else 0) + FacetCount(rows[1..], f, v)
  }

  /** The largest count over the facet values of `rows` (counted in `all`). */
  function MaxCount(rows: seq<Book>, all: seq<Book>, f: Facet): (m: nat)
    ensures forall b :: b in rows ==> FacetCount(all, f, FacetOf(b, f)) <= m
    ensures |rows| > 0 ==> exists b :: b in rows && FacetCount(all, f, FacetOf(b, f)) == m
  {
    if |rows| == 0 then 0
    else
      var c, m := FacetCount(all, f, FacetOf(rows[0], f)), MaxCount(rows[1..], all, f);
      assert forall b :: b in rows ==> b == rows[0] || b in rows[1..];
      if c >= m then c else m
  }

  /** `max(counts.values())`, 1 for no rows. */
  function FacetMax(rows: seq<Book>, f: Facet): (m: nat)
    ensures m >= 1
    ensures forall b :: b in rows ==> FacetCount(rows, f, FacetOf(b, f)) <= m
    ensures |rows| == 0 ==> m == 1
    ensures |rows| > 0 ==> exists b :: b in rows && FacetCount(rows, f, FacetOf(b, f)) == m
  {
    if |rows| == 0 then 1
    else
      FacetCountPositive(rows, f, rows[0]);
      MaxCount(rows, rows, f)
  }

  /** `count / max` as a real number. */
  function Share(c: nat, m: nat): (r: real)
    requires m >= 1
    ensures c <= m ==> r <= 1.0
    ensures c >= 1 ==> r > 0.0
    ensures c == m ==> r == 1.0
  {
    QuotientFacts(c as real, m as real);
    (c as real) / (m as real)
  }

  lemma QuotientFacts(c: real, m: real)
    requires m >= 1.0 && c >= 0.0
    ensures c <= m ==> c / m <= 1.0
    ensures c > 0.0 ==> c / m > 0.0
    ensures c == m ==> c / m == 1.0
  {
  }

  /** A smaller count is a smaller share of the same maximum. */
  lemma ShareMonotone(c1: nat, c2: nat, m: nat)
    requires m >= 1 && c1 < c2
    ensures Share(c1, m) < Share(c2, m)
  {
  }

  /** `1 - count / max` for a non-empty facet value, 0 for an empty one. */
  function RarityTerm(rows: seq<Book>, f: Facet, b: Book): real {
    var v := FacetOf(b, f);
    if v == "" then 0.0 else 1.0 - Share(FacetCount(rows, f, v), FacetMax(rows, f))
  }

  function Rarity(rows: seq<Book>, b: Book): real {
    RarityTerm(rows, Country, b) + RarityTerm(rows, Language, b)
  }

  /** The boosted score of a matched row. */
  function Boosted(rows: seq<Book>, weight: real, b: Book, base: real): real {
    Scale(base, weight, Rarity(rows, b))
  }

  /** `base * (1 + weight * (rarity / 2))` */
  function Scale(base: real, weight: real, rarity: real): real {
    base * (1.0 + weight * (rarity / 2.0))
  }

  /** The score an id ends with: boosted through its first row, or unchanged
      when no row carries it. */
  function Adjusted(rows: seq<Book>, weight: real, id: string, base: real): real {
    match FirstRow(rows, id)
    case None => base
    case Some(b) => Boosted(rows, weight, b, base)
  }

  lemma {:induction false} FacetCountPositive(rows: seq<Book>, f: Facet, b: Book)
    requires b in rows
    ensures FacetCount(rows, f, FacetOf(b, f)) >= 1
  {
    if rows[0] != b {
      FacetCountPositive(rows[1..], f, b);
    }
  }

  /** Each rarity term of a row of the candidates lies in [0, 1). */
  lemma RarityTermBounds(rows: seq<Book>, f: Facet, b: Book)
    requires b in rows
    ensures 0.0 <= RarityTerm(rows, f, b) < 1.0
  {
    FacetCountPositive(rows, f, b);
  }

  /** Rarity lies in [0, 2). */
  lemma RarityBounds(rows: seq<Book>, b: Book)
    requires b in rows
    ensures 0.0 <= Rarity(rows, b) < 2.0
  {
    RarityTermBounds(rows, Country, b);
    RarityTermBounds(rows, Language, b);
  }

  /** The boost never lowers a non-negative score and at most multiplies it by
      1 + weight. */
  lemma BoostBounds(rows: seq<Book>, weight: real, b: Book, base: real)
    requires b in rows && base >= 0.0 && weight >= 0.0
    ensures base <= Boosted(rows, weight, b, base) <= base * (1.0 + weight)
  {
    RarityBounds(rows, b);
    ScaleBounds(base, weight, Rarity(rows, b));
  }

  lemma ScaleBounds(base: real, weight: real, rarity: real)
    requires base >= 0.0 && weight >= 0.0 && 0.0 <= rarity <= 2.0
    ensures base <= Scale(base, weight, rarity) <= base * (1.0 + weight)
  {
    var h := rarity / 2.0;
    assert weight * h <= weight by {
      assert weight * (1.0 - h) >= 0.0;
    }
    MulNonneg(weight, h);
    MulNonneg(base, weight * h);
    MulNonneg(base, weight - weight * h);
  }

  /** A row whose country and language are each empty or the most frequent keeps
      its base score. */
  lemma MostFrequentKeepsBase(rows: seq<Book>, weight: real, b: Book, base: real)
    requires FacetOf(b, Country) == "" || FacetCount(rows, Country, FacetOf(b, Country)) == FacetMax(rows, Country)
    requires FacetOf(b, Language) == "" || FacetCount(rows, Language, FacetOf(b, Language)) == FacetMax(rows, Language)
    ensures Boosted(rows, weight, b, base) == base
  {
  }

  /** Of two rows that share a language, the one from the rarer (non-empty)
      country ends with the strictly higher boosted score. */
  lemma RarerCountryScoresHigher(rows: seq<Book>, weight: real, b1: Book, b2: Book, base: real)
    requires base > 0.0 && weight > 0.0
    requires FacetOf(b1, Country) != "" && FacetOf(b2, Country) != ""
    requires FacetOf(b1, Language) == FacetOf(b2, Language)
    requires FacetCount(rows, Country, FacetOf(b1, Country)) < FacetCount(rows, Country, FacetOf(b2, Country))
    ensures Boosted(rows, weight, b1, base) > Boosted(rows, weight, b2, base)
  {
    ShareMonotone(FacetCount(rows, Country, FacetOf(b1, Country)), FacetCount(rows, Country, FacetOf(b2, Country)), FacetMax(rows, Country));
    assert RarityTerm(rows, Language, b1) == RarityTerm(rows, Language, b2);
    ScaleMonotone(base, weight, Rarity(rows, b2), Rarity(rows, b1));
  }

  lemma ScaleMonotone(base: real, weight: real, r1: real, r2: real)
    requires base > 0.0 && weight > 0.0 && r1 < r2
    ensures Scale(base, weight, r1) < Scale(base, weight, r2)
  {
  }

  // ---------------------------------------------------------------------
  // Explanations (`_build_explanation`)

  const Fallback := "personalized based on your preferences"

  const ReasonTexts: seq<string> := [
    "matches your preferred genre",
    "aligns with your themes",
    "by your preferred author",
    "from your selected country",
    "in your preferred language",
    "within your publication year range"
  ]

  /** Some request string, lower-cased, occurs in the lower-cased text. */
  predicate AnyContained(text: string, subs: seq<string>) {
    exists i :: 0 <= i < |subs| && Contains(Lower(text), Lower(subs[i]))
  }

  /** `request.min_year or request.max_year`: a year of 0 counts as absent. */
  predicate YearAsked(request: Request) {
    (request.minYear.Some? && request.minYear.value != 0) || (request.maxYear.Some? && request.maxYear.value != 0)
  }

  /** Which of the six reasons apply, in priority order. */
  function ReasonFlags(b: Book, request: Request): (flags: seq<bool>)
    ensures |flags| == |ReasonTexts|
  {
    [ |request.genres| > 0 && AnyContained(b.genres, request.genres),
      |request.themes| > 0 && AnyContained(b.themes, request.themes),
      |request.authors| > 0 && Lower(b.author) in LowerAll(request.authors),
      |request.countries| > 0 && Lower(b.country) in LowerAll(request.countries),
      |request.languages| > 0 && Lower(b.language) in LowerAll(request.languages),
      YearAsked(request) ]
  }

  /** The texts whose flag is set, in order. */
  function Chosen(flags: seq<bool>, texts: seq<string>): (r: seq<string>)
    requires |flags| == |texts|
    ensures |r| <= |texts|
  {
    if |flags| == 0 then []
    else (if flags[0] then [texts[0]] else []) + Chosen(flags[1..], texts[1..])
  }

  function Reasons(b: Book, request: Request): seq<string> {
    Chosen(ReasonFlags(b, request), ReasonTexts)
  }

  /** At most the first two reasons joined by "; " (or the fallback), then the
      signal notes when there are any. */
  function Explanation(reasons: seq<string>, notes: seq<string>): string {
    ExplanationHead(reasons) + SignalSuffix(notes)
  }

  function ExplanationHead(reasons: seq<string>): string {
    if |reasons| == 0 then Fallback else Join(reasons[..if |reasons| < 2 then |reasons| else 2], "; ")
  }

  function SignalSuffix(notes: seq<string>): string {
    if |notes| == 0 then "" else "; signal: " + Join(notes, ", ")
  }

  /** The provenance notes: "content" when the content model scored the id and
      "collab" when the collaborative one did, in that order. */
  function SourceNotes(id: string, cs: map<string, real>, ms: map<string, real>): (notes: seq<string>)
    ensures "content" in notes <==> id in cs
    ensures "collab" in notes <==> id in ms
    ensures id in cs ==> notes[0] == "content"
    ensures |notes| <= 2
  {
    (if id in cs then ["content"] else []) + (if id in ms then ["collab"] else [])
  }

  lemma {:induction false} ChosenSelects(flags: seq<bool>, texts: seq<string>, k: nat)
    requires |flags| == |texts| && k < |texts|
    requires forall i, j :: 0 <= i < j < |texts| ==> texts[i] != texts[j]
    ensures texts[k] in Chosen(flags, texts) <==> flags[k]
  {
    var rest := Chosen(flags[1..], texts[1..]);
    if k == 0 {
      ChosenFrom(flags[1..], texts[1..]);
      assert texts[0] !in texts[1..];
    } else {
      ChosenSelects(flags[1..], texts[1..], k - 1);
      assert texts[1..][k - 1] == texts[k];
    }
  }

  lemma {:induction false} ChosenFrom(flags: seq<bool>, texts: seq<string>)
    requires |flags| == |texts|
    ensures forall t :: t in Chosen(flags, texts) ==> t in texts
    ensures IsSubsequence(Chosen(flags, texts), texts)
  {
    if |flags| > 0 {
      ChosenFrom(flags[1..], texts[1..]);
      var rest := Chosen(flags[1..], texts[1..]);
      assert texts == [texts[0]] + texts[1..];
      if flags[0] {
        assert ([texts[0]] + rest)[1..] == rest;
      } else {
        assert Chosen(flags, texts) == rest;
        SubsequenceSkip(rest, texts[1..], texts[0]);
        assert IsSubsequence(rest, [texts[0]] + texts[1..]);
      }
    }
  }

  /** A reason appears exactly when its condition holds, and the reasons come in
      the fixed priority order genre, theme, author, country, language, year. */
  lemma ReasonsExact(b: Book, request: Request, k: nat)
    requires k < |ReasonTexts|
    ensures ReasonTexts[k] in Reasons(b, request) <==> ReasonFlags(b, request)[k]
    ensures IsSubsequence(Reasons(b, request), ReasonTexts)
  {
    ChosenSelects(ReasonFlags(b, request), ReasonTexts, k);
    ChosenFrom(ReasonFlags(b, request), ReasonTexts);
  }

  /** Only the first two reasons matter. */
  lemma ExplanationKeepsFirstTwo(r1: seq<string>, r2: seq<string>, notes: seq<string>)
    requires |r1| >= 2 && |r2| >= 2 && r1[..2] == r2[..2]
    ensures Explanation(r1, notes) == Explanation(r2, notes)
  {
  }

  /** Without reasons the text starts with the fallback; with notes it ends with
      the signal part, and without notes there is no signal part. */
  lemma ExplanationParts(reasons: seq<string>, notes: seq<string>)
    ensures |reasons| == 0 ==> IsPrefix(Fallback, Explanation(reasons, notes))
    ensures |notes| == 0 ==> Explanation(reasons, notes) == ExplanationHead(reasons)
    ensures |notes| > 0 ==> Explanation(reasons, notes) == ExplanationHead(reasons) + "; signal: " + Join(notes, ", ")
  {
    var suffix := SignalSuffix(notes);
    if |reasons| == 0 {
      assert (Fallback + suffix)[..|Fallback|] == Fallback;
    }
    if |notes| == 0 {
      assert ExplanationHead(reasons) + suffix == ExplanationHead(reasons);
    }
  }

  // ---------------------------------------------------------------------
  // Output genres

  /** `[g.strip() for g in parts if g.strip()]` */
  function StrippedNonEmpty(parts: seq<string>): (r: seq<string>)
    ensures forall i :: 0 <= i < |r| ==> r[i] != "" && !IsSpace(r[i][0]) && !IsSpace(r[i][|r[i]| - 1])
    ensures forall i :: 0 <= i < |parts| && Strip(parts[i]) != "" ==> Strip(parts[i]) in r
  {
    if |parts| == 0 then []
    else
      var s := Strip(parts[0]);
      StripShape(parts[0]);
      assert forall i :: 1 <= i < |parts| ==> parts[i] == parts[1..][i - 1];
      (if s != "" then [s] else []) + StrippedNonEmpty(parts[1..])
  }

  /** The filter distributes over concatenation, so the kept parts keep their
      relative order. */
  lemma {:induction false} StrippedAppend(a: seq<string>, b: seq<string>)
    ensures StrippedNonEmpty(a + b) == StrippedNonEmpty(a) + StrippedNonEmpty(b)
  {
    if |a| == 0 {
      assert a + b == b;
    } else {
      assert (a + b)[1..] == a[1..] + b;
      StrippedAppend(a[1..], b);
    }
  }

  /** Every part that is not blank is kept stripped, at the position counted by
      the non-blank parts before it. */
  lemma StrippedKeeps(parts: seq<string>, i: nat)
    requires i < |parts| && Strip(parts[i]) != ""
    ensures |StrippedNonEmpty(parts[..i])| < |StrippedNonEmpty(parts)|
    ensures StrippedNonEmpty(parts)[|StrippedNonEmpty(parts[..i])|] == Strip(parts[i])
  {
    var tail := [parts[i]] + parts[i + 1..];
    assert parts == parts[..i] + tail;
    assert tail[1..] == parts[i + 1..];
    StrippedAppend(parts[..i], tail);
  }

  /** The genres of the output record: the pipe-separated tokens, stripped, empty
      ones dropped. */
  function GenreList(genres: string): seq<string> {
    StrippedNonEmpty(Split(genres, '|'))
  }

  lemma {:induction false} StrippedIdentity(parts: seq<string>)
    requires forall i :: 0 <= i < |parts| ==> parts[i] != "" && !IsSpace(parts[i][0]) && !IsSpace(parts[i][|parts[i]| - 1])
    ensures StrippedNonEmpty(parts) == parts
  {
    if |parts| > 0 {
      StripStripped(parts[0]);
      StrippedIdentity(parts[1..]);
    }
  }

  /** Round trip: a list of non-empty, stripped genres without pipes survives being
      stored pipe-joined and read back. */
  lemma GenreListRoundTrip(gs: seq<string>)
    requires |gs| > 0
    requires forall i :: 0 <= i < |gs| ==> gs[i] != "" && '|' !in gs[i] && !IsSpace(gs[i][0]) && !IsSpace(gs[i][|gs[i]| - 1])
    ensures GenreList(Join(gs, "|")) == gs
  {
    SplitJoinRoundTrip(gs, '|');
    StrippedIdentity(gs);
  }

  // ---------------------------------------------------------------------
  // Ranking

  type Item = (string, real)

  predicate SortedDesc(s: seq<Item>) {
    forall i, j :: 0 <= i < j < |s| ==> s[i].1 >= s[j].1
  }

  /** Inserts x before the first element with a lower score. */
  function Insert(x: Item, s: seq<Item>): (r: seq<Item>)
    requires SortedDesc(s)
    ensures SortedDesc(r)
    ensures multiset(r) == multiset(s) + multiset{x}
    ensures |r| == |s| + 1
    ensures |s| > 0 ==> r[0] == x || r[0] == s[0]
  {
    if |s| == 0 || x.1 >= s[0].1 then
      SortedCons(x, s);
      [x] + s
    else
      var rest := Insert(x, s[1..]);
      assert s == [s[0]] + s[1..];
      SortedCons(s[0], rest);
      [s[0]] + rest
  }

  lemma SortedCons(h: Item, s: seq<Item>)
    requires SortedDesc(s)
    requires |s| > 0 ==> s[0].1 <= h.1
    ensures SortedDesc([h] + s)
  {
    var r := [h] + s;
    forall i, j | 0 <= i < j < |r| ensures r[i].1 >= r[j].1 {
      if i == 0 {
        assert r[j] == s[j - 1];
      } else {
        assert r[i] == s[i - 1] && r[j] == s[j - 1];
      }
    }
  }

  /** `sorted(items, key=score, reverse=True)`: non-increasing scores, the same
      items. */
  function SortByScore(items: seq<Item>): (r: seq<Item>)
    ensures SortedDesc(r)
    ensures multiset(r) == multiset(items)
  {
    if |items| == 0 then []
    else
      assert items == [items[0]] + items[1..];
      Insert(items[0], SortByScore(items[1..]))
  }

  /** The items of a score map, each key once, in some order. */
  predicate ItemsOfMap(items: seq<Item>, m: map<string, real>) {
    && (forall i :: 0 <= i < |items| ==> items[i].0 in m && items[i].1 == m[items[i].0])
    && (forall k :: k in m ==> exists i :: 0 <= i < |items| && items[i].0 == k)
    && DistinctKeys(items)
  }

  /** `blended.items()`: the iteration order of the map is not determined. */
  method ItemsOf(m: map<string, real>) returns (items: seq<Item>)
    ensures ItemsOfMap(items, m)
  {
    items := [];
    var rest := m.Keys;
    while rest != {}
      invariant rest <= m.Keys
      invariant forall i :: 0 <= i < |items| ==> items[i].0 in m && items[i].0 !in rest && items[i].1 == m[items[i].0]
      invariant forall k :: k in m && k !in rest ==> exists i :: 0 <= i < |items| && items[i].0 == k
      invariant forall i, j :: 0 <= i < j < |items| ==> items[i].0 != items[j].0
      decreases rest
    {
      var k :| k in rest;
      ghost var prev := items;
      items := items + [(k, m[k])];
      rest := rest - {k};
      forall k' | k' in m && k' !in rest ensures exists i :: 0 <= i < |items| && items[i].0 == k' {
        if k' == k {
          assert items[|items| - 1].0 == k';
        } else {
          var i :| 0 <= i < |prev| && prev[i].0 == k';
          assert items[i].0 == k';
        }
      }
    }
  }

  /** A sorted permutation of distinct-key items has distinct keys too. */
  lemma SortedKeepsItems(items: seq<Item>, m: map<string, real>)
    requires ItemsOfMap(items, m)
    ensures ItemsOfMap(SortByScore(items), m)
  {
    var r := SortByScore(items);
    assert forall e :: e in r <==> e in items by {
      forall e ensures e in r <==> e in items {
        assert e in r <==> e in multiset(r);
        assert e in items <==> e in multiset(items);
      }
    }
    forall i | 0 <= i < |r| ensures r[i].0 in m && r[i].1 == m[r[i].0] {
      assert r[i] in items;
    }
    forall k | k in m ensures exists i :: 0 <= i < |r| && r[i].0 == k {
      var j :| 0 <= j < |items| && items[j].0 == k;
      assert items[j] in r;
    }
    forall i, j | 0 <= i < j < |r| ensures r[i].0 != r[j].0 {
      if r[i].0 == r[j].0 {
        assert r[i].1 == m[r[i].0] == r[j].1;
        assert r[i] == r[j];
        MultisetTwice(r, i, j);
        assert multiset(items)[r[i]] >= 2;
        SingleOccurrence(items, r[i]);
      }
    }
  }

  lemma MultisetTwice<T>(s: seq<T>, i: nat, j: nat)
    requires i < j < |s| && s[i] == s[j]
    ensures multiset(s)[s[i]] >= 2
  {
    assert s == s[..i] + [s[i]] + s[i + 1..j] + [s[j]] + s[j + 1..];
  }

  lemma {:induction false} SingleOccurrence(items: seq<Item>, e: Item)
    requires forall i, j :: 0 <= i < j < |items| ==> items[i].0 != items[j].0
    ensures multiset(items)[e] <= 1
  {
    if |items| > 0 {
      var init := items[..|items| - 1];
      SingleOccurrence(init, e);
      assert items == init + [items[|items| - 1]];
      if items[|items| - 1] == e {
        assert forall i :: 0 <= i < |init| ==> init[i].0 != e.0;
        assert e !in init;
      }
    }
  }

  // ---------------------------------------------------------------------
  // Rendering

  /** The output record of one candidate row. */
  function Recommendation(b: Book, score: real, explanation: string): RecommendedBook {
    RecommendedBook(
      b.bookId, b.title, b.author,
      if b.country == "" then None else Some(b.country),
      if b.language == "" then None else Some(b.language),
      GenreList(b.genres), b.year, score, explanation)
  }

  /** The rendered entries of the ranked items, in rank order: items without a
      candidate row or whose title is a liked title are skipped. */
  function Rendered(ranked: seq<Item>, candidates: seq<Book>, liked: set<string>, request: Request,
                    cs: map<string, real>, ms: map<string, real>): seq<RecommendedBook> {
    if |ranked| == 0 then []
    else Rendered(ranked[..|ranked| - 1], candidates, liked, request, cs, ms) + RenderOne(ranked[|ranked| - 1], candidates, liked, request, cs, ms)
  }

  /** The entry of one ranked item: none without a candidate row or for a liked
      title. */
  function RenderOne(item: Item, candidates: seq<Book>, liked: set<string>, request: Request,
                     cs: map<string, real>, ms: map<string, real>): seq<RecommendedBook> {
    match FirstRow(candidates, item.0)
    case None => []
    case Some(b) =>
      if Lower(b.title) in liked then []
      else [Recommendation(b, item.1, Explanation(Reasons(b, request), SourceNotes(item.0, cs, ms)))]
  }

  lemma RenderedStep(ranked: seq<Item>, i: nat, candidates: seq<Book>, liked: set<string>, request: Request,
                     cs: map<string, real>, ms: map<string, real>)
    requires i < |ranked|
    ensures Rendered(ranked[..i + 1], candidates, liked, request, cs, ms) ==
              Rendered(ranked[..i], candidates, liked, request, cs, ms) + RenderOne(ranked[i], candidates, liked, request, cs, ms)
  {
    assert ranked[..i + 1][..i] == ranked[..i];
  }

  function Take<T>(s: seq<T>, n: nat): seq<T> {
    if |s| <= n then s else s[..n]
  }

  function Cap(limit: int): nat {
    if limit >= 1 then limit else 1
  }

  predicate NonIncreasing(out: seq<RecommendedBook>) {
    forall i, j :: 0 <= i < j < |out| ==> out[i].score >= out[j].score
  }

  predicate DistinctIds(out: seq<RecommendedBook>) {
    forall i, j :: 0 <= i < j < |out| ==> out[i].bookId != out[j].bookId
  }

  /** Every rendered entry comes from a ranked item with a candidate row (whose
      fields it copies) and a title that is not liked. */
  lemma {:induction false} RenderedFromCandidates(ranked: seq<Item>, candidates: seq<Book>, liked: set<string>, request: Request,
                                                 cs: map<string, real>, ms: map<string, real>)
    ensures forall e :: e in Rendered(ranked, candidates, liked, request, cs, ms) ==>
              && (e.bookId, e.score) in ranked
              && FirstRow(candidates, e.bookId).Some?
              && e.title == FirstRow(candidates, e.bookId).value.title
              && e.author == FirstRow(candidates, e.bookId).value.author
              && Lower(e.title) !in liked
  {
    if |ranked| > 0 {
      var init := ranked[..|ranked| - 1];
      RenderedFromCandidates(init, candidates, liked, request, cs, ms);
      assert forall x :: x in init ==> x in ranked;
    }
  }

  /** The entries keep the order of the ranking: for ranked items with
      non-increasing scores the entries' scores are non-increasing, and for
      ranked items with distinct ids the entries' ids are distinct. */
  lemma RenderedOrdered(ranked: seq<Item>, candidates: seq<Book>, liked: set<string>, request: Request,
                        cs: map<string, real>, ms: map<string, real>)
    ensures |Rendered(ranked, candidates, liked, request, cs, ms)| <= |ranked|
    ensures SortedDesc(ranked) ==> NonIncreasing(Rendered(ranked, candidates, liked, request, cs, ms))
    ensures DistinctKeys(ranked) ==> DistinctIds(Rendered(ranked, candidates, liked, request, cs, ms))
  {
    RenderedLength(ranked, candidates, liked, request, cs, ms);
    if SortedDesc(ranked) {
      RenderedScoresOrdered(ranked, candidates, liked, request, cs, ms);
    }
    if DistinctKeys(ranked) {
      RenderedIdsDistinct(ranked, candidates, liked, request, cs, ms);
    }
  }

  lemma {:induction false} RenderedLength(ranked: seq<Item>, candidates: seq<Book>, liked: set<string>, request: Request,
                                         cs: map<string, real>, ms: map<string, real>)
    ensures |Rendered(ranked, candidates, liked, request, cs, ms)| <= |ranked|
  {
    if |ranked| > 0 {
      RenderedLength(ranked[..|ranked| - 1], candidates, liked, request, cs, ms);
      RenderOneShape(ranked[|ranked| - 1], candidates, liked, request, cs, ms);
    }
  }

  lemma {:induction false} RenderedScoresOrdered(ranked: seq<Item>, candidates: seq<Book>, liked: set<string>, request: Request,
                                                cs: map<string, real>, ms: map<string, real>)
    requires SortedDesc(ranked)
    ensures NonIncreasing(Rendered(ranked, candidates, liked, request, cs, ms))
  {
    if |ranked| > 0 {
      var init, last := ranked[..|ranked| - 1], ranked[|ranked| - 1];
      PrefixKeepsOrder(ranked);
      RenderedScoresOrdered(init, candidates, liked, request, cs, ms);
      var prev := Rendered(init, candidates, liked, request, cs, ms);
      var one := RenderOne(last, candidates, liked, request, cs, ms);
      RenderOneShape(last, candidates, liked, request, cs, ms);
      if |one| == 1 {
        RenderedItems(init, candidates, liked, request, cs, ms);
        assert forall x :: x in init ==> x.1 >= last.1;
        EarlierEntries(prev, init, last);
        AppendOrdered(prev, one[0]);
        assert one == [one[0]];
      }
    }
  }

  lemma {:induction false} RenderedIdsDistinct(ranked: seq<Item>, candidates: seq<Book>, liked: set<string>, request: Request,
                                              cs: map<string, real>, ms: map<string, real>)
    requires DistinctKeys(ranked)
    ensures DistinctIds(Rendered(ranked, candidates, liked, request, cs, ms))
  {
    if |ranked| > 0 {
      var init, last := ranked[..|ranked| - 1], ranked[|ranked| - 1];
      PrefixKeepsOrder(ranked);
      RenderedIdsDistinct(init, candidates, liked, request, cs, ms);
      var prev := Rendered(init, candidates, liked, request, cs, ms);
      var one := RenderOne(last, candidates, liked, request, cs, ms);
      RenderOneShape(last, candidates, liked, request, cs, ms);
      if |one| == 1 {
        RenderedItems(init, candidates, liked, request, cs, ms);
        assert forall x :: x in init ==> x.0 != last.0;
        EarlierEntries(prev, init, last);
        AppendOrdered(prev, one[0]);
        assert one == [one[0]];
      }
    }
  }

  /** Every rendered entry carries the id and score of a ranked item. */
  lemma RenderedItems(ranked: seq<Item>, candidates: seq<Book>, liked: set<string>, request: Request,
                      cs: map<string, real>, ms: map<string, real>)
    ensures forall e :: e in Rendered(ranked, candidates, liked, request, cs, ms) ==> (e.bookId, e.score) in ranked
  {
    RenderedFromCandidates(ranked, candidates, liked, request, cs, ms);
  }

  /** Entries drawn from items that all score at least `last` and differ from it
      in id do so too. */
  lemma EarlierEntries(prev: seq<RecommendedBook>, init: seq<Item>, last: Item)
    requires forall e :: e in prev ==> (e.bookId, e.score) in init
    ensures (forall x :: x in init ==> x.1 >= last.1) ==> forall i :: 0 <= i < |prev| ==> prev[i].score >= last.1
    ensures (forall x :: x in init ==> x.0 != last.0) ==> forall i :: 0 <= i < |prev| ==> prev[i].bookId != last.0
  {
    assert forall i :: 0 <= i < |prev| ==> prev[i] in prev;
  }

  /** A ranked item yields at most one entry, with its id and score, and exactly
      one when it has a candidate row with a title that is not liked. */
  lemma RenderOneShape(item: Item, candidates: seq<Book>, liked: set<string>, request: Request,
                       cs: map<string, real>, ms: map<string, real>)
    ensures var one := RenderOne(item, candidates, liked, request, cs, ms);
            && |one| <= 1
            && (|one| == 1 ==> one[0].bookId == item.0 && one[0].score == item.1)
            && (|one| == 1 <==> FirstRow(candidates, item.0).Some? && Lower(FirstRow(candidates, item.0).value.title) !in liked)
  {
  }

  lemma AppendOrdered(prev: seq<RecommendedBook>, e: RecommendedBook)
    ensures NonIncreasing(prev) && (forall i :: 0 <= i < |prev| ==> prev[i].score >= e.score) ==> NonIncreasing(prev + [e])
    ensures DistinctIds(prev) && (forall i :: 0 <= i < |prev| ==> prev[i].bookId != e.bookId) ==> DistinctIds(prev + [e])
  {
  }

  predicate DistinctKeys(items: seq<Item>) {
    forall i, j :: 0 <= i < j < |items| ==> items[i].0 != items[j].0
  }

  lemma PrefixKeepsOrder(ranked: seq<Item>)
    requires |ranked| > 0
    ensures SortedDesc(ranked) ==> SortedDesc(ranked[..|ranked| - 1])
    ensures DistinctKeys(ranked) ==> DistinctKeys(ranked[..|ranked| - 1])
  {
  }

  /** The entries of a prefix of the ranking are a prefix of the entries. */
  lemma {:induction false} RenderedPrefix(ranked: seq<Item>, i: nat, candidates: seq<Book>, liked: set<string>, request: Request,
                                         cs: map<string, real>, ms: map<string, real>)
    requires i <= |ranked|
    ensures var part := Rendered(ranked[..i], candidates, liked, request, cs, ms);
            var whole := Rendered(ranked, candidates, liked, request, cs, ms);
            |part| <= |whole| && whole[..|part|] == part
    decreases |ranked|
  {
    if i < |ranked| {
      var init := ranked[..|ranked| - 1];
      assert init[..i] == ranked[..i];
      RenderedPrefix(init, i, candidates, liked, request, cs, ms);
    } else {
      assert ranked[..i] == ranked;
    }
  }

  /** Some entry carries this id and score. */
  predicate HasEntry(out: seq<RecommendedBook>, id: string, score: real) {
    exists p :: 0 <= p < |out| && out[p].bookId == id && out[p].score == score
  }

  lemma HasEntryAppend(prev: seq<RecommendedBook>, one: seq<RecommendedBook>, id: string, score: real)
    ensures HasEntry(prev, id, score) ==> HasEntry(prev + one, id, score)
    ensures |one| == 1 && one[0].bookId == id && one[0].score == score ==> HasEntry(prev + one, id, score)
  {
    if HasEntry(prev, id, score) {
      var p :| 0 <= p < |prev| && prev[p].bookId == id && prev[p].score == score;
      assert (prev + one)[p] == prev[p];
    }
    if |one| == 1 && one[0].bookId == id && one[0].score == score {
      assert (prev + one)[|prev|] == one[0];
    }
  }

  /** A ranked item with a candidate row and a title that is not liked gets an
      entry with its id and score. */
  lemma {:induction false} RenderedIncludes(ranked: seq<Item>, k: nat, candidates: seq<Book>, liked: set<string>, request: Request,
                                           cs: map<string, real>, ms: map<string, real>)
    requires k < |ranked|
    requires FirstRow(candidates, ranked[k].0).Some? && Lower(FirstRow(candidates, ranked[k].0).value.title) !in liked
    ensures HasEntry(Rendered(ranked, candidates, liked, request, cs, ms), ranked[k].0, ranked[k].1)
  {
    var init := ranked[..|ranked| - 1];
    var prev := Rendered(init, candidates, liked, request, cs, ms);
    var one := RenderOne(ranked[|ranked| - 1], candidates, liked, request, cs, ms);
    HasEntryAppend(prev, one, ranked[k].0, ranked[k].1);
    if k == |ranked| - 1 {
      RenderOneShape(ranked[k], candidates, liked, request, cs, ms);
    } else {
      assert init[k] == ranked[k];
      RenderedIncludes(init, k, candidates, liked, request, cs, ms);
    }
  }

  /** What `recommend` returns, given its ranking: at most `cap` entries, scores
      non-increasing, ids distinct, each from a candidate row whose title is not
      liked. */
  lemma TopEntries(ranked: seq<Item>, candidates: seq<Book>, liked: set<string>, request: Request,
                   cs: map<string, real>, ms: map<string, real>, cap: nat)
    requires SortedDesc(ranked) && DistinctKeys(ranked)
    ensures var top := Take(Rendered(ranked, candidates, liked, request, cs, ms), cap);
            && |top| <= cap
            && NonIncreasing(top)
            && DistinctIds(top)
            && forall e :: e in top ==> (e.bookId, e.score) in ranked && FirstRow(candidates, e.bookId).Some? && Lower(e.title) !in liked
  {
    var out := Rendered(ranked, candidates, liked, request, cs, ms);
    RenderedOrdered(ranked, candidates, liked, request, cs, ms);
    RenderedFromCandidates(ranked, candidates, liked, request, cs, ms);
    var top := Take(out, cap);
    assert forall e :: e in top ==> e in out;
  }

  /** Top-k completeness: an eligible ranked item that is left out of the answer
      was crowded out by `cap` entries scoring at least as high. */
  lemma TopKComplete(ranked: seq<Item>, k: nat, candidates: seq<Book>, liked: set<string>, request: Request,
                     cs: map<string, real>, ms: map<string, real>, cap: nat)
    requires SortedDesc(ranked) && k < |ranked|
    requires FirstRow(candidates, ranked[k].0).Some? && Lower(FirstRow(candidates, ranked[k].0).value.title) !in liked
    requires forall e :: e in Take(Rendered(ranked, candidates, liked, request, cs, ms), cap) ==> e.bookId != ranked[k].0
    ensures |Take(Rendered(ranked, candidates, liked, request, cs, ms), cap)| == cap
    ensures forall e :: e in Take(Rendered(ranked, candidates, liked, request, cs, ms), cap) ==> e.score >= ranked[k].1
  {
    var out := Rendered(ranked, candidates, liked, request, cs, ms);
    RenderedIncludes(ranked, k, candidates, liked, request, cs, ms);
    RenderedOrdered(ranked, candidates, liked, request, cs, ms);
    var p :| 0 <= p < |out| && out[p].bookId == ranked[k].0 && out[p].score == ranked[k].1;
    var top := Take(out, cap);
    forall e | e in top ensures e.score >= ranked[k].1 {
      var i :| 0 <= i < |top| && top[i] == e;
      assert out[i] == e;
    }
  }

  /** One pass of the output loop: no entry when the id has no candidate row
      or its title is liked, otherwise the record with its explanation. */
  method RenderItem(item: Item, candidates: seq<Book>, liked: set<string>, request: Request,
                    cs: map<string, real>, ms: map<string, real>) returns (entry: seq<RecommendedBook>)
    ensures entry == RenderOne(item, candidates, liked, request, cs, ms)
  {
    var (id, score) := item;
    var row := FirstRow(candidates, id);
    if row.None? {
      return [];
    }
    var titleLower := Lower(row.value.title);
    if titleLower in liked {
      return [];
    }
    var notes: seq<string> := [];
    if id in cs {
      notes := notes + ["content"];
    }
    if id in ms {
      notes := notes + ["collab"];
    }
    assert notes == SourceNotes(id, cs, ms);
    var explanation := Explanation(Reasons(row.value, request), notes);
    entry := [Recommendation(row.value, score, explanation)];
  }

  lemma LoopExit(ranked: seq<Item>, i: nat, candidates: seq<Book>, liked: set<string>, request: Request,
                 cs: map<string, real>, ms: map<string, real>, cap: nat)
    requires i <= |ranked|
    requires |Rendered(ranked[..i], candidates, liked, request, cs, ms)| <= cap
    requires i == |ranked| || |Rendered(ranked[..i], candidates, liked, request, cs, ms)| == cap
    ensures Rendered(ranked[..i], candidates, liked, request, cs, ms) == Take(Rendered(ranked, candidates, liked, request, cs, ms), cap)
  {
    RenderedPrefix(ranked, i, candidates, liked, request, cs, ms);
    if i == |ranked| {
      assert ranked[..i] == ranked;
    }
  }

  /** The output loop of `recommend`: walks the ranking, stops once `cap`
      entries are collected, and skips ids without a candidate row and liked
      titles. */
  method RenderTop(ranked: seq<Item>, candidates: seq<Book>, liked: set<string>, request: Request,
                   cs: map<string, real>, ms: map<string, real>, cap: nat)
    returns (results: seq<RecommendedBook>)
    ensures results == Take(Rendered(ranked, candidates, liked, request, cs, ms), cap)
  {
    results := [];
    var i := 0;
    while i < |ranked| && |results| < cap
      invariant 0 <= i <= |ranked|
      invariant results == Rendered(ranked[..i], candidates, liked, request, cs, ms)
      invariant |results| <= cap
    {
      var entry := RenderItem(ranked[i], candidates, liked, request, cs, ms);
      RenderedStep(ranked, i, candidates, liked, request, cs, ms);
      results := results + entry;
      i := i + 1;
    }
    LoopExit(ranked, i, candidates, liked, request, cs, ms, cap);
  }

  /** The final score of every id either model scored: blended, then boosted. */
  function FinalScores(candidates: seq<Book>, alpha: real, weight: real, cs: map<string, real>, ms: map<string, real>): map<string, real> {
    map id | id in cs.Keys + ms.Keys :: Adjusted(candidates, weight, id, Blend(alpha, cs, ms, id))
  }

  lemma FinalScoresPointwise(m: map<string, real>, candidates: seq<Book>, alpha: real, weight: real, cs: map<string, real>, ms: map<string, real>)
    requires m.Keys == cs.Keys + ms.Keys
    requires forall id :: id in m ==> m[id] == Adjusted(candidates, weight, id, Blend(alpha, cs, ms, id))
    ensures m == FinalScores(candidates, alpha, weight, cs, ms)
  {
  }

  /** Every id either model scored has a final score. */
  lemma FinalScoresCover(candidates: seq<Book>, alpha: real, weight: real, cs: map<string, real>, ms: map<string, real>)
    ensures FinalScores(candidates, alpha, weight, cs, ms).Keys == cs.Keys + ms.Keys
    ensures |ms| > 0 ==> |FinalScores(candidates, alpha, weight, cs, ms)| > 0
  {
    if |ms| > 0 {
      var k :| k in ms;
      assert k in FinalScores(candidates, alpha, weight, cs, ms);
    }
  }

  /** What the content model's `score_candidates` promises about `scores` for
      these candidates, in terms of that model's fitted state. */
  ghost predicate ContentScored(c: ContentBased.ContentBasedRecommender, request: Request, candidates: seq<Book>,
                                scores: map<string, real>)
    reads c
  {
    var query := ContentBased.QueryText(request);
    && (!c.fitted || candidates == [] ==> scores == map[])
    && (c.fitted && candidates != [] && Strip(query) == "" ==> scores == ProxyScores(candidates))
    && (c.fitted && candidates != [] && Strip(query) != "" ==>
          && scores.Keys == IdSet(candidates) * Elems(c.bookIds)
          && forall id :: id in scores ==> scores[id] == c.similarity(query, LastIndex(c.bookIds, id)))
  }

  /** What the collaborative model's `score_candidates` promises about `scores`
      for these candidates, in terms of that model's tables. */
  ghost predicate CollabScored(m: Collaborative.CollaborativeRecommender, request: Request, candidates: seq<Book>,
                               scores: map<string, real>)
    reads m
  {
    var liked := Collaborative.ResolveLiked(request.likedBooks, candidates);
    var keep := (Collaborative.Partners(m.cooccurrence, liked) + m.itemPopularity.Keys) * IdSet(candidates);
    && (candidates == [] ==> scores == map[])
    && (candidates != [] ==> |scores| > 0 && scores.Keys <= IdSet(candidates))
    && (candidates != [] && liked == [] && m.itemPopularity == map[] ==> scores == ProxyScores(candidates))
    && (candidates != [] && !(liked == [] && m.itemPopularity == map[]) ==>
          && (keep == {} ==> scores == ProxyScores(candidates))
          && (keep != {} ==>
                && scores.Keys == keep
                && forall x :: x in scores ==>
                     scores[x] == Collaborative.LikedSum(m.cooccurrence, liked, x) + 0.05 * Lookup(m.itemPopularity, x)))
  }

  // ---------------------------------------------------------------------
  // The recommender object

  const DefaultAlpha := 0.6
  const DefaultDiversityWeight := 0.15

  class HybridRecommender {
    /** The weight of the content score in the blend. */
    var alpha: real
    var diversityWeight: real
    /** The configured catalog path, quoted in the load error. */
    var booksCsv: string
    /** The catalog, once loaded. */
    var books: Option<seq<Book>>
    var content: ContentBased.ContentBasedRecommender
    var collab: Collaborative.CollaborativeRecommender
    /** The regular-expression genre filter. */
    var genreMatch: GenreMatcher

    /** `__init__`: the two weights come from the configuration, with defaults
        0.6 and 0.15; nothing is loaded yet. */
    constructor (alphaSetting: Option<real>, weightSetting: Option<real>, booksCsv: string, genreMatch: GenreMatcher)
      ensures alpha == (if alphaSetting.Some? then alphaSetting.value else DefaultAlpha)
      ensures diversityWeight == (if weightSetting.Some? then weightSetting.value else DefaultDiversityWeight)
      ensures this.booksCsv == booksCsv && this.genreMatch == genreMatch
      ensures books.None? && !content.fitted
    {
      alpha := if alphaSetting.Some? then alphaSetting.value else DefaultAlpha;
      diversityWeight := if weightSetting.Some? then weightSetting.value else DefaultDiversityWeight;
      this.booksCsv := booksCsv;
      books := None;
      content := new ContentBased.ContentBasedRecommender();
      collab := new Collaborative.CollaborativeRecommender();
      this.genreMatch := genreMatch;
    }

    /** `initialize`: loads the catalog (`loaded` is None when the file does not
        exist), then fits a fresh content model on it and a fresh collaborative
        model on the interaction log. */
    method Initialize(loaded: Option<seq<Book>>, log: Collaborative.InteractionLog, sim: ContentBased.Similarity)
      returns (r: Result<()>)
      modifies this
      ensures loaded.None? ==> r == Err("Books CSV not found: " + booksCsv) && unchanged(this)
      ensures loaded.Some? ==>
                && r.Ok? && books == loaded
                && fresh(content) && fresh(collab)
                && content.Valid() && content.fitted && content.books == loaded.value && content.similarity == sim
                && collab.Valid()
                && (log.NoFile? ==>
                      && collab.itemPopularity == ProxyScores(loaded.value)
                      && collab.userItem == None && collab.cooccurrence == map[]
                      && collab.itemsSet == {} && collab.pairUpdates == 0)
                && (log.MissingColumns? ==>
                      && collab.userItem == None && collab.itemPopularity == map[] && collab.cooccurrence == map[]
                      && collab.itemsSet == {} && collab.pairUpdates == 0)
                && (log.Rows? ==>
                      && collab.userItem == Some(log.rows)
                      && collab.itemPopularity == Collaborative.Popularity(log.rows)
                      && (forall a, b :: Collaborative.Get(collab.cooccurrence, a, b) ==
                                         Collaborative.CoocCount(Collaborative.Baskets(log.rows), a, b))
                      && (forall a, b :: Collaborative.Get(collab.cooccurrence, a, b) ==
                                         Collaborative.Get(collab.cooccurrence, b, a))
                      && collab.cooccurrence.Keys == Collaborative.BookSet(log.rows)
                      && collab.itemsSet == Collaborative.BookSet(log.rows)
                      && collab.pairUpdates == Collaborative.PairUpdates(Collaborative.Baskets(log.rows)))
      ensures alpha == old(alpha) && diversityWeight == old(diversityWeight)
      ensures booksCsv == old(booksCsv) && genreMatch == old(genreMatch)
    {
      if loaded.None? {
        return Err("Books CSV not found: " + booksCsv);
      }
      books := loaded;
      content := new ContentBased.ContentBasedRecommender();
      content.Fit(loaded.value, sim);
      collab := new Collaborative.CollaborativeRecommender();
      collab.Fit(log, loaded.value);
      r := Ok(());
    }

    /** `_blend_scores`: every id scored by either model gets
        `alpha * content + (1 - alpha) * collab`. */
    static method BlendScores(alpha: real, cs: map<string, real>, ms: map<string, real>) returns (blended: map<string, real>)
      ensures blended.Keys == cs.Keys + ms.Keys
      ensures forall id :: id in blended ==> blended[id] == Blend(alpha, cs, ms, id)
    {
      blended := map[];
      var rest := cs.Keys + ms.Keys;
      while rest != {}
        invariant rest <= cs.Keys + ms.Keys
        invariant blended.Keys == (cs.Keys + ms.Keys) - rest
        invariant forall id :: id in blended ==> blended[id] == Blend(alpha, cs, ms, id)
        decreases rest
      {
        var id :| id in rest;
        var c := if id in cs then cs[id] else 0.0;
        var m := if id in ms then ms[id] else 0.0;
        blended := blended[id := alpha * c + (1.0 - alpha) * m];
        rest := rest - {id};
      }
    }

    /** `_apply_diversity_boost`: nothing changes for no candidates or no scores;
        otherwise every score is boosted by the rarity of its row's country and
        language among the candidates. */
    static method ApplyDiversityBoost(weight: real, candidates: seq<Book>, scores: map<string, real>) returns (adjusted: map<string, real>)
      ensures candidates == [] || scores == map[] ==> adjusted == scores
      ensures adjusted.Keys == scores.Keys
      ensures forall id :: id in adjusted ==> adjusted[id] == Adjusted(candidates, weight, id, scores[id])
    {
      if |candidates| == 0 || |scores| == 0 {
        return scores;
      }
      var maxCountry := FacetMax(candidates, Country);
      var maxLanguage := FacetMax(candidates, Language);
      adjusted := map[];
      var rest := scores.Keys;
      while rest != {}
        invariant rest <= scores.Keys
        invariant adjusted.Keys == scores.Keys - rest
        invariant BoostsOf(adjusted, candidates, weight, scores)
        decreases rest
      {
        var id :| id in rest;
        var base := scores[id];
        var row := FirstRow(candidates, id);
        if row.None? {
          BoostsOfStep(adjusted, candidates, weight, scores, id, base);
          adjusted := adjusted[id := base];
        } else {
          var rarity := RowRarity(candidates, row.value, maxCountry, maxLanguage);
          var boosted := Scale(base, weight, rarity);
          assert boosted == Boosted(candidates, weight, row.value, base);
          BoostsOfStep(adjusted, candidates, weight, scores, id, boosted);
          adjusted := adjusted[id := boosted];
        }
        rest := rest - {id};
      }
    }

    /** Every entry of `adjusted` is the adjusted score of its id. */
    static ghost predicate BoostsOf(adjusted: map<string, real>, candidates: seq<Book>, weight: real, scores: map<string, real>) {
      forall id :: id in adjusted ==> id in scores && adjusted[id] == Adjusted(candidates, weight, id, scores[id])
    }

    static lemma BoostsOfStep(adjusted: map<string, real>, candidates: seq<Book>, weight: real, scores: map<string, real>,
                              id: string, v: real)
      requires BoostsOf(adjusted, candidates, weight, scores)
      requires id in scores && v == Adjusted(candidates, weight, id, scores[id])
      ensures BoostsOf(adjusted[id := v], candidates, weight, scores)
    {
    }

    /** The rarity of one row: `1 - count / max` for its country and for its
        language, each only when non-empty. */
    static method RowRarity(candidates: seq<Book>, b: Book, maxCountry: nat, maxLanguage: nat) returns (rarity: real)
      requires maxCountry == FacetMax(candidates, Country) && maxLanguage == FacetMax(candidates, Language)
      ensures rarity == Rarity(candidates, b)
    {
      var country := Lower(b.country);
      var language := Lower(b.language);
      rarity := 0.0;
      if country != "" {
        rarity := rarity + (1.0 - Share(FacetCount(candidates, Country, country), maxCountry));
      }
      if language != "" {
        rarity := rarity + (1.0 - Share(FacetCount(candidates, Language, language), maxLanguage));
      }
    }

    /** The scoring half of `recommend`: both models score the candidates, and
        the scores are blended and boosted. */
    method ScoreAll(request: Request, candidates: seq<Book>)
      returns (cs: map<string, real>, ms: map<string, real>, boosted: map<string, real>)
      ensures ContentScored(content, request, candidates, cs)
      ensures CollabScored(collab, request, candidates, ms)
      ensures cs.Keys + ms.Keys <= IdSet(candidates)
      ensures candidates != [] ==> |boosted| > 0
      ensures boosted == FinalScores(candidates, alpha, diversityWeight, cs, ms)
    {
      cs, ms := ScoreModels(request, candidates);
      var blended := BlendScores(alpha, cs, ms);
      boosted := ApplyDiversityBoost(diversityWeight, candidates, blended);
      FinalScoresPointwise(boosted, candidates, alpha, diversityWeight, cs, ms);
      FinalScoresCover(candidates, alpha, diversityWeight, cs, ms);
    }

    /** `sorted(blended.items(), key=score, reverse=True)`: every scored id once,
        by descending score. */
    static method Rank(scores: map<string, real>) returns (ranked: seq<Item>)
      ensures SortedDesc(ranked)
      ensures ItemsOfMap(ranked, scores)
      ensures scores != map[] <==> |ranked| > 0
    {
      var items := ItemsOf(scores);
      ranked := SortByScore(items);
      SortedKeepsItems(items, scores);
      if scores != map[] {
        var k :| k in scores;
      }
    }

    /** The two models' scores of the candidates. */
    method ScoreModels(request: Request, candidates: seq<Book>) returns (cs: map<string, real>, ms: map<string, real>)
      ensures ContentScored(content, request, candidates, cs)
      ensures CollabScored(collab, request, candidates, ms)
      ensures cs.Keys + ms.Keys <= IdSet(candidates)
    {
      cs := content.ScoreCandidates(request, candidates);
      ms := collab.ScoreCandidates(request, candidates);
      ProxyScoresLastRow(candidates);
    }

    /** `recommend`: an error before the catalog is loaded; otherwise the
        candidates (filtered rows, or the whole catalog when none survive) are
        scored by both models, blended, boosted and ranked, and the first
        `max(1, limit)` ranked ids with a candidate row and an unliked title are
        rendered. The ghost results expose the two models' scores and the
        ranking. */
    method Recommend(request: Request)
      returns (r: Result<seq<RecommendedBook>>, ghost contentScores: map<string, real>,
               ghost collabScores: map<string, real>, ghost ranked: seq<Item>)
      ensures books.None? ==> r == Err("Books not loaded")
      ensures books.Some? ==>
                var candidates := CandidateRows(books.value, request, genreMatch);
                var liked := Elems(LowerAll(request.likedBooks));
                && r.Ok?
                && ContentScored(content, request, candidates, contentScores)
                && CollabScored(collab, request, candidates, collabScores)
                && contentScores.Keys + collabScores.Keys <= IdSet(candidates)
                && (books.value != [] ==> |ranked| > 0)
                && SortedDesc(ranked)
                && ItemsOfMap(ranked, FinalScores(candidates, alpha, diversityWeight, contentScores, collabScores))
                && r.value == Take(Rendered(ranked, candidates, liked, request, contentScores, collabScores), Cap(request.limit))
                && |r.value| <= Cap(request.limit)
                && NonIncreasing(r.value)
                && DistinctIds(r.value)
                && forall e :: e in r.value ==> FirstRow(candidates, e.bookId).Some? && Lower(e.title) !in liked
    {
      contentScores, collabScores, ranked := map[], map[], [];
      if books.None? {
        return Err("Books not loaded"), contentScores, collabScores, ranked;
      }
      var catalog := books.value;
      var filtered := ApplyFilters(catalog, request, genreMatch);
      var candidates := if |filtered| == 0 then catalog else filtered;
      assert candidates == CandidateRows(catalog, request, genreMatch);
      var cs, ms, boosted := ScoreAll(request, candidates);
      var order := Rank(boosted);

      var used := Elems(LowerAll(request.likedBooks));
      var cap := Cap(request.limit);
      var results := RenderTop(order, candidates, used, request, cs, ms, cap);
      TopEntries(order, candidates, used, request, cs, ms, cap);
      r, contentScores, collabScores, ranked := Ok(results), cs, ms, order;
    }
  }
}
