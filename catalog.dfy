/** The records the recommender works on: catalog rows (books), requests and
    the recommended-book output record, plus the row lookups every scorer
    shares. The catalog is the table loaded once at start-up. The loader fills
    missing genres, themes, author, country, language and title with ""; a
    missing description stays missing. */
module Catalog {
  import opened Text

  datatype Option<T> = None | Some(value: T)

  /** A value, or the message of the `ValueError` the source raises. */
  datatype Result<T> = Ok(value: T) | Err(message: string)

  /** One catalog row. `genres` and `themes` keep their persisted pipe-delimited
      form ("Fantasy|YA"); `year` is None where the column holds no number, and
      `description` is None where the cell is empty. */
  datatype Book = Book(
    bookId: string,
    title: string,
    author: string,
    country: string,
    language: string,
    genres: string,
    themes: string,
    year: Option<int>,
    avgRating: real,
    ratingCount: int,
    description: Option<string>)

  /** The request record; `limit` defaults to 10 in the source. */
  datatype Request = Request(
    genres: seq<string>,
    authors: seq<string>,
    countries: seq<string>,
    languages: seq<string>,
    themes: seq<string>,
    minYear: Option<int>,
    maxYear: Option<int>,
    likedBooks: seq<string>,
    limit: int)

  /** The output record. */
  datatype RecommendedBook = RecommendedBook(
    bookId: string,
    title: string,
    author: string,
    country: Option<string>,
    language: Option<string>,
    genres: seq<string>,
    year: Option<int>,
    score: real,
    explanation: string)

  /** The popularity proxy `rating_count * avg_rating`. */
  function RatingProxy(b: Book): real {
    b.ratingCount as real * b.avgRating
  }

  function Ids(rows: seq<Book>): (ids: seq<string>)
    ensures |ids| == |rows|
    ensures forall i :: 0 <= i < |rows| ==> ids[i] == rows[i].bookId
  {
    seq(|rows|, i requires 0 <= i < |rows| => rows[i].bookId)
  }

  /** The set of ids of the rows (`set(df["book_id"])`). */
  function IdSet(rows: seq<Book>): set<string> {
    set r | r in rows :: r.bookId
  }

  /** Position of the last occurrence of `id`: the index a dict built by
      `{id: i for i, id in enumerate(ids)}` keeps. */
  function LastIndex(ids: seq<string>, id: string): (i: nat)
    requires id in ids
    ensures i < |ids| && ids[i] == id
    ensures forall j :: i < j < |ids| ==> ids[j] != id
  {
    if ids[|ids| - 1] == id then |ids| - 1 else LastIndex(ids[..|ids| - 1], id)
  }

  /** `{str(row["book_id"]): rating_count * avg_rating for row in rows}`: rows are
      visited in order and a later row with the same id overwrites an earlier one. */
  function ProxyScores(rows: seq<Book>): map<string, real> {
    if |rows| == 0 then map[]
    else ProxyScores(rows[..|rows| - 1])[rows[|rows| - 1].bookId := RatingProxy(rows[|rows| - 1])]
  }

  /** `df[df["book_id"] == id].iloc[0]`: the first row with that id, if any. */
  function FirstRow(rows: seq<Book>, id: string): (r: Option<Book>)
    ensures r.None? <==> id !in IdSet(rows)
    ensures r.Some? ==> r.value in rows && r.value.bookId == id
    ensures r.Some? ==> exists i :: 0 <= i < |rows| && rows[i] == r.value && forall j :: 0 <= j < i ==> rows[j].bookId != id
  {
    if |rows| == 0 then None
    else if rows[0].bookId == id then Some(rows[0])
    else
      assert IdSet(rows) == {rows[0].bookId} + IdSet(rows[1..]) by {
        assert rows == [rows[0]] + rows[1..];
      }
      FirstRow(rows[1..], id)
  }

  /** `d.get(k, 0.0)` */
  function Lookup(m: map<string, real>, k: string): real {
    if k in m then m[k] else 0.0
  }

  /** The proxy map scores every row id, each with the proxy of the LAST row that
      carries it, and nothing else. */
  lemma ProxyScoresLastRow(rows: seq<Book>)
    ensures ProxyScores(rows).Keys == IdSet(rows)
    ensures forall id :: id in ProxyScores(rows) ==>
              id in Ids(rows) && ProxyScores(rows)[id] == RatingProxy(rows[LastIndex(Ids(rows), id)])
  {
    ProxyKeys(rows);
    forall id | id in ProxyScores(rows)
      ensures id in Ids(rows) && ProxyScores(rows)[id] == RatingProxy(rows[LastIndex(Ids(rows), id)])
    {
      ProxyValue(rows, id);
    }
  }

  lemma {:induction false} ProxyKeys(rows: seq<Book>)
    ensures ProxyScores(rows).Keys == IdSet(rows)
  {
    if |rows| > 0 {
      ProxyKeys(rows[..|rows| - 1]);
      IdSetSnoc(rows);
    }
  }

  lemma IdSetSnoc(rows: seq<Book>)
    requires |rows| > 0
    ensures IdSet(rows) == IdSet(rows[..|rows| - 1]) + {rows[|rows| - 1].bookId}
  {
  }

  lemma {:induction false} ProxyValue(rows: seq<Book>, id: string)
    requires id in ProxyScores(rows)
    ensures id in Ids(rows) && ProxyScores(rows)[id] == RatingProxy(rows[LastIndex(Ids(rows), id)])
  {
    var init, last := rows[..|rows| - 1], rows[|rows| - 1];
    assert Ids(rows) == Ids(init) + [last.bookId];
    if id == last.bookId {
      assert Ids(rows)[|rows| - 1] == id;
    } else {
      ProxyValue(init, id);
      LastIndexSnoc(Ids(init), last.bookId, id);
      var i := LastIndex(Ids(init), id);
      assert rows[i] == init[i];
    }
  }

  /** Appending a different id keeps the last position of `id`. */
  lemma LastIndexSnoc(ids: seq<string>, x: string, id: string)
    requires id in ids && id != x
    ensures id in ids + [x] && LastIndex(ids + [x], id) == LastIndex(ids, id)
  {
  }

  /** The five-book catalog of the sample data. */
  const SampleBooks: seq<Book> := [
    Book("1", "Akata Witch", "Nnedi Okorafor", "Nigeria", "en", "Fantasy|YA",
         "Afrofuturism|Coming-of-age", Some(2011), 4.1, 25000,
         Some("A Nigerian-American girl discovers she is a Leopard Person with magical powers.")),
    Book("2", "Zahrah the Windseeker", "Nnedi Okorafor", "Nigeria", "en", "Fantasy",
         "Adventure|Coming-of-age", Some(2005), 4.0, 8000,
         Some("Zahrah navigates a fantastical jungle with unique flora and fauna.")),
    Book("3", "Rosewater", "Tade Thompson", "Nigeria", "en", "Science Fiction",
         "Afrofuturism|Aliens", Some(2016), 4.0, 12000,
         Some("A city in Nigeria thrives around an alien biodome with psychic phenomena.")),
    Book("4", "Kafka on the Shore", "Haruki Murakami", "Japan", "ja", "Magical Realism|Literary",
         "Surrealism|Coming-of-age", Some(2002), 4.1, 400000,
         Some("A metaphysical odyssey blending reality and dreamscapes in Japan.")),
    Book("5", "1Q84", "Haruki Murakami", "Japan", "ja", "Dystopian|Literary",
         "Parallel worlds|Mystery", Some(2009), 3.9, 350000,
         Some("An alternate 1984 Tokyo where reality subtly shifts."))
  ]
}
