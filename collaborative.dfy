/** The collaborative signal: an item co-occurrence table built from users'
    interaction baskets, a popularity prior, and the scoring of candidates by
    co-occurrence with the liked books plus a small popularity term. */
module Collaborative {
  import opened Text
  import opened Catalog

  /** One interaction-log row. */
  datatype Interaction = Interaction(userId: string, bookId: string, strength: real)

  /** What reading the interaction file yields: no file, a table without the three
      required columns, or the rows. */
  datatype InteractionLog = NoFile | MissingColumns | Rows(rows: seq<Interaction>)

  /** The co-occurrence table: book id -> (other book id -> count). */
  type Table = map<string, map<string, int>>

  /** `table.get(a, {}).get(b, 0)` */
  function Get(t: Table, a: string, b: string): int {
    if a in t && b in t[a] then t[a][b] else 0
  }

  /** `row.get(b, 0)` */
  function Count(row: map<string, int>, b: string): int {
    if b in row then row[b] else 0
  }

  /** Entries are only ever created by an increment, so every stored count is positive. */
  ghost predicate Positive(t: Table) {
    forall a, b :: a in t && b in t[a] ==> t[a][b] > 0
  }

  /** `t.setdefault(a, {}); t[a][b] = t[a].get(b, 0) + 1` */
  function Bump(t: Table, a: string, b: string): Table {
    var row := if a in t then t[a] else map[];
    t[a := row[b := Count(row, b) + 1]]
  }

  lemma BumpFacts(t: Table, a: string, b: string)
    ensures Bump(t, a, b).Keys == t.Keys + {a}
    ensures Positive(t) ==> Positive(Bump(t, a, b))
    ensures forall x, y :: Get(Bump(t, a, b), x, y) == Get(t, x, y) + (if x == a && y == b then 1 else 0)
  {
  }

  lemma RowCountSnoc(x: string, ys: seq<string>, y: string)
    ensures forall a, b :: RowCount(x, ys + [y], a, b) == RowCount(x, ys, a, b) + Hit(x, y, a, b)
  {
  }

  /** Table t holds `base` plus the pairs of `a` with each of `done`. */
  ghost predicate AddsRow(t: Table, base: Table, a: string, done: seq<string>) {
    forall x, y :: Get(t, x, y) == Get(base, x, y) + RowCount(a, done, x, y)
  }

  /** One pair update (`[a][b] += 1`, then `[b][a] += 1`) on a table that so far
      holds `base` plus the pairs of `a` with `done` leaves it holding `base` plus
      the pairs of `a` with `done + [b]`. */
  lemma PairStep(t: Table, base: Table, a: string, done: seq<string>, b: string)
    requires Positive(t)
    requires AddsRow(t, base, a, done)
    ensures var t' := Bump(Bump(t, a, b), b, a);
            Positive(t') && t'.Keys == t.Keys + {a, b} && AddsRow(t', base, a, done + [b])
  {
    BumpFacts(t, a, b);
    BumpFacts(Bump(t, a, b), b, a);
    RowCountSnoc(a, done, b);
  }

  /** Table t holds `base` plus the pairs of the basket s, except the pairs
      starting in the suffix `rest` that is still to be processed. */
  ghost predicate Pending(t: Table, base: Table, s: seq<string>, rest: seq<string>) {
    forall x, y :: Get(t, x, y) + BasketCount(rest, x, y) == Get(base, x, y) + BasketCount(s, x, y)
  }

  /** One position of the outer loop: opening the row of s[i] changes no count, and
      adding the pairs of s[i] with what follows it moves the position on by one. */
  lemma BasketStep(t: Table, prepared: Table, t': Table, base: Table, s: seq<string>, i: nat)
    requires i < |s| && Pending(t, base, s, s[i..])
    requires forall x, y :: Get(prepared, x, y) == Get(t, x, y)
    requires AddsRow(t', prepared, s[i], s[i + 1..])
    ensures Pending(t', base, s, s[i + 1..])
  {
  }

  /** The state of the outer loop of one basket before position i: the table holds
      `base` plus the pairs starting before i, every basket book has a row and is in
      the item set once a position has been processed, and the pair updates made
      so far are those of the processed positions. */
  ghost predicate InBasket(t: Table, items: set<string>, updates: nat,
                           base: Table, baseItems: set<string>, baseUpdates: nat, s: seq<string>, i: nat)
  {
    && i <= |s|
    && Pending(t, base, s, s[i..])
    && t.Keys == base.Keys + (if i == 0 then {} else Elems(s))
    && items == baseItems + (if i == 0 then {} else Elems(s))
    && updates + Pairs(|s| - i) == baseUpdates + Pairs(|s|)
  }

  /** The outer-loop step at position i, given what opening the row of s[i] and
      the inner loop did: `prepared` is the table once the row is open, `t'` the
      table after the inner loop, and the item set and update count before and
      after it. */
  lemma PositionStep(t: Table, prepared: Table, t': Table, items: set<string>, items': set<string>,
                     updates: nat, updates': nat, base: Table, baseItems: set<string>, baseUpdates: nat,
                     s: seq<string>, i: nat)
    requires i < |s|
    requires InBasket(t, items, updates, base, baseItems, baseUpdates, s, i)
    requires forall x, y :: Get(prepared, x, y) == Get(t, x, y)
    requires prepared.Keys == t.Keys + {s[i]}
    requires AddsRow(t', prepared, s[i], s[i + 1..])
    requires t'.Keys == prepared.Keys + Elems(s[i + 1..])
    requires items' == items + {s[i]} + Elems(s[i + 1..])
    requires updates' == updates + |s[i + 1..]|
    ensures InBasket(t', items', updates', base, baseItems, baseUpdates, s, i + 1)
  {
    BasketStep(t, prepared, t', base, s, i);
    ElemsFrom(s, i);
    PairsStep(|s| - i);
  }

  lemma PrefixSnoc(s: seq<string>, j: nat)
    requires j < |s|
    ensures s[..j + 1] == s[..j] + [s[j]]
    ensures Elems(s[..j + 1]) == Elems(s[..j]) + {s[j]}
  {
  }

  /** A position and what follows it lie inside the basket, and at the first
      position they make up all of it. */
  lemma ElemsFrom(s: seq<string>, i: nat)
    requires i < |s|
    ensures {s[i]} + Elems(s[i + 1..]) <= Elems(s)
    ensures i == 0 ==> {s[i]} + Elems(s[i + 1..]) == Elems(s)
  {
  }

  /** The table holds exactly the counts of the baskets `bs`. */
  ghost predicate Tabulates(t: Table, bs: seq<seq<string>>) {
    forall x, y :: Get(t, x, y) == CoocCount(bs, x, y)
  }

  lemma TabulatesStep(t: Table, t': Table, bs: seq<seq<string>>)
    requires |bs| > 0 && Tabulates(t, bs[..|bs| - 1])
    requires forall x, y :: Get(t', x, y) == Get(t, x, y) + BasketCount(bs[|bs| - 1], x, y)
    ensures Tabulates(t', bs)
  {
  }

  lemma BasketCountUnfold(s: seq<string>, i: nat)
    requires i < |s|
    ensures forall a, b :: BasketCount(s[i..], a, b) == RowCount(s[i], s[i + 1..], a, b) + BasketCount(s[i + 1..], a, b)
  {
  }

  // ---------------------------------------------------------------------
  // Specification of the counts

  /** What processing the pair (x, y) of one basket adds to entry (a, b):
      the update of `[x][y]` and the update of `[y][x]`. */
  function Hit(x: string, y: string, a: string, b: string): nat {
    (if x == a && y == b then 1 else 0) + (if x == b && y == a then 1 else 0)
  }

  /** Pairs (x, y) for every y of `ys`, taken in order. */
  function RowCount(x: string, ys: seq<string>, a: string, b: string): nat {
    if |ys| == 0 then 0 else RowCount(x, ys[..|ys| - 1], a, b) + Hit(x, ys[|ys| - 1], a, b)
  }

  /** All pairs (s[i], s[j]) with i < j of one basket. */
  function BasketCount(s: seq<string>, a: string, b: string): nat {
    if |s| == 0 then 0 else RowCount(s[0], s[1..], a, b) + BasketCount(s[1..], a, b)
  }

  /** Entry (a, b) of the table after processing the baskets `bs`. */
  function CoocCount(bs: seq<seq<string>>, a: string, b: string): nat {
    if |bs| == 0 then 0 else CoocCount(bs[..|bs| - 1], a, b) + BasketCount(bs[|bs| - 1], a, b)
  }

  /** n(n-1)/2, the number of pairs i < j among n positions. */
  function Pairs(n: nat): nat {
    if n == 0 then 0 else Pairs(n - 1) + (n - 1)
  }

  lemma PairsStep(m: nat)
    requires m > 0
    ensures Pairs(m) == Pairs(m - 1) + (m - 1)
  {
  }

  /** Number of pair updates made for the baskets `bs`. */
  function PairUpdates(bs: seq<seq<string>>): nat {
    if |bs| == 0 then 0 else PairUpdates(bs[..|bs| - 1]) + Pairs(|bs[|bs| - 1]|)
  }

  /** Every book of every basket. */
  function AllItems(bs: seq<seq<string>>): set<string> {
    if |bs| == 0 then {} else AllItems(bs[..|bs| - 1]) + Elems(bs[|bs| - 1])
  }

  // ---------------------------------------------------------------------
  // Grouping the log by user (`df.groupby("user_id")`)

  /** The distinct users of the log, in order of first appearance. `groupby`
      visits them sorted by user id instead; the tables built from the baskets
      are sums and unions over users, so the visiting order does not change them. */
  function Users(rows: seq<Interaction>): seq<string> {
    if |rows| == 0 then []
    else
      var us := Users(rows[..|rows| - 1]);
      if rows[|rows| - 1].userId in us then us else us + [rows[|rows| - 1].userId]
  }

  /** The books of one user's rows, in row order. */
  function Basket(rows: seq<Interaction>, u: string): seq<string> {
    if |rows| == 0 then []
    else Basket(rows[..|rows| - 1], u) + (if rows[|rows| - 1].userId == u then [rows[|rows| - 1].bookId] else [])
  }

  function Baskets(rows: seq<Interaction>): (bs: seq<seq<string>>)
    ensures |bs| == |Users(rows)|
  {
    var us := Users(rows);
    seq(|us|, k requires 0 <= k < |us| => Basket(rows, us[k]))
  }

  function BookSet(rows: seq<Interaction>): set<string> {
    set r | r in rows :: r.bookId
  }

  predicate Interacted(rows: seq<Interaction>, u: string, b: string) {
    exists i :: 0 <= i < |rows| && rows[i].userId == u && rows[i].bookId == b
  }

  /** Sum of `event_strength` over the rows of book b. */
  function StrengthSum(rows: seq<Interaction>, b: string): real {
    if |rows| == 0 then 0.0
    else StrengthSum(rows[..|rows| - 1], b) + (if rows[|rows| - 1].bookId == b then rows[|rows| - 1].strength else 0.0)
  }

  /** `df.groupby("book_id")["event_strength"].sum()` */
  function Popularity(rows: seq<Interaction>): map<string, real> {
    map b | b in BookSet(rows) :: StrengthSum(rows, b)
  }

  /** Sum over the liked ids, repeats included, of their counts with x. */
  function LikedSum(t: Table, liked: seq<string>, x: string): real {
    if |liked| == 0 then 0.0 else LikedSum(t, liked[..|liked| - 1], x) + Get(t, liked[|liked| - 1], x) as real
  }

  /** Every partner of a liked id that is in the table. */
  function Partners(t: Table, liked: seq<string>): set<string> {
    set lb, x | lb in liked && lb in t && x in t[lb] :: x
  }

  /** `{lower(title): id for row in candidates}`: a later row overwrites an earlier one. */
  function TitleIndex(candidates: seq<Book>): (index: map<string, string>)
    ensures forall t :: t in index <==> exists c :: c in candidates && Lower(c.title) == t
    ensures forall t :: t in index ==> exists c :: c in candidates && Lower(c.title) == t && c.bookId == index[t]
    ensures forall t :: t in index ==> TitleLastAt(candidates, t, index[t])
  {
    if |candidates| == 0 then map[]
    else
      var init := candidates[..|candidates| - 1];
      var last := candidates[|candidates| - 1];
      assert candidates == init + [last];
      var r := TitleIndex(init)[Lower(last.title) := last.bookId];
      assert forall t :: t in r ==> TitleLastAt(candidates, t, r[t]) by {
        forall t | t in r ensures TitleLastAt(candidates, t, r[t]) {
          TitleIndexStep(init, last, t, r[t]);
        }
      }
      r
  }

  /** Some row has lower-cased title `t` and id `id`, and no later row has that title. */
  predicate TitleLastAt(candidates: seq<Book>, t: string, id: string) {
    exists i :: 0 <= i < |candidates| && Lower(candidates[i].title) == t && candidates[i].bookId == id
                && forall j :: i < j < |candidates| ==> Lower(candidates[j].title) != t
  }

  lemma TitleIndexStep(init: seq<Book>, last: Book, t: string, id: string)
    requires t == Lower(last.title) ==> id == last.bookId
    requires t != Lower(last.title) ==> TitleLastAt(init, t, id)
    ensures TitleLastAt(init + [last], t, id)
  {
    var cs := init + [last];
    if t == Lower(last.title) {
      assert cs[|init|] == last;
    } else {
      var i :| 0 <= i < |init| && Lower(init[i].title) == t && init[i].bookId == id
               && forall j :: i < j < |init| ==> Lower(init[j].title) != t;
      assert cs[i] == init[i];
      forall j | i < j < |cs| ensures Lower(cs[j].title) != t {
        if j < |init| { assert cs[j] == init[j]; }
      }
    }
  }

  /** `[index[t] for t in titles if t in index]` */
  function ResolveTitles(titles: seq<string>, index: map<string, string>): (ids: seq<string>)
    ensures |ids| <= |titles|
    ensures ids == [] <==> forall i :: 0 <= i < |titles| ==> titles[i] !in index
    ensures forall id :: id in ids ==> exists t :: t in titles && t in index && index[t] == id
    ensures forall i :: 0 <= i < |titles| && titles[i] in index ==> index[titles[i]] in ids
  {
    if |titles| == 0 then []
    else
      var rest := ResolveTitles(titles[1..], index);
      assert forall t :: t in titles[1..] ==> t in titles;
      assert forall i :: 1 <= i < |titles| ==> titles[i] == titles[1..][i - 1];
      if titles[0] in index then [index[titles[0]]] + rest else rest
  }

  /** Resolution distributes over concatenation, so the ids come in the order of
      their titles, repeats included. */
  lemma {:induction false} ResolveAppend(a: seq<string>, b: seq<string>, index: map<string, string>)
    ensures ResolveTitles(a + b, index) == ResolveTitles(a, index) + ResolveTitles(b, index)
  {
    if |a| == 0 {
      assert a + b == b;
    } else {
      assert (a + b)[1..] == a[1..] + b;
      ResolveAppend(a[1..], b, index);
    }
  }

  /** Every indexed title yields its id, at the position counted by the indexed
      titles before it. */
  lemma ResolveKeeps(titles: seq<string>, index: map<string, string>, i: nat)
    requires i < |titles| && titles[i] in index
    ensures |ResolveTitles(titles[..i], index)| < |ResolveTitles(titles, index)|
    ensures ResolveTitles(titles, index)[|ResolveTitles(titles[..i], index)|] == index[titles[i]]
  {
    var tail := [titles[i]] + titles[i + 1..];
    assert titles == titles[..i] + tail;
    assert tail[1..] == titles[i + 1..];
    ResolveAppend(titles[..i], tail, index);
  }

  /** The liked titles resolved to candidate ids, case-insensitively and only
      against candidate titles. */
  function ResolveLiked(liked: seq<string>, candidates: seq<Book>): seq<string> {
    ResolveTitles(LowerAll(liked), TitleIndex(candidates))
  }

  // ---------------------------------------------------------------------
  // Lemmas about the counts

  lemma {:induction false} PairsClosedForm(n: nat)
    ensures 2 * Pairs(n) == n * (n - 1)
  {
    if n > 0 {
      PairsClosedForm(n - 1);
      assert (n - 1) * (n - 2) + 2 * (n - 1) == n * (n - 1);
    }
  }

  lemma {:induction false} RowCountClosedForm(x: string, ys: seq<string>, a: string, b: string)
    ensures RowCount(x, ys, a, b) ==
              (if x == a then multiset(ys)[b] else 0) + (if x == b then multiset(ys)[a] else 0)
  {
    if |ys| > 0 {
      var init := ys[..|ys| - 1];
      RowCountClosedForm(x, init, a, b);
      assert ys == init + [ys[|ys| - 1]];
      assert multiset(ys) == multiset(init) + multiset{ys[|ys| - 1]};
    }
  }

  lemma ClosedFormStep(ma: nat, mb: nat, xa: bool, xb: bool, same: bool)
    requires same ==> xa == xb && ma == mb
    requires !same ==> !(xa && xb)
    ensures var ma', mb' := ma + (if xa then 1 else 0), mb + (if xb then 1 else 0);
            (if same then ma' * (ma' - 1) else ma' * mb') ==
              (if xa then mb else 0) + (if xb then ma else 0) + (if same then ma * (ma - 1) else ma * mb)
  {
  }

  /** The count of a pair in one basket depends only on how often each book occurs in
      it: m(a)*m(b) for distinct books and m(a)*(m(a)-1) for a book with itself.
      The order of the basket (the source sorts it by event strength) is irrelevant. */
  lemma {:induction false} BasketCountClosedForm(s: seq<string>, a: string, b: string)
    ensures BasketCount(s, a, b) ==
              if a == b then multiset(s)[a] * (multiset(s)[a] as int - 1) else multiset(s)[a] * multiset(s)[b]
  {
    if |s| > 0 {
      var x, t := s[0], s[1..];
      assert s == [x] + t;
      BasketCountClosedForm(t, a, b);
      RowCountClosedForm(x, t, a, b);
      var ms, mt := multiset(s), multiset(t);
      assert ms == multiset{x} + mt;
      assert ms[a] == mt[a] + (if x == a then 1 else 0);
      assert ms[b] == mt[b] + (if x == b then 1 else 0);
      ClosedFormStep(mt[a], mt[b], x == a, x == b, a == b);
    }
  }

  /** The table the baskets produce is symmetric. */
  lemma {:induction false} CoocSymmetric(bs: seq<seq<string>>, a: string, b: string)
    ensures CoocCount(bs, a, b) == CoocCount(bs, b, a)
  {
    if |bs| > 0 {
      CoocSymmetric(bs[..|bs| - 1], a, b);
      BasketCountClosedForm(bs[|bs| - 1], a, b);
      BasketCountClosedForm(bs[|bs| - 1], b, a);
      var m := multiset(bs[|bs| - 1]);
      assert m[a] * m[b] == m[b] * m[a];
    }
  }

  /** Two distinct books have a positive count exactly when one basket holds both:
      there are no pairs across baskets. */
  /** One basket pairs two different books exactly when it holds both. */
  lemma BasketPositiveIffBoth(basket: seq<string>, a: string, b: string)
    requires a != b
    ensures BasketCount(basket, a, b) > 0 <==> a in basket && b in basket
  {
    BasketCountClosedForm(basket, a, b);
    var m := multiset(basket);
    if m[a] == 0 || m[b] == 0 {
      assert m[a] * m[b] == 0;
    } else {
      assert m[a] * m[b] >= 1 * m[b] >= 1;
    }
  }

  lemma {:induction false} CoocPositiveIffShared(bs: seq<seq<string>>, a: string, b: string)
    requires a != b
    ensures CoocCount(bs, a, b) > 0 <==> exists k :: 0 <= k < |bs| && a in bs[k] && b in bs[k]
  {
    if |bs| > 0 {
      var init, last := bs[..|bs| - 1], bs[|bs| - 1];
      CoocPositiveIffShared(init, a, b);
      BasketPositiveIffBoth(last, a, b);
      if exists k :: 0 <= k < |bs| && a in bs[k] && b in bs[k] {
        var k :| 0 <= k < |bs| && a in bs[k] && b in bs[k];
        if k < |bs| - 1 {
          assert init[k] == bs[k];
        }
      }
      if exists k :: 0 <= k < |init| && a in init[k] && b in init[k] {
        var k :| 0 <= k < |init| && a in init[k] && b in init[k];
        assert bs[k] == init[k];
      }
    }
  }

  lemma {:induction false} AllItemsMembership(bs: seq<seq<string>>, x: string)
    ensures x in AllItems(bs) <==> exists k :: 0 <= k < |bs| && x in bs[k]
  {
    if |bs| > 0 {
      var init := bs[..|bs| - 1];
      AllItemsMembership(init, x);
      if exists k :: 0 <= k < |init| && x in init[k] {
        var k :| 0 <= k < |init| && x in init[k];
        assert bs[k] == init[k];
      }
      if exists k :: 0 <= k < |bs| && x in bs[k] {
        var k :| 0 <= k < |bs| && x in bs[k];
        if k < |bs| - 1 { assert init[k] == bs[k]; }
      }
    }
  }

  lemma {:induction false} UsersMembership(rows: seq<Interaction>, u: string)
    ensures u in Users(rows) <==> exists i :: 0 <= i < |rows| && rows[i].userId == u
  {
    if |rows| > 0 {
      var init := rows[..|rows| - 1];
      UsersMembership(init, u);
      if exists i :: 0 <= i < |init| && init[i].userId == u {
        var i :| 0 <= i < |init| && init[i].userId == u;
        assert rows[i] == init[i];
      }
      if exists i :: 0 <= i < |rows| && rows[i].userId == u {
        var i :| 0 <= i < |rows| && rows[i].userId == u;
        if i < |rows| - 1 { assert init[i] == rows[i]; }
      }
    }
  }

  lemma {:induction false} BasketMembership(rows: seq<Interaction>, u: string, b: string)
    ensures b in Basket(rows, u) <==> Interacted(rows, u, b)
  {
    if |rows| > 0 {
      var init := rows[..|rows| - 1];
      BasketMembership(init, u, b);
      if Interacted(init, u, b) {
        var i :| 0 <= i < |init| && init[i].userId == u && init[i].bookId == b;
        assert rows[i] == init[i];
      }
      if Interacted(rows, u, b) {
        var i :| 0 <= i < |rows| && rows[i].userId == u && rows[i].bookId == b;
        if i < |rows| - 1 { assert init[i] == rows[i]; }
      }
    }
  }

  /** Grouping by user loses no book: the baskets hold exactly the books of the log. */
  lemma BasketsCoverLog(rows: seq<Interaction>)
    ensures AllItems(Baskets(rows)) == BookSet(rows)
  {
    var bs := Baskets(rows);
    var us := Users(rows);
    forall x ensures x in AllItems(bs) <==> x in BookSet(rows) {
      AllItemsMembership(bs, x);
      if x in AllItems(bs) {
        var k :| 0 <= k < |bs| && x in bs[k];
        BasketMembership(rows, us[k], x);
      }
      if x in BookSet(rows) {
        var i :| 0 <= i < |rows| && rows[i].bookId == x;
        UsersMembership(rows, rows[i].userId);
        var k :| 0 <= k < |us| && us[k] == rows[i].userId;
        BasketMembership(rows, us[k], x);
        assert x in bs[k];
      }
    }
  }

  /** Two distinct books co-occur in the fitted table exactly when one user
      interacted with both. */
  lemma CooccurrenceMeansSharedUser(rows: seq<Interaction>, a: string, b: string)
    requires a != b
    ensures CoocCount(Baskets(rows), a, b) > 0 <==> exists u :: Interacted(rows, u, a) && Interacted(rows, u, b)
  {
    var bs := Baskets(rows);
    var us := Users(rows);
    CoocPositiveIffShared(bs, a, b);
    if CoocCount(bs, a, b) > 0 {
      var k :| 0 <= k < |bs| && a in bs[k] && b in bs[k];
      BasketMembership(rows, us[k], a);
      BasketMembership(rows, us[k], b);
    }
    if exists u :: Interacted(rows, u, a) && Interacted(rows, u, b) {
      var u :| Interacted(rows, u, a) && Interacted(rows, u, b);
      var i :| 0 <= i < |rows| && rows[i].userId == u && rows[i].bookId == a;
      UsersMembership(rows, u);
      var k :| 0 <= k < |us| && us[k] == u;
      BasketMembership(rows, u, a);
      BasketMembership(rows, u, b);
      assert a in bs[k] && b in bs[k];
    }
  }

  /** Popularity is the running sum of strengths: appending a row adds its strength
      to its own book and to no other. */
  lemma PopularityAppend(rows: seq<Interaction>, r: Interaction)
    ensures Popularity(rows + [r]) == Popularity(rows)[r.bookId := Lookup(Popularity(rows), r.bookId) + r.strength]
  {
    var before, after := Popularity(rows), Popularity(rows + [r]);
    var target := before[r.bookId := Lookup(before, r.bookId) + r.strength];
    BookSetSnoc(rows, r);
    forall b | b in after ensures after[b] == target[b] {
      StrengthSumSnoc(rows, r, b);
      if b == r.bookId && b !in before {
        StrengthSumAbsent(rows, b);
      }
    }
    assert after == target;
  }

  lemma BookSetSnoc(rows: seq<Interaction>, r: Interaction)
    ensures BookSet(rows + [r]) == BookSet(rows) + {r.bookId}
  {
  }

  lemma StrengthSumSnoc(rows: seq<Interaction>, r: Interaction, b: string)
    ensures StrengthSum(rows + [r], b) == StrengthSum(rows, b) + (if r.bookId == b then r.strength else 0.0)
  {
  }

  lemma {:induction false} StrengthSumAbsent(rows: seq<Interaction>, b: string)
    requires b !in BookSet(rows)
    ensures StrengthSum(rows, b) == 0.0
  {
    if |rows| > 0 {
      var init := rows[..|rows| - 1];
      assert BookSet(init) <= BookSet(rows) by {
        forall x | x in BookSet(init) ensures x in BookSet(rows) {
          var r :| r in init && r.bookId == x;
          assert r in rows;
        }
      }
      StrengthSumAbsent(init, b);
      assert rows[|rows| - 1] in rows;
    }
  }

  lemma {:induction false} LikedSumOutsidePartners(t: Table, liked: seq<string>, x: string)
    requires x !in Partners(t, liked)
    ensures LikedSum(t, liked, x) == 0.0
  {
    if |liked| > 0 {
      var init, lb := liked[..|liked| - 1], liked[|liked| - 1];
      assert Partners(t, init) <= Partners(t, liked) by {
        forall y | y in Partners(t, init) ensures y in Partners(t, liked) {
          var l :| l in init && l in t && y in t[l];
          assert l in liked;
        }
      }
      LikedSumOutsidePartners(t, init, x);
      assert lb in liked;
      assert !(lb in t && x in t[lb]);
    }
  }

  // ---------------------------------------------------------------------
  // The sample interaction log

  const SampleInteractions: seq<Interaction> := [
    Interaction("u1", "1", 3.0), Interaction("u1", "2", 1.0),
    Interaction("u2", "1", 4.0), Interaction("u2", "3", 2.0),
    Interaction("u3", "4", 5.0), Interaction("u3", "5", 1.0)
  ]

  /** The sample log built up row by row. */
  function SamplePrefix(n: nat): seq<Interaction>
    requires n <= |SampleInteractions|
  {
    SampleInteractions[..n]
  }

  lemma SamplePrefixStep(n: nat)
    requires 0 < n <= |SampleInteractions|
    ensures SamplePrefix(n)[..n - 1] == SamplePrefix(n - 1)
    ensures SamplePrefix(n)[n - 1] == SampleInteractions[n - 1]
  {
  }

  lemma SampleUsers()
    ensures Users(SampleInteractions) == ["u1", "u2", "u3"]
  {
    SamplePrefixStep(1);
    SamplePrefixStep(2);
    SamplePrefixStep(3);
    SamplePrefixStep(4);
    SamplePrefixStep(5);
    SamplePrefixStep(6);
    assert SamplePrefix(6) == SampleInteractions;
    assert Users(SamplePrefix(1)) == ["u1"];
    assert Users(SamplePrefix(2)) == ["u1"];
    assert Users(SamplePrefix(3)) == ["u1", "u2"];
    assert Users(SamplePrefix(4)) == ["u1", "u2"];
    assert Users(SamplePrefix(5)) == ["u1", "u2", "u3"];
  }

  lemma SampleBasketOf(u: string)
    ensures Basket(SampleInteractions, u) ==
              if u == "u1" then ["1", "2"] else if u == "u2" then ["1", "3"] else if u == "u3" then ["4", "5"] else []
  {
    var b1 := SampleBasketStep(1, u, []);
    var b2 := SampleBasketStep(2, u, b1);
    var b3 := SampleBasketStep(3, u, b2);
    var b4 := SampleBasketStep(4, u, b3);
    var b5 := SampleBasketStep(5, u, b4);
    var b6 := SampleBasketStep(6, u, b5);
    assert SamplePrefix(6) == SampleInteractions;
    if u == "u1" {
      assert b6 == ["1", "2"];
    } else if u == "u2" {
      assert b6 == ["1", "3"];
    } else if u == "u3" {
      assert b6 == ["4", "5"];
    } else {
      assert b6 == [];
    }
  }

  /** One more row of the sample log: the basket grows by that row's book when the
      row belongs to `u`. */
  lemma SampleBasketStep(n: nat, u: string, before: seq<string>) returns (after: seq<string>)
    requires 0 < n <= |SampleInteractions|
    requires Basket(SamplePrefix(n - 1), u) == before
    ensures after == before + (if SampleInteractions[n - 1].userId == u then [SampleInteractions[n - 1].bookId] else [])
    ensures Basket(SamplePrefix(n), u) == after
  {
    SamplePrefixStep(n);
    after := before + (if SampleInteractions[n - 1].userId == u then [SampleInteractions[n - 1].bookId] else []);
  }

  /** Grouping the sample log gives the users in order of appearance, each with the
      books of their rows. */
  lemma SampleBaskets()
    ensures Baskets(SampleInteractions) == [["1", "2"], ["1", "3"], ["4", "5"]]
  {
    SampleUsers();
    SampleBasketOf("u1");
    SampleBasketOf("u2");
    SampleBasketOf("u3");
  }

  lemma SampleCount(a: string, b: string)
    ensures CoocCount(Baskets(SampleInteractions), a, b) ==
              BasketCount(["1", "2"], a, b) + BasketCount(["1", "3"], a, b) + BasketCount(["4", "5"], a, b)
  {
    SampleBaskets();
    var bs: seq<seq<string>> := [["1", "2"], ["1", "3"], ["4", "5"]];
    assert bs[..2] == [["1", "2"], ["1", "3"]];
    assert bs[..2][..1] == [["1", "2"]];
    assert bs[..2][..1][..0] == [];
    assert CoocCount(bs[..2][..1], a, b) == BasketCount(["1", "2"], a, b);
    assert CoocCount(bs[..2], a, b) == BasketCount(["1", "2"], a, b) + BasketCount(["1", "3"], a, b);
  }

  /** A two-book basket holds the single pair of its books. */
  lemma TwoBookBasket(x: string, y: string, a: string, b: string)
    ensures BasketCount([x, y], a, b) == Hit(x, y, a, b)
  {
    assert [x, y][1..] == [y];
    assert [y][1..] == [] && [y][..0] == [];
    assert RowCount(x, [y], a, b) == Hit(x, y, a, b);
    assert BasketCount([y], a, b) == 0;
  }

  /** On the sample log the table links 1-2, 1-3 and 4-5 once each and nothing across
      the two clusters. */
  lemma SampleCooccurrence()
    ensures CoocCount(Baskets(SampleInteractions), "1", "2") == 1
    ensures CoocCount(Baskets(SampleInteractions), "1", "3") == 1
    ensures CoocCount(Baskets(SampleInteractions), "4", "5") == 1
    ensures CoocCount(Baskets(SampleInteractions), "1", "4") == 0
  {
    SamplePair("1", "2");
    SamplePair("1", "3");
    SamplePair("4", "5");
    SamplePair("1", "4");
  }

  lemma SamplePair(a: string, b: string)
    ensures CoocCount(Baskets(SampleInteractions), a, b) == Hit("1", "2", a, b) + Hit("1", "3", a, b) + Hit("4", "5", a, b)
  {
    SampleCount(a, b);
    TwoBookBasket("1", "2", a, b);
    TwoBookBasket("1", "3", a, b);
    TwoBookBasket("4", "5", a, b);
  }

  // ---------------------------------------------------------------------
  // The two accumulation loops of the scoring

  /** The scores hold, for every book, its summed counts with the liked ids. */
  ghost predicate SumsLiked(scores: map<string, real>, t: Table, liked: seq<string>) {
    forall x :: Lookup(scores, x) == LikedSum(t, liked, x)
  }

  /** One more liked id adds its row of the table, if it has one. */
  lemma LikedStep(t: Table, liked: seq<string>)
    requires |liked| > 0
    ensures var lb := liked[|liked| - 1];
            && Partners(t, liked) == Partners(t, liked[..|liked| - 1]) + (if lb in t then t[lb].Keys else {})
            && forall x :: LikedSum(t, liked, x) ==
                 LikedSum(t, liked[..|liked| - 1], x) + (if lb in t then Count(t[lb], x) as real else 0.0)
  {
  }

  /** `for other, cnt in row.items(): scores[other] = scores.get(other, 0.0) + float(cnt)` */
  method AddCounts(scores: map<string, real>, row: map<string, int>) returns (r: map<string, real>)
    ensures r.Keys == scores.Keys + row.Keys
    ensures forall x :: Lookup(r, x) == Lookup(scores, x) + Count(row, x) as real
  {
    r := scores;
    var rest := row.Keys;
    while rest != {}
      invariant rest <= row.Keys
      invariant r.Keys == scores.Keys + (row.Keys - rest)
      invariant forall x :: Lookup(r, x) == Lookup(scores, x) + (if x in row && x !in rest then row[x] as real else 0.0)
      decreases rest
    {
      var other :| other in rest;
      r := r[other := Lookup(r, other) + row[other] as real];
      rest := rest - {other};
    }
  }

  /** `for item, prior in popularity.items(): scores[item] = scores.get(item, 0.0) + 0.05 * prior` */
  method AddPrior(scores: map<string, real>, popularity: map<string, real>) returns (r: map<string, real>)
    ensures r.Keys == scores.Keys + popularity.Keys
    ensures forall x :: Lookup(r, x) == Lookup(scores, x) + 0.05 * Lookup(popularity, x)
  {
    r := scores;
    var rest := popularity.Keys;
    while rest != {}
      invariant rest <= popularity.Keys
      invariant r.Keys == scores.Keys + (popularity.Keys - rest)
      invariant forall x :: Lookup(r, x) == Lookup(scores, x) + (if x !in rest then 0.05 * Lookup(popularity, x) else 0.0)
      decreases rest
    {
      var item :| item in rest;
      r := r[item := Lookup(r, item) + 0.05 * popularity[item]];
      rest := rest - {item};
    }
  }

  /** `{bid: s for bid, s in scores.items() if bid in ids}` */
  function Restrict(scores: map<string, real>, ids: set<string>): (r: map<string, real>)
    ensures r.Keys == scores.Keys * ids
    ensures forall x :: x in r ==> r[x] == Lookup(scores, x)
  {
    map x | x in scores && x in ids :: scores[x]
  }

  /** The proxy scores of a non-empty candidate list are non-empty and keyed by
      candidate ids. */
  lemma ProxyScoresCover(candidates: seq<Book>)
    requires candidates != []
    ensures |ProxyScores(candidates)| > 0 && ProxyScores(candidates).Keys <= IdSet(candidates)
  {
  }

  // ---------------------------------------------------------------------
  // The recommender object

  class CollaborativeRecommender {
    /** The interaction table kept by the last successful fit (`user_item`). */
    var userItem: Option<seq<Interaction>>
    var itemPopularity: map<string, real>
    var cooccurrence: Table
    /** Every book seen in a basket; never cleared between fits. */
    var itemsSet: set<string>
    /** Number of pair updates made by the last fit from a log. */
    ghost var pairUpdates: nat

    ghost predicate Valid()
      reads this
    {
      Positive(cooccurrence)
    }

    constructor ()
      ensures Valid()
      ensures userItem == None && itemPopularity == map[] && cooccurrence == map[]
      ensures itemsSet == {} && pairUpdates == 0
    {
      userItem := None;
      itemPopularity := map[];
      cooccurrence := map[];
      itemsSet := {};
      pairUpdates := 0;
    }

    /** The body of the per-user loop of `fit`: every pair i < j of the basket
        increments both `[s[i]][s[j]]` and `[s[j]][s[i]]`. */
    method AddBasket(s: seq<string>)
      requires Valid()
      modifies this`cooccurrence, this`itemsSet, this`pairUpdates
      ensures Valid()
      ensures forall a, b :: Get(cooccurrence, a, b) == Get(old(cooccurrence), a, b) + BasketCount(s, a, b)
      ensures cooccurrence.Keys == old(cooccurrence).Keys + Elems(s)
      ensures itemsSet == old(itemsSet) + Elems(s)
      ensures pairUpdates == old(pairUpdates) + Pairs(|s|)
    {
      ghost var base, baseItems, baseUpdates := cooccurrence, itemsSet, pairUpdates;
      for i := 0 to |s|
        invariant Positive(cooccurrence)
        invariant InBasket(cooccurrence, itemsSet, pairUpdates, base, baseItems, baseUpdates, s, i)
      {
        AddPosition(s, i, base, baseItems, baseUpdates);
      }
      assert s[|s|..] == [];
    }

    /** One pass of the outer loop of `fit` over a basket: position i opens the row
        of s[i] and adds its pairs with every later book. */
    method AddPosition(s: seq<string>, i: nat, ghost base: Table, ghost baseItems: set<string>, ghost baseUpdates: nat)
      requires i < |s| && Valid()
      requires InBasket(cooccurrence, itemsSet, pairUpdates, base, baseItems, baseUpdates, s, i)
      modifies this`cooccurrence, this`itemsSet, this`pairUpdates
      ensures Valid()
      ensures InBasket(cooccurrence, itemsSet, pairUpdates, base, baseItems, baseUpdates, s, i + 1)
    {
      var a := s[i];
      ghost var before, items, updates := cooccurrence, itemsSet, pairUpdates;
      itemsSet := itemsSet + {a};
      if a !in cooccurrence {
        cooccurrence := cooccurrence[a := map[]];
      }
      ghost var prepared := cooccurrence;
      AddPairs(a, s[i + 1..]);
      PositionStep(before, prepared, cooccurrence, items, itemsSet, updates, pairUpdates,
                   base, baseItems, baseUpdates, s, i);
    }

    /** The inner loop of `fit` for one position of a basket, given the book `a` at
        that position and the books `later` after it: for each later book b in
        turn, `[a][b]` and then `[b][a]` go up by one. */
    method AddPairs(a: string, later: seq<string>)
      requires Valid() && a in cooccurrence
      modifies this`cooccurrence, this`itemsSet, this`pairUpdates
      ensures Valid()
      ensures AddsRow(cooccurrence, old(cooccurrence), a, later)
      ensures cooccurrence.Keys == old(cooccurrence).Keys + Elems(later)
      ensures itemsSet == old(itemsSet) + Elems(later)
      ensures pairUpdates == old(pairUpdates) + |later|
    {
      for j := 0 to |later|
        invariant Positive(cooccurrence) && a in cooccurrence
        invariant AddsRow(cooccurrence, old(cooccurrence), a, later[..j])
        invariant cooccurrence.Keys == old(cooccurrence).Keys + Elems(later[..j])
        invariant itemsSet == old(itemsSet) + Elems(later[..j])
        invariant pairUpdates == old(pairUpdates) + j
      {
        var b := later[j];
        itemsSet := itemsSet + {b};
        PairStep(cooccurrence, old(cooccurrence), a, later[..j], b);
        cooccurrence := Bump(cooccurrence, a, b);
        cooccurrence := Bump(cooccurrence, b, a);
        pairUpdates := pairUpdates + 1;
        PrefixSnoc(later, j);
      }
      assert later[..|later|] == later;
    }

    /** `fit`: without a log, the popularity of every catalog row becomes its rating
        proxy (the table is left as it is); with a log lacking the required columns
        nothing changes; otherwise popularity is the strength total per book and the
        table is rebuilt from the users' baskets. */
    method Fit(log: InteractionLog, books: seq<Book>)
      requires Valid()
      modifies this
      ensures Valid()
      ensures log.NoFile? ==>
                && itemPopularity == old(itemPopularity) + ProxyScores(books)
                && cooccurrence == old(cooccurrence) && itemsSet == old(itemsSet)
                && userItem == old(userItem) && pairUpdates == old(pairUpdates)
      ensures log.MissingColumns? ==> unchanged(this)
      ensures log.Rows? ==>
                && userItem == Some(log.rows)
                && itemPopularity == Popularity(log.rows)
                && (forall a, b :: Get(cooccurrence, a, b) == CoocCount(Baskets(log.rows), a, b))
                && (forall a, b :: Get(cooccurrence, a, b) == Get(cooccurrence, b, a))
                && cooccurrence.Keys == BookSet(log.rows)
                && itemsSet == old(itemsSet) + BookSet(log.rows)
                && pairUpdates == PairUpdates(Baskets(log.rows))
    {
      match log
      case NoFile =>
        FitFromCatalog(books);
      case MissingColumns =>
      case Rows(rows) =>
        FitFromLog(rows);
    }

    /** The branch of `fit` without a log: every catalog row, in order, sets the
        popularity of its id to its rating proxy. */
    method FitFromCatalog(books: seq<Book>)
      modifies this`itemPopularity
      ensures itemPopularity == old(itemPopularity) + ProxyScores(books)
    {
      for i := 0 to |books|
        invariant itemPopularity == old(itemPopularity) + ProxyScores(books[..i])
      {
        assert books[..i + 1][..i] == books[..i];
        itemPopularity := itemPopularity[books[i].bookId := RatingProxy(books[i])];
      }
      assert books[..|books|] == books;
    }

    /** The branch of `fit` with a log: popularity is the strength total per book and
        the table is rebuilt from the users' baskets, user by user. */
    method FitFromLog(rows: seq<Interaction>)
      requires Valid()
      modifies this`userItem, this`itemPopularity, this`cooccurrence, this`itemsSet, this`pairUpdates
      ensures Valid()
      ensures userItem == Some(rows)
      ensures itemPopularity == Popularity(rows)
      ensures forall a, b :: Get(cooccurrence, a, b) == CoocCount(Baskets(rows), a, b)
      ensures forall a, b :: Get(cooccurrence, a, b) == Get(cooccurrence, b, a)
      ensures cooccurrence.Keys == BookSet(rows)
      ensures itemsSet == old(itemsSet) + BookSet(rows)
      ensures pairUpdates == PairUpdates(Baskets(rows))
    {
      userItem := Some(rows);
      itemPopularity := Popularity(rows);
      cooccurrence := map[];
      pairUpdates := 0;
      var users := Users(rows);
      ghost var bs := Baskets(rows);
      for k := 0 to |users|
        invariant Valid()
        invariant userItem == Some(rows) && itemPopularity == Popularity(rows)
        invariant Tabulates(cooccurrence, bs[..k])
        invariant cooccurrence.Keys == AllItems(bs[..k])
        invariant itemsSet == old(itemsSet) + AllItems(bs[..k])
        invariant pairUpdates == PairUpdates(bs[..k])
      {
        ghost var before := cooccurrence;
        var basket := Basket(rows, users[k]);
        AddBasket(basket);
        assert bs[..k + 1][..k] == bs[..k] && bs[..k + 1][k] == basket;
        TabulatesStep(before, cooccurrence, bs[..k + 1]);
      }
      assert bs[..|users|] == bs;
      BasketsCoverLog(rows);
      forall a, b ensures Get(cooccurrence, a, b) == Get(cooccurrence, b, a) {
        CoocSymmetric(bs, a, b);
      }
    }

    /** `_score_by_cooccurrence`: every partner of a liked id gets the sum of its
        counts with the liked ids (repeats counted again, ids outside the table
        contributing nothing), and every book with a prior gets 0.05 times it. */
    method ScoreByCooccurrence(liked: seq<string>) returns (scores: map<string, real>)
      ensures scores.Keys == Partners(cooccurrence, liked) + itemPopularity.Keys
      ensures forall x :: Lookup(scores, x) ==
                LikedSum(cooccurrence, liked, x) + 0.05 * Lookup(itemPopularity, x)
    {
      scores := map[];
      for i := 0 to |liked|
        invariant scores.Keys == Partners(cooccurrence, liked[..i])
        invariant SumsLiked(scores, cooccurrence, liked[..i])
      {
        var lb := liked[i];
        LikedStep(cooccurrence, liked[..i + 1]);
        assert liked[..i + 1][..i] == liked[..i];
        if lb in cooccurrence {
          scores := AddCounts(scores, cooccurrence[lb]);
        }
      }
      assert liked[..|liked|] == liked;
      scores := AddPrior(scores, itemPopularity);
    }

    /** `score_candidates` */
    method ScoreCandidates(request: Request, candidates: seq<Book>) returns (r: map<string, real>)
      ensures candidates == [] ==> r == map[]
      ensures candidates != [] ==> |r| > 0 && r.Keys <= IdSet(candidates)
      ensures candidates != [] && ResolveLiked(request.likedBooks, candidates) == [] && itemPopularity == map[] ==>
                r == ProxyScores(candidates)
      ensures var liked := ResolveLiked(request.likedBooks, candidates);
              var keep := (Partners(cooccurrence, liked) + itemPopularity.Keys) * IdSet(candidates);
              candidates != [] && !(liked == [] && itemPopularity == map[]) ==>
                && (keep == {} ==> r == ProxyScores(candidates))
                && (keep != {} ==>
                      && r.Keys == keep
                      && forall x :: x in r ==> r[x] == LikedSum(cooccurrence, liked, x) + 0.05 * Lookup(itemPopularity, x))
    {
      if |candidates| == 0 {
        return map[];
      }
      var candidateIds := IdSet(candidates);
      var likedTitles := LowerAll(request.likedBooks);
      var titleToId := TitleIndex(candidates);
      var likedIds := ResolveTitles(likedTitles, titleToId);
      assert likedIds == ResolveLiked(request.likedBooks, candidates);
      ProxyScoresCover(candidates);
      if |likedIds| == 0 && |itemPopularity| == 0 {
        return ProxyScores(candidates);
      }
      var coScores := ScoreByCooccurrence(likedIds);
      r := Restrict(coScores, candidateIds);
      if r == map[] {
        r := ProxyScores(candidates);
      }
    }
  }
}
