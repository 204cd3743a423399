/** String helpers with the Python semantics the recommender relies on:
    ASCII `str.lower`, `str.isspace`/`str.strip`, `sep.join(parts)`,
    `s.split(c)` for a one-character separator, `s.replace(a, b)` for one
    character, and the `in` operator on strings (substring containment). */
module Text {

  /** ASCII lower-casing of one character; every other character is left alone. */
  function LowerChar(c: char): char {
    if 'A' <= c <= 'Z' then (c as int + 32) as char else c
  }

  function Lower(s: string): (r: string)
    ensures |r| == |s|
  {
    seq(|s|, i requires 0 <= i < |s| => LowerChar(s[i]))
  }

  function LowerAll(ss: seq<string>): (r: seq<string>)
    ensures |r| == |ss|
  {
    seq(|ss|, i requires 0 <= i < |ss| => Lower(ss[i]))
  }

  function Elems(ss: seq<string>): set<string> {
    set x | x in ss
  }

  /** Python's `str.isspace` for code points below U+0100. */
  predicate IsSpace(c: char) {
    var n := c as int;
    n == 32 || 9 <= n <= 13 || 28 <= n <= 31 || n == 133 || n == 160
  }

  /** `not s.strip()`: the string is empty or holds only whitespace. */
  predicate IsBlank(s: string) {
    forall i :: 0 <= i < |s| ==> IsSpace(s[i])
  }

  function TrimStart(s: string): string {
    if |s| > 0 && IsSpace(s[0]) then TrimStart(s[1..]) else s
  }

  function TrimEnd(s: string): string {
    if |s| > 0 && IsSpace(s[|s| - 1]) then TrimEnd(s[..|s| - 1]) else s
  }

  /** `s.strip()` */
  function Strip(s: string): string {
    TrimEnd(TrimStart(s))
  }

  /** `s.replace(a, b)` for single characters. */
  function ReplaceChar(s: string, a: char, b: char): (r: string)
    ensures |r| == |s|
  {
    seq(|s|, i requires 0 <= i < |s| => if s[i] == a then b else s[i])
  }

  /** `sep.join(parts)` */
  function Join(parts: seq<string>, sep: string): string {
    if |parts| == 0 then ""
    else if |parts| == 1 then parts[0]
    else parts[0] + sep + Join(parts[1..], sep)
  }

  /** `s.split(c)`: always at least one piece; `"".split(c) == [""]`. */
  function Split(s: string, c: char): (r: seq<string>)
    ensures |r| >= 1
  {
    if |s| == 0 then [""]
    else
      var rest := Split(s[1..], c);
      if s[0] == c then [""] + rest else [[s[0]] + rest[0]] + rest[1..]
  }

  /** The pieces of every part, in order: what splitting each part separately gives. */
  function SplitEach(parts: seq<string>, c: char): seq<string> {
    if |parts| == 0 then [] else Split(parts[0], c) + SplitEach(parts[1..], c)
  }

  predicate IsPrefix(sub: string, s: string) {
    |sub| <= |s| && s[..|sub|] == sub
  }

  /** Python's `sub in s`. */
  predicate Contains(s: string, sub: string) {
    IsPrefix(sub, s) || (|s| > 0 && Contains(s[1..], sub))
  }

  // ---------------------------------------------------------------------
  // Lemmas

  lemma {:induction false} SplitWithoutSeparator(p: string, c: char)
    requires c !in p
    ensures Split(p, c) == [p]
  {
    if |p| > 0 {
      SplitWithoutSeparator(p[1..], c);
      assert [p[0]] + p[1..] == p;
    }
  }

  /** Splitting at one separator occurrence splits the two sides independently. */
  lemma {:induction false} SplitConcat(a: string, b: string, c: char)
    ensures Split(a + [c] + b, c) == Split(a, c) + Split(b, c)
  {
    var s := a + [c] + b;
    if |a| == 0 {
      assert s[1..] == b;
    } else {
      assert s[1..] == a[1..] + [c] + b;
      SplitConcat(a[1..], b, c);
      var x, y := Split(a[1..], c), Split(b, c);
      if a[0] == c {
        assert Split(s, c) == [""] + (x + y);
      } else {
        assert (x + y)[0] == x[0] && (x + y)[1..] == x[1..] + y;
        assert Split(s, c) == [[a[0]] + x[0]] + (x[1..] + y);
      }
    }
  }

  /** Splitting a join at the separator yields the pieces of every part, in order. */
  lemma {:induction false} SplitJoin(parts: seq<string>, c: char)
    requires |parts| >= 1
    ensures Split(Join(parts, [c]), c) == SplitEach(parts, c)
  {
    if |parts| == 1 {
      assert SplitEach(parts[1..], c) == [];
    } else {
      SplitJoin(parts[1..], c);
      SplitConcat(parts[0], Join(parts[1..], [c]), c);
    }
  }

  lemma {:induction false} SplitEachIdentity(parts: seq<string>, c: char)
    requires forall i :: 0 <= i < |parts| ==> c !in parts[i]
    ensures SplitEach(parts, c) == parts
  {
    if |parts| > 0 {
      SplitWithoutSeparator(parts[0], c);
      SplitEachIdentity(parts[1..], c);
    }
  }

  /** Round trip: `sep.join` followed by `split(sep)` gives the parts back when no
      part holds the separator. */
  lemma SplitJoinRoundTrip(parts: seq<string>, c: char)
    requires |parts| >= 1
    requires forall i :: 0 <= i < |parts| ==> c !in parts[i]
    ensures Split(Join(parts, [c]), c) == parts
  {
    SplitJoin(parts, c);
    SplitEachIdentity(parts, c);
  }

  lemma {:induction false} JoinChars(parts: seq<string>, sep: string, ch: char)
    requires ch in Join(parts, sep)
    ensures ch in sep || exists i :: 0 <= i < |parts| && ch in parts[i]
  {
    if |parts| > 1 {
      var rest := Join(parts[1..], sep);
      assert ch in parts[0] || ch in sep || ch in rest;
      if ch in rest && ch !in sep {
        JoinChars(parts[1..], sep, ch);
        var i :| 0 <= i < |parts[1..]| && ch in parts[1..][i];
        assert ch in parts[i + 1];
      }
    }
  }

  /** A space-joined text is blank exactly when every part is blank. */
  lemma {:induction false} JoinBlank(parts: seq<string>)
    ensures IsBlank(Join(parts, " ")) <==> forall i :: 0 <= i < |parts| ==> IsBlank(parts[i])
  {
    if |parts| > 1 {
      JoinBlank(parts[1..]);
      var rest := Join(parts[1..], " ");
      var whole := parts[0] + " " + rest;
      assert IsBlank(whole) <==> IsBlank(parts[0]) && IsBlank(rest) by {
        if IsBlank(whole) {
          forall i | 0 <= i < |parts[0]| ensures IsSpace(parts[0][i]) { assert whole[i] == parts[0][i]; }
          forall i | 0 <= i < |rest| ensures IsSpace(rest[i]) { assert whole[|parts[0]| + 1 + i] == rest[i]; }
        }
      }
      if IsBlank(whole) {
        forall i | 0 <= i < |parts| ensures IsBlank(parts[i]) {
          if i > 0 { assert parts[i] == parts[1..][i - 1]; }
        }
      }
      if forall i :: 0 <= i < |parts| ==> IsBlank(parts[i]) {
        assert forall i :: 0 <= i < |parts[1..]| ==> IsBlank(parts[1..][i]) by {
          forall i | 0 <= i < |parts[1..]| ensures IsBlank(parts[1..][i]) { assert parts[1..][i] == parts[i + 1]; }
        }
      }
    }
  }

  /** How many whitespace characters `TrimStart` drops. */
  function LeadingSpaces(s: string): (k: nat)
    ensures k <= |s|
  {
    if |s| > 0 && IsSpace(s[0]) then 1 + LeadingSpaces(s[1..]) else 0
  }

  /** How many characters `TrimEnd` keeps. */
  function KeptLength(s: string): (k: nat)
    ensures k <= |s|
  {
    if |s| > 0 && IsSpace(s[|s| - 1]) then KeptLength(s[..|s| - 1]) else |s|
  }

  lemma {:induction false} TrimStartShape(s: string)
    ensures IsBlank(s) <==> TrimStart(s) == ""
    ensures TrimStart(s) != "" ==> !IsSpace(TrimStart(s)[0])
    ensures TrimStart(s) == s[LeadingSpaces(s)..]
  {
    if |s| > 0 && IsSpace(s[0]) {
      TrimStartShape(s[1..]);
      assert s[1..][LeadingSpaces(s[1..])..] == s[LeadingSpaces(s)..];
      BlankCons(s);
    } else {
      assert s[0..] == s;
    }
  }

  /** The characters `TrimStart` drops are all whitespace. */
  lemma {:induction false} LeadingBlank(s: string)
    ensures IsBlank(s[..LeadingSpaces(s)])
  {
    if |s| > 0 && IsSpace(s[0]) {
      LeadingBlank(s[1..]);
      var k := LeadingSpaces(s);
      forall i | 0 <= i < k ensures IsSpace(s[..k][i]) {
        if i > 0 {
          assert s[..k][i] == s[1..][..k - 1][i - 1];
        }
      }
    }
  }

  lemma BlankCons(s: string)
    requires |s| > 0 && IsSpace(s[0])
    ensures IsBlank(s) <==> IsBlank(s[1..])
  {
    if IsBlank(s[1..]) {
      forall i | 0 < i < |s| ensures IsSpace(s[i]) { assert s[i] == s[1..][i - 1]; }
    }
  }

  lemma {:induction false} TrimEndShape(s: string)
    ensures IsBlank(s) <==> TrimEnd(s) == ""
    ensures TrimEnd(s) != "" ==> !IsSpace(TrimEnd(s)[|TrimEnd(s)| - 1])
    ensures TrimEnd(s) == s[..KeptLength(s)]
    ensures |s| > 0 && !IsSpace(s[0]) ==> TrimEnd(s) != "" && TrimEnd(s)[0] == s[0]
  {
    if |s| > 0 && IsSpace(s[|s| - 1]) {
      var t := s[..|s| - 1];
      TrimEndShape(t);
      assert t[..KeptLength(t)] == s[..KeptLength(s)];
      BlankSnoc(s);
      if !IsSpace(s[0]) {
        assert |t| > 0 && t[0] == s[0];
      }
    } else {
      assert s[..|s|] == s;
    }
  }

  /** The characters `TrimEnd` drops are all whitespace. */
  lemma {:induction false} TrailingBlank(s: string)
    ensures IsBlank(s[KeptLength(s)..])
  {
    if |s| > 0 && IsSpace(s[|s| - 1]) {
      var t := s[..|s| - 1];
      TrailingBlank(t);
      var k := KeptLength(s);
      forall i | 0 <= i < |s| - k ensures IsSpace(s[k..][i]) {
        if k + i < |s| - 1 {
          assert s[k..][i] == t[k..][i];
        }
      }
    }
  }

  lemma BlankSnoc(s: string)
    requires |s| > 0 && IsSpace(s[|s| - 1])
    ensures IsBlank(s) <==> IsBlank(s[..|s| - 1])
  {
    if IsBlank(s[..|s| - 1]) {
      forall i | 0 <= i < |s| - 1 ensures IsSpace(s[i]) { assert s[i] == s[..|s| - 1][i]; }
    }
  }

  /** `s.strip()` is empty exactly for blank strings; otherwise it neither starts nor
      ends with whitespace. It is the slice of `s` left once a whitespace-only
      prefix and a whitespace-only suffix are cut off. */
  lemma StripShape(s: string)
    ensures Strip(s) == "" <==> IsBlank(s)
    ensures Strip(s) != "" ==> !IsSpace(Strip(s)[0]) && !IsSpace(Strip(s)[|Strip(s)| - 1])
    ensures forall ch :: ch in Strip(s) ==> ch in s
    ensures exists i, j :: 0 <= i <= j <= |s| && Strip(s) == s[i..j] && IsBlank(s[..i]) && IsBlank(s[j..])
  {
    var t := TrimStart(s);
    TrimStartShape(s);
    TrimEndShape(t);
    StripChars(s);
    StripCuts(s, LeadingSpaces(s), KeptLength(t));
    if t != "" {
      assert !IsBlank(t) by { assert !IsSpace(t[0]); }
    }
  }

  lemma StripCuts(s: string, k: nat, m: nat)
    requires k == LeadingSpaces(s) && m == KeptLength(TrimStart(s))
    requires TrimStart(s) == s[k..]
    requires TrimEnd(TrimStart(s)) == TrimStart(s)[..m]
    ensures k + m <= |s| && Strip(s) == s[k..k + m] && IsBlank(s[..k]) && IsBlank(s[k + m..])
  {
    var t := TrimStart(s);
    assert Strip(s) == t[..m];
    assert t[..m] == s[k..k + m];
    assert s[k + m..] == t[m..];
    LeadingBlank(s);
    TrailingBlank(t);
  }

  lemma StripChars(s: string)
    requires TrimStart(s) == s[LeadingSpaces(s)..]
    requires TrimEnd(TrimStart(s)) == TrimStart(s)[..KeptLength(TrimStart(s))]
    ensures forall ch :: ch in Strip(s) ==> ch in s
  {
    var k, m := LeadingSpaces(s), KeptLength(TrimStart(s));
    var r := Strip(s);
    assert r == s[k..k + m];
    forall ch | ch in r ensures ch in s {
      var i :| 0 <= i < |r| && r[i] == ch;
      assert s[k + i] == r[i];
    }
  }

  /** Stripping leaves an already stripped string alone. */
  lemma StripStripped(s: string)
    requires s != "" ==> !IsSpace(s[0]) && !IsSpace(s[|s| - 1])
    ensures Strip(s) == s
  {
  }
}
