/**
 The string operations the menu relies on: ASCII case folding (`strtolower`),
 splitting on a delimiter (`explode`) and its inverse, and dropping the query
 string from a URL.
 */
module Text {

  /** True for the 26 ASCII capital letters. */
  predicate IsUpper(c: char) {
    'A' <= c <= 'Z'
  }

  /** Lower-cases an ASCII capital letter and leaves every other character alone. */
  function LowerChar(c: char): (r: char)
    ensures !IsUpper(r)
    ensures !IsUpper(c) ==> r == c
    ensures IsUpper(c) ==> r as int - c as int == 'a' as int - 'A' as int
  {
    if IsUpper(c) then (c as int + ('a' as int - 'A' as int)) as char else c
  }

  /** `strtolower` restricted to ASCII letters. */
  function Lower(s: string): (r: string)
    ensures |r| == |s|
    ensures forall i :: 0 <= i < |s| ==> r[i] == LowerChar(s[i])
  {
    seq(|s|, i requires 0 <= i < |s| => LowerChar(s[i]))
  }

  /** Two names match when they are equal after ASCII lower-casing. */
  predicate SameName(a: string, b: string) {
    Lower(a) == Lower(b)
  }

  /** Name matching is an equivalence relation. */
  lemma SameNameIsEquivalence(a: string, b: string, c: string)
    ensures SameName(a, a)
    ensures SameName(a, b) ==> SameName(b, a)
    ensures SameName(a, b) && SameName(b, c) ==> SameName(a, c)
  {
  }

  /** Matching compares the names position by position, ignoring only letter case. */
  lemma SameNameCharwise(a: string, b: string)
    ensures SameName(a, b) <==> |a| == |b| && forall i :: 0 <= i < |a| ==> LowerChar(a[i]) == LowerChar(b[i])
  {
    if |a| == |b| && forall i :: 0 <= i < |a| ==> LowerChar(a[i]) == LowerChar(b[i]) {
      assert forall i :: 0 <= i < |a| ==> Lower(a)[i] == Lower(b)[i];
    }
  }

  /** Glues `parts` back together with `d` between neighbours (PHP's `implode`). */
  function Join(parts: seq<string>, d: char): string
    requires |parts| >= 1
    decreases |parts|
  {
    if |parts| == 1 then parts[0] else parts[0] + [d] + Join(parts[1..], d)
  }

  /**
   `explode(d, s)`: the pieces of `s` between occurrences of `d`, empty pieces
   included, so there is always at least one piece.
   */
  function Split(s: string, d: char): (parts: seq<string>)
    ensures |parts| >= 1
    ensures forall i :: 0 <= i < |parts| ==> d !in parts[i]
    ensures Join(parts, d) == s
    ensures parts[0] <= s
    ensures |parts[0]| == |s| || s[|parts[0]|] == d
    decreases |s|
  {
    if |s| == 0 then [""]
    else
      var rest := Split(s[1..], d);
      if s[0] == d then
        assert s == [d] + s[1..];
        [""] + rest
      else
        var parts := [[s[0]] + rest[0]] + rest[1..];
        assert parts[1..] == rest[1..];
        assert s == [s[0]] + s[1..];
        parts
  }

  /** Splitting the join of delimiter-free pieces gives the pieces back. */
  lemma {:induction false} SplitJoin(parts: seq<string>, d: char)
    requires |parts| >= 1
    requires forall i :: 0 <= i < |parts| ==> d !in parts[i]
    ensures Split(Join(parts, d), d) == parts
    decreases |parts|
  {
    if |parts| == 1 {
      SplitNoDelimiter(parts[0], d);
    } else {
      SplitJoin(parts[1..], d);
      SplitAfterPiece(parts[0], Join(parts[1..], d), d);
      assert parts == [parts[0]] + parts[1..];
    }
  }

  /** A delimiter-free string is a single piece. */
  lemma {:induction false} SplitNoDelimiter(s: string, d: char)
    requires d !in s
    ensures Split(s, d) == [s]
    decreases |s|
  {
    if |s| > 0 {
      SplitNoDelimiter(s[1..], d);
      assert s == [s[0]] + s[1..];
    }
  }

  /** A leading delimiter splits off an empty first piece. */
  lemma SplitDelimiterFirst(s: string, d: char)
    ensures Split([d] + s, d) == [""] + Split(s, d)
  {
    assert ([d] + s)[1..] == s;
  }

  /** A character other than the delimiter joins the first piece of what follows it. */
  lemma SplitCons(c: char, s: string, d: char)
    requires c != d
    ensures Split([c] + s, d) == [[c] + Split(s, d)[0]] + Split(s, d)[1..]
  {
    assert ([c] + s)[1..] == s;
  }

  /** One more non-delimiter in front of the first piece stays in the first piece. */
  lemma SplitAfterPieceStep(c: char, a: string, b: string, d: char)
    requires c != d
    requires Split(a + [d] + b, d) == [a] + Split(b, d)
    ensures Split([c] + a + [d] + b, d) == [[c] + a] + Split(b, d)
  {
    SplitCons(c, a + [d] + b, d);
    assert [c] + (a + [d] + b) == [c] + a + [d] + b;
  }

  /** A delimiter-free piece followed by the delimiter splits off as the first piece. */
  lemma {:induction false} SplitAfterPiece(a: string, b: string, d: char)
    requires d !in a
    ensures Split(a + [d] + b, d) == [a] + Split(b, d)
    decreases |a|
  {
    if |a| == 0 {
      assert a + [d] + b == [d] + b;
      SplitDelimiterFirst(b, d);
    } else {
      SplitAfterPiece(a[1..], b, d);
      SplitAfterPieceStep(a[0], a[1..], b, d);
      assert [a[0]] + a[1..] == a;
    }
  }

  /**
   The part of a URL before its first `?`, as `explode('?', $url)[0]`: the
   longest prefix without a `?`.
   */
  function BeforeQuery(url: string): (r: string)
    ensures r <= url
    ensures '?' !in r
    ensures |r| == |url| || url[|r|] == '?'
  {
    Split(url, '?')[0]
  }

  /** A URL without a query string is its own path part. */
  lemma BeforeQueryNoQuery(url: string)
    requires '?' !in url
    ensures BeforeQuery(url) == url
  {
    SplitNoDelimiter(url, '?');
  }

  /** The path part is determined by the text up to the `?` alone. */
  lemma BeforeQueryWithQuery(path: string, query: string)
    requires '?' !in path
    ensures BeforeQuery(path + "?" + query) == path
  {
    SplitAfterPiece(path, query, '?');
  }

  /** `u` is the path part of `url`: a `?`-free prefix followed by the end or by a `?`. */
  predicate IsPathPart(u: string, url: string) {
    u <= url && '?' !in u && (|u| == |url| || url[|u|] == '?')
  }

  /** The path part is unique, and it is what `BeforeQuery` returns. */
  lemma PathPartIsBeforeQuery(u: string, url: string)
    ensures IsPathPart(u, url) <==> u == BeforeQuery(url)
  {
  }
}
