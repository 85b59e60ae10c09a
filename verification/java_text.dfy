/**
 * The pieces of `java.lang.String` and `java.lang.Integer` the web server relies on:
 * `indexOf`, `lastIndexOf`, `split` (with limit 0 and with limit 2), ASCII lower-casing and
 * decimal formatting, together with the exceptions that can escape the modelled code.
 */
module JavaText {

  /** A Java exception escaping the modelled code. */
  datatype Thrown =
    | ArrayIndexOutOfBounds(index: int)
    | IllegalArgument
    | UnsupportedEncoding
    | Runtime(cause: Thrown)

  // ---------------------------------------------------------------------------
  // indexOf / lastIndexOf
  // ---------------------------------------------------------------------------

  /** `s.indexOf(c)`: the position of the first `c`, or -1. */
  function IndexOf(s: string, c: char): (r: int)
    ensures -1 <= r && (r == -1 <==> c !in s)
    ensures 0 <= r ==> r < |s| && s[r] == c && forall j :: 0 <= j < r ==> s[j] != c
  {
    if |s| == 0 then -1
    else if s[0] == c then 0
    else
      var r := IndexOf(s[1..], c);
      if r == -1 then -1 else r + 1
  }

  /** `s.lastIndexOf(c)`: the position of the last `c`, or -1. */
  function LastIndexOf(s: string, c: char): (r: int)
    ensures -1 <= r && (r == -1 <==> c !in s)
    ensures 0 <= r ==> r < |s| && s[r] == c && forall j :: r < j < |s| ==> s[j] != c
  {
    if |s| == 0 then -1
    else if s[|s| - 1] == c then |s| - 1
    else
      var r := LastIndexOf(s[..|s| - 1], c);
      if r == -1 then
        assert s == s[..|s| - 1] + [s[|s| - 1]];
        -1
      else r
  }

  /** In `a`, `c`, `b` with no `c` in `a`, the first `c` is the one after `a`, and `b` follows it. */
  lemma IndexOfAfterFree(a: string, c: char, b: string)
    requires c !in a
    ensures IndexOf(a + [c] + b, c) == |a|
    ensures (a + [c] + b)[|a| + 1..] == b
  {
    var s := a + [c] + b;
    assert s[|a|] == c;
    forall j | 0 <= j < |a|
      ensures s[j] != c
    {
      assert s[j] == a[j];
    }
    assert s[|a| + 1..] == b;
  }

  /** `LastIndexOf` is pinned down by its defining facts. */
  lemma LastIndexOfIs(s: string, c: char, k: int)
    requires 0 <= k < |s| && s[k] == c
    requires forall j :: k < j < |s| ==> s[j] != c
    ensures LastIndexOf(s, c) == k
  {
  }

  /** In `a`, `c`, `b` with no `c` in `b`, the last `c` is the one before `b`, and `b` follows it. */
  lemma LastIndexOfBefore(a: string, c: char, b: string)
    requires c !in b
    ensures LastIndexOf(a + [c] + b, c) == |a|
    ensures (a + [c] + b)[|a| + 1..] == b
  {
    var s := a + [c] + b;
    forall j | |a| < j < |s|
      ensures s[j] != c
    {
      assert s[j] == b[j - |a| - 1];
    }
    LastIndexOfIs(s, c, |a|);
    assert s[|a| + 1..] == b;
  }

  // ---------------------------------------------------------------------------
  // split
  // ---------------------------------------------------------------------------

  /** The text of `s` before the first `c` (all of `s` when there is none). */
  function UpTo(s: string, c: char): (r: string)
    ensures c !in r && r <= s
    ensures |r| < |s| ==> s[|r|] == c
  {
    if |s| == 0 || s[0] == c then [] else [s[0]] + UpTo(s[1..], c)
  }

  /** `UpTo` is pinned down by its defining facts. */
  lemma UpToIs(s: string, c: char, prefix: string)
    requires c !in prefix && prefix <= s && (|prefix| < |s| ==> s[|prefix|] == c)
    ensures UpTo(s, c) == prefix
  {
  }

  /** Every piece of `s` between occurrences of `c`, empty ones included. */
  function SplitAll(s: string, c: char): (pieces: seq<string>)
    ensures |pieces| >= 1
  {
    if |s| == 0 then [[]]
    else
      var rest := SplitAll(s[1..], c);
      if s[0] == c then [[]] + rest else [[s[0]] + rest[0]] + rest[1..]
  }

  /** Glues pieces together with `c` between neighbours. */
  function Join(pieces: seq<string>, c: char): string
  {
    if |pieces| == 0 then []
    else if |pieces| == 1 then pieces[0]
    else pieces[0] + [c] + Join(pieces[1..], c)
  }

  /** A character that is neither the glue nor in any piece does not occur in the joined text. */
  lemma {:induction false} JoinFree(pieces: seq<string>, c: char, x: char)
    requires x != c
    requires forall i :: 0 <= i < |pieces| ==> x !in pieces[i]
    ensures x !in Join(pieces, c)
    decreases |pieces|
  {
    if |pieces| > 1 {
      JoinFree(pieces[1..], c, x);
    }
  }

  /** Removes the empty pieces at the end of a split. */
  function DropTrailingEmpty(pieces: seq<string>): (r: seq<string>)
    ensures r <= pieces
    ensures forall i :: |r| <= i < |pieces| ==> pieces[i] == []
    ensures |r| > 0 ==> r[|r| - 1] != []
  {
    if |pieces| == 0 || pieces[|pieces| - 1] != [] then pieces
    else DropTrailingEmpty(pieces[..|pieces| - 1])
  }

  /**
   * `s.split(c)` with a one-character delimiter and limit 0: the whole string when `c` does not
   * occur (so the empty string gives one empty piece), otherwise every piece with the trailing
   * empty ones removed.
   */
  function Split(s: string, c: char): seq<string>
  {
    if c !in s then [s] else DropTrailingEmpty(SplitAll(s, c))
  }

  /** `s.split(c, 2)`: at most one cut, at the first `c`; nothing is dropped. */
  function SplitOnce(s: string, c: char): (r: seq<string>)
    ensures 1 <= |r| <= 2
    ensures |r| == 1 <==> c !in s
    ensures |r| == 1 ==> r[0] == s
    ensures |r| == 2 ==> c !in r[0] && r[0] + [c] + r[1] == s
  {
    var i := IndexOf(s, c);
    if i == -1 then [s]
    else
      assert s == s[..i] + [c] + s[i + 1..];
      [s[..i], s[i + 1..]]
  }

  /** Does `s` hold a character other than `c` at or after position `from`? */
  predicate HasOtherFrom(s: string, c: char, from: int)
  {
    exists j :: from <= j < |s| && 0 <= j && s[j] != c
  }

  /** Is some piece non-empty? */
  predicate SomeNonEmpty(pieces: seq<string>)
  {
    exists k :: 0 <= k < |pieces| && pieces[k] != []
  }

  /** Keeps the non-empty pieces, in order. */
  function NonEmpty(pieces: seq<string>): (r: seq<string>)
    ensures forall p :: p in r ==> p != [] && p in pieces
    ensures forall p :: p in pieces && p != [] ==> p in r
  {
    if |pieces| == 0 then []
    else (if pieces[0] == [] then [] else [pieces[0]]) + NonEmpty(pieces[1..])
  }

  lemma NonEmptyConcat(a: seq<string>, b: seq<string>)
    ensures NonEmpty(a + b) == NonEmpty(a) + NonEmpty(b)
  {
    if |a| > 0 {
      assert (a + b)[1..] == a[1..] + b;
      NonEmptyConcat(a[1..], b);
    } else {
      assert a + b == b;
    }
  }

  /** No piece of a split holds the delimiter. */
  lemma {:induction false} SplitAllPiecesFree(s: string, c: char)
    ensures forall k :: 0 <= k < |SplitAll(s, c)| ==> c !in SplitAll(s, c)[k]
    decreases |s|
  {
    if |s| > 0 {
      SplitAllPiecesFree(s[1..], c);
    }
  }

  /** A string free of the delimiter is a single piece. */
  lemma {:induction false} SplitAllNoDelimiter(s: string, c: char)
    requires c !in s
    ensures SplitAll(s, c) == [s]
    decreases |s|
  {
    if |s| > 0 {
      SplitAllNoDelimiter(s[1..], c);
      assert s == [s[0]] + s[1..];
    }
  }

  /** The first piece of a split is the text before the first delimiter. */
  lemma {:induction false} SplitAllHead(s: string, c: char)
    ensures SplitAll(s, c)[0] == UpTo(s, c)
    decreases |s|
  {
    if |s| > 0 {
      SplitAllHead(s[1..], c);
    }
  }

  /** Splitting is undone by joining: no character of `s` is lost or added. */
  lemma {:induction false} JoinSplitAll(s: string, c: char)
    ensures Join(SplitAll(s, c), c) == s
    decreases |s|
  {
    if |s| > 0 {
      var rest := SplitAll(s[1..], c);
      JoinSplitAll(s[1..], c);
      if s[0] == c {
        assert ([[]] + rest)[1..] == rest;
      } else if |rest| == 1 {
        assert s == [s[0]] + s[1..];
      } else {
        var pieces := [[s[0]] + rest[0]] + rest[1..];
        assert pieces[1..] == rest[1..];
        assert Join(rest, c) == rest[0] + [c] + Join(rest[1..], c);
        assert s == [s[0]] + s[1..];
      }
    }
  }

  /** One step of the split: the first character either ends the first piece or joins it. */
  lemma SplitAllCons(x: char, t: string, c: char)
    ensures SplitAll([x] + t, c) ==
      var rest := SplitAll(t, c);
      if x == c then [[]] + rest else [[x] + rest[0]] + rest[1..]
  {
    assert ([x] + t)[1..] == t;
  }

  /** Gluing a character onto the first piece commutes with appending further pieces. */
  lemma GlueFirstPiece(x: char, ra: seq<string>, rb: seq<string>)
    requires |ra| >= 1
    ensures [[x] + (ra + rb)[0]] + (ra + rb)[1..] == ([[x] + ra[0]] + ra[1..]) + rb
  {
    assert (ra + rb)[0] == ra[0];
    assert (ra + rb)[1..] == ra[1..] + rb;
  }

  /** A delimiter splits the text on either side of it independently. */
  lemma {:induction false} SplitAllConcat(a: string, b: string, c: char)
    ensures SplitAll(a + [c] + b, c) == SplitAll(a, c) + SplitAll(b, c)
    decreases |a|
  {
    if |a| == 0 {
      assert a + [c] + b == [c] + b;
      SplitAllCons(c, b, c);
    } else {
      var x := a[0];
      var t := a[1..];
      assert a == [x] + t;
      assert a + [c] + b == [x] + (t + [c] + b);
      SplitAllConcat(t, b, c);
      SplitAllCons(x, t + [c] + b, c);
      SplitAllCons(x, t, c);
      var ra := SplitAll(t, c);
      var rb := SplitAll(b, c);
      if x == c {
        assert [[]] + (ra + rb) == ([[]] + ra) + rb;
      } else {
        GlueFirstPiece(x, ra, rb);
      }
    }
  }

  /** Joining pieces free of the delimiter is undone by splitting. */
  lemma {:induction false} SplitAllJoin(pieces: seq<string>, c: char)
    requires |pieces| >= 1
    requires forall p :: p in pieces ==> c !in p
    ensures SplitAll(Join(pieces, c), c) == pieces
    decreases |pieces|
  {
    SplitAllNoDelimiter(pieces[0], c);
    if |pieces| > 1 {
      SplitAllJoin(pieces[1..], c);
      SplitAllConcat(pieces[0], Join(pieces[1..], c), c);
    }
  }

  /** The split at the first delimiter: the text before it, then the pieces of the rest. */
  lemma SplitAllAtFirst(s: string, c: char)
    requires c in s
    ensures SplitAll(s, c) == [s[..IndexOf(s, c)]] + SplitAll(s[IndexOf(s, c) + 1..], c)
  {
    var i := IndexOf(s, c);
    assert c !in s[..i] by {
      assert forall j :: 0 <= j < i ==> s[..i][j] == s[j];
    }
    SplitAllAt(s, c, i);
  }

  /** The split at a delimiter with none before it. */
  lemma SplitAllAt(s: string, c: char, i: nat)
    requires i < |s| && s[i] == c && c !in s[..i]
    ensures SplitAll(s, c) == [s[..i]] + SplitAll(s[i + 1..], c)
  {
    var before := s[..i];
    var after := s[i + 1..];
    assert s == before + [c] + after;
    SplitAllConcat(before, after, c);
    SplitAllNoDelimiter(before, c);
  }

  /** Some piece of the full split is non-empty exactly when `s` holds a non-delimiter character. */
  lemma {:induction false} SplitAllSomeNonEmpty(s: string, c: char)
    ensures SomeNonEmpty(SplitAll(s, c)) <==> HasOtherFrom(s, c, 0)
    decreases |s|
  {
    if |s| > 0 {
      var rest := SplitAll(s[1..], c);
      SplitAllSomeNonEmpty(s[1..], c);
      if s[0] == c {
        var pieces := [[]] + rest;
        if SomeNonEmpty(rest) {
          var k :| 0 <= k < |rest| && rest[k] != [];
          assert pieces[k + 1] != [];
        }
        if SomeNonEmpty(pieces) {
          var k :| 0 <= k < |pieces| && pieces[k] != [];
          assert rest[k - 1] != [];
        }
        if HasOtherFrom(s[1..], c, 0) {
          var j :| 0 <= j < |s[1..]| && s[1..][j] != c;
          assert s[j + 1] != c;
        }
        if HasOtherFrom(s, c, 0) {
          var j :| 0 <= j < |s| && s[j] != c;
          assert s[1..][j - 1] != c;
        }
      } else {
        assert SplitAll(s, c)[0] != [];
        assert s[0] != c;
      }
    }
  }

  /** After trailing empties are dropped, position `k` survives iff a non-empty piece sits at or after it. */
  lemma DropTrailingEmptyLength(pieces: seq<string>, k: nat)
    requires k <= |pieces|
    ensures |DropTrailingEmpty(pieces)| > k <==> SomeNonEmpty(pieces[k..])
  {
    var r := DropTrailingEmpty(pieces);
    if |r| > k {
      assert pieces[k..][|r| - 1 - k] == r[|r| - 1];
    }
    if SomeNonEmpty(pieces[k..]) {
      var j :| 0 <= j < |pieces[k..]| && pieces[k..][j] != [];
      assert pieces[k + j] != [];
    }
  }

  /**
   * Elements 0 and 1 of `s.split(c)` when `c` occurs in `s`: element 0 exists iff some
   * character of `s` is not `c`, and is the text before the first `c`; element 1 exists iff some
   * character after the first `c` is not `c`, and is the text from there up to the next `c`.
   */
  lemma {:induction false} SplitLeadingPieces(s: string, c: char)
    requires c in s
    ensures var i := IndexOf(s, c); var r := Split(s, c);
      && (|r| >= 1 <==> HasOtherFrom(s, c, 0))
      && (|r| >= 2 <==> HasOtherFrom(s, c, i + 1))
      && (|r| >= 1 ==> r[0] == s[..i])
      && (|r| >= 2 ==> r[1] == UpTo(s[i + 1..], c))
  {
    var i := IndexOf(s, c);
    var t := s[i + 1..];
    var pieces := SplitAll(s, c);
    var rest := SplitAll(t, c);
    SplitAllAtFirst(s, c);
    assert pieces[1..] == rest;
    assert pieces[0..] == pieces;
    SplitAllSomeNonEmpty(s, c);
    SplitAllSomeNonEmpty(t, c);
    DropTrailingEmptyLength(pieces, 0);
    DropTrailingEmptyLength(pieces, 1);
    SplitAllHead(t, c);
    HasOtherFromSuffix(s, c, i + 1);
  }

  /** Looking for a non-delimiter from position `k` on is looking in the suffix from `k`. */
  lemma HasOtherFromSuffix(s: string, c: char, k: nat)
    requires k <= |s|
    ensures HasOtherFrom(s, c, k) <==> HasOtherFrom(s[k..], c, 0)
  {
    if HasOtherFrom(s, c, k) {
      var j :| k <= j < |s| && 0 <= j && s[j] != c;
      assert s[k..][j - k] != c;
    }
    if HasOtherFrom(s[k..], c, 0) {
      var j :| 0 <= j < |s[k..]| && s[k..][j] != c;
      assert s[k + j] != c;
    }
  }

  // ---------------------------------------------------------------------------
  // toLowerCase
  // ---------------------------------------------------------------------------

  /** ASCII lower-casing of one character; everything outside `A`..`Z` is left alone. */
  function LowerChar(ch: char): char
  {
    if 'A' <= ch <= 'Z' then (ch as int + 32) as char else ch
  }

  /** `s.toLowerCase()`, restricted to ASCII letters. */
  function AsciiLower(s: string): (r: string)
    ensures |r| == |s|
    ensures forall i :: 0 <= i < |r| ==> !('A' <= r[i] <= 'Z')
    ensures forall i :: 0 <= i < |r| ==> (r[i] == s[i] || 'A' <= s[i] <= 'Z')
    ensures forall i :: 0 <= i < |s| && 'A' <= s[i] <= 'Z' ==> r[i] as int == s[i] as int + 32
  {
    seq(|s|, i requires 0 <= i < |s| => LowerChar(s[i]))
  }

  /** Lower-casing twice is lower-casing once. */
  lemma AsciiLowerIdempotent(s: string)
    ensures AsciiLower(AsciiLower(s)) == AsciiLower(s)
  {
  }

  /** A string with no upper-case ASCII letter is its own lower-casing. */
  lemma AsciiLowerFixes(s: string)
    requires forall ch :: ch in s ==> !('A' <= ch <= 'Z')
    ensures AsciiLower(s) == s
  {
    forall i | 0 <= i < |s|
      ensures AsciiLower(s)[i] == s[i]
    {
      assert s[i] in s;
    }
  }

  /** `"HTML".toLowerCase()`. */
  lemma LowerHtml()
    ensures AsciiLower("HTML") == "html"
  {
    var lower := AsciiLower("HTML");
    assert lower[0] == LowerChar('H') == 'h';
    assert lower[1] == LowerChar('T') == 't';
    assert lower[2] == LowerChar('M') == 'm';
    assert lower[3] == LowerChar('L') == 'l';
  }

  /** Lower-casing commutes with taking a suffix and leaves every `.` where it was. */
  lemma AsciiLowerKeepsDots(s: string, k: nat)
    requires k <= |s|
    ensures AsciiLower(s)[k..] == AsciiLower(s[k..])
    ensures forall i :: 0 <= i < |s| ==> (AsciiLower(s)[i] == '.' <==> s[i] == '.')
  {
  }

  // ---------------------------------------------------------------------------
  // Integer.toString
  // ---------------------------------------------------------------------------

  predicate IsDigits(s: string)
  {
    forall i :: 0 <= i < |s| ==> '0' <= s[i] <= '9'
  }

  function DigitChar(d: nat): char
    requires d < 10
  {
    ('0' as int + d) as char
  }

  /** `Integer.toString(n)` for a non-negative `n`: decimal digits without a leading zero. */
  function Decimal(n: nat): (r: string)
    ensures |r| >= 1 && IsDigits(r)
    ensures r[0] == '0' ==> n == 0 && |r| == 1
  {
    if n < 10 then [DigitChar(n)] else Decimal(n / 10) + [DigitChar(n % 10)]
  }

  /** The number a string of decimal digits denotes, as a reader of the digits computes it. */
  function DecimalValue(s: string): nat
    requires IsDigits(s)
  {
    if |s| == 0 then 0 else DecimalValue(s[..|s| - 1]) * 10 + (s[|s| - 1] as int - '0' as int)
  }

  /** Reading back the formatted digits gives the number. */
  lemma {:induction false} DecimalRoundTrip(n: nat)
    ensures DecimalValue(Decimal(n)) == n
  {
    if n >= 10 {
      var r := Decimal(n);
      DecimalRoundTrip(n / 10);
      assert r[..|r| - 1] == Decimal(n / 10);
    }
  }
}
