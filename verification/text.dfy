/**
 * String helpers that the proxy takes from GLib: splitting a list at a
 * separator character (as `g_strsplit` does for the host-location variable)
 * and unsigned decimal formatting (as `printf` with `G_GUINT64_FORMAT` does
 * for running-host handles).
 */
module Text {

  /** The pieces of `s` between occurrences of `sep`; there is always at
      least one piece, and pieces may be empty. */
  function Pieces(s: string, sep: char): (parts: seq<string>)
    ensures |parts| >= 1
    decreases |s|
  {
    if s == [] then [[]]
    else
      var rest := Pieces(s[1..], sep);
      if s[0] == sep then [[]] + rest else [[s[0]] + rest[0]] + rest[1..]
  }

  /** `g_strsplit (s, sep, -1)`: the empty string splits into no pieces at
      all, every other string into its pieces. */
  function SplitOn(s: string, sep: char): (parts: seq<string>)
    ensures parts == [] <==> s == []
  {
    if s == [] then [] else Pieces(s, sep)
  }

  /** The pieces put back together with one `sep` between neighbours. */
  function JoinWith(parts: seq<string>, sep: char): string
  {
    if parts == [] then []
    else if |parts| == 1 then parts[0]
    else parts[0] + [sep] + JoinWith(parts[1..], sep)
  }

  /** No piece contains the separator. */
  lemma {:induction false} PiecesHaveNoSeparator(s: string, sep: char)
    ensures forall k :: 0 <= k < |Pieces(s, sep)| ==> sep !in Pieces(s, sep)[k]
    decreases |s|
  {
    if s != [] {
      PiecesHaveNoSeparator(s[1..], sep);
    }
  }

  /** Joining the pieces gives back the string that was split. */
  lemma {:induction false} JoinPieces(s: string, sep: char)
    ensures JoinWith(Pieces(s, sep), sep) == s
    decreases |s|
  {
    if s != [] {
      var rest := Pieces(s[1..], sep);
      JoinPieces(s[1..], sep);
      if s[0] == sep {
        assert Pieces(s, sep) == [[]] + rest;
        assert JoinWith([[]] + rest, sep) == [] + [sep] + JoinWith(rest, sep);
      } else {
        var first := [s[0]] + rest[0];
        assert Pieces(s, sep) == [first] + rest[1..];
        if |rest| == 1 {
          assert JoinWith([first], sep) == first;
          assert s == [s[0]] + s[1..];
        } else {
          assert rest == [rest[0]] + rest[1..];
          assert JoinWith(rest, sep) == rest[0] + [sep] + JoinWith(rest[1..], sep);
          assert JoinWith([first] + rest[1..], sep) == first + [sep] + JoinWith(rest[1..], sep);
          assert s == [s[0]] + s[1..];
        }
      }
    }
  }

  /** A piece without the separator is split into itself. */
  lemma {:induction false} PiecesOfPlain(p: string, sep: char)
    requires sep !in p
    ensures Pieces(p, sep) == [p]
    decreases |p|
  {
    if p != [] {
      PiecesOfPlain(p[1..], sep);
      assert p == [p[0]] + p[1..];
    }
  }

  /** A separator-free prefix followed by the separator becomes the first piece. */
  lemma {:induction false} PiecesOfPrefixed(p: string, sep: char, t: string)
    requires sep !in p
    ensures Pieces(p + [sep] + t, sep) == [p] + Pieces(t, sep)
    decreases |p|
  {
    if p == [] {
      assert p + [sep] + t == [sep] + t;
      assert ([sep] + t)[1..] == t;
    } else {
      PiecesOfPrefixed(p[1..], sep, t);
      assert (p + [sep] + t)[1..] == p[1..] + [sep] + t;
      assert p == [p[0]] + p[1..];
    }
  }

  /** Splitting a join of separator-free pieces gives back those pieces. */
  lemma {:induction false} PiecesOfJoin(parts: seq<string>, sep: char)
    requires |parts| >= 1
    requires forall k :: 0 <= k < |parts| ==> sep !in parts[k]
    ensures Pieces(JoinWith(parts, sep), sep) == parts
    decreases |parts|
  {
    if |parts| == 1 {
      PiecesOfPlain(parts[0], sep);
    } else {
      PiecesOfJoin(parts[1..], sep);
      PiecesOfPrefixed(parts[0], sep, JoinWith(parts[1..], sep));
      assert parts == [parts[0]] + parts[1..];
    }
  }

  /** `g_strsplit` round trip: a non-empty string splits into separator-free
      pieces that join back to it, and a join of at least one separator-free
      piece, other than the lone empty piece, splits back into its pieces. */
  lemma SplitJoinRoundTrip(s: string, parts: seq<string>, sep: char)
    ensures s != [] ==> JoinWith(SplitOn(s, sep), sep) == s
    ensures forall k :: 0 <= k < |SplitOn(s, sep)| ==> sep !in SplitOn(s, sep)[k]
    ensures |parts| >= 1 && parts != [[]] && (forall k :: 0 <= k < |parts| ==> sep !in parts[k])
            ==> SplitOn(JoinWith(parts, sep), sep) == parts
  {
    PiecesHaveNoSeparator(s, sep);
    if s != [] {
      JoinPieces(s, sep);
    }
    if |parts| >= 1 && parts != [[]] && (forall k :: 0 <= k < |parts| ==> sep !in parts[k]) {
      PiecesOfJoin(parts, sep);
    }
  }

  predicate IsDigit(c: char) { '0' <= c <= '9' }

  function DigitChar(d: nat): (c: char)
    requires d < 10
    ensures IsDigit(c) && c as int - '0' as int == d
  {
    ('0' as int + d) as char
  }

  function DigitValue(c: char): (d: nat)
    requires IsDigit(c)
    ensures d < 10
  {
    c as int - '0' as int
  }

  /** Unsigned decimal notation without leading zeros, as `printf`'s `%lu`. */
  function Decimal(n: nat): (s: string)
    ensures |s| >= 1
    ensures forall i :: 0 <= i < |s| ==> IsDigit(s[i])
    ensures s[0] == '0' ==> s == "0"
    decreases n
  {
    if n < 10 then [DigitChar(n)] else Decimal(n / 10) + [DigitChar(n % 10)]
  }

  /** The number a string of decimal digits denotes. */
  function DecimalValue(s: string): nat
    requires forall i :: 0 <= i < |s| ==> IsDigit(s[i])
  {
    if s == [] then 0
    else DecimalValue(s[..|s| - 1]) * 10 + DigitValue(s[|s| - 1])
  }

  /** Reading back the decimal notation of `n` gives `n`. */
  lemma {:induction false} DecimalRoundTrip(n: nat)
    ensures DecimalValue(Decimal(n)) == n
    decreases n
  {
    if n >= 10 {
      DecimalRoundTrip(n / 10);
      var s := Decimal(n);
      assert s[..|s| - 1] == Decimal(n / 10);
    }
  }

  /** Different numbers have different decimal notations. */
  lemma DecimalInjective(a: nat, b: nat)
    requires Decimal(a) == Decimal(b)
    ensures a == b
  {
    DecimalRoundTrip(a);
    DecimalRoundTrip(b);
  }
}
