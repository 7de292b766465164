/**
 * The pieces of java.lang that the webhook extension relies on, written as
 * values: nullable references, `String.equalsIgnoreCase`, `startsWith`,
 * `contains`, `split` with a one-character separator, and the decimal text
 * that string concatenation prints for an `int`.
 */
module JavaLang {

  /** A Java reference that may be null: `None` stands for `null`. */
  datatype Option<+T> = None | Some(value: T)

  /** What string concatenation prints for a possibly-null string. */
  function Printed(s: Option<string>): (r: string)
    ensures s.Some? ==> r == s.value
    ensures s.None? ==> r == "null"
  {
    if s.None? then "null" else s.value
  }

  // ---------------------------------------------------------------------
  // Case-insensitive comparison
  // ---------------------------------------------------------------------

  function ToLowerAscii(c: char): char {
    if 'A' <= c <= 'Z' then (c as int + 32) as char else c
  }

  /** `a.equalsIgnoreCase(b)`, with ASCII case folding. */
  predicate EqualsIgnoreCase(a: string, b: string)
    ensures EqualsIgnoreCase(a, b) ==> |a| == |b|
    ensures a == b ==> EqualsIgnoreCase(a, b)
  {
    |a| == |b| && forall i :: 0 <= i < |a| ==> ToLowerAscii(a[i]) == ToLowerAscii(b[i])
  }

  lemma EqualsIgnoreCaseIsEquivalence(a: string, b: string, c: string)
    ensures EqualsIgnoreCase(a, a)
    ensures EqualsIgnoreCase(a, b) ==> EqualsIgnoreCase(b, a)
    ensures EqualsIgnoreCase(a, b) && EqualsIgnoreCase(b, c) ==> EqualsIgnoreCase(a, c)
  {
  }

  /** `s.toLowerCase()`, with ASCII case folding. */
  function LowerAscii(s: string): (r: string)
    ensures |r| == |s| && forall i :: 0 <= i < |s| ==> r[i] == ToLowerAscii(s[i])
    ensures forall i :: 0 <= i < |r| ==> !('A' <= r[i] <= 'Z')
  {
    seq(|s|, i requires 0 <= i < |s| => ToLowerAscii(s[i]))
  }

  /** Two strings are equal ignoring case exactly when their lower-case forms are equal. */
  lemma LowerAsciiDecidesEquality(a: string, b: string)
    ensures EqualsIgnoreCase(a, b) <==> LowerAscii(a) == LowerAscii(b)
  {
    if LowerAscii(a) == LowerAscii(b) {
      assert forall i :: 0 <= i < |a| ==> LowerAscii(a)[i] == LowerAscii(b)[i];
    }
  }

  // ---------------------------------------------------------------------
  // startsWith, contains
  // ---------------------------------------------------------------------

  /** `s.startsWith(prefix)`. */
  predicate StartsWith(s: string, prefix: string)
    ensures StartsWith(s, prefix) ==> |prefix| <= |s| && forall i :: 0 <= i < |prefix| ==> s[i] == prefix[i]
  {
    |prefix| <= |s| && s[..|prefix|] == prefix
  }

  /** `s.contains(t)`: `t` occurs in `s` at some offset. */
  predicate Contains(s: string, t: string)
    ensures Contains(s, t) ==> |t| <= |s|
    ensures StartsWith(s, t) ==> Contains(s, t)
    decreases |s|
  {
    StartsWith(s, t) || (|s| > 0 && Contains(s[1..], t))
  }

  lemma {:induction false} ContainsAt(s: string, t: string, k: nat)
    requires k <= |s| && StartsWith(s[k..], t)
    ensures Contains(s, t)
    decreases k
  {
    if k == 0 {
      assert s[0..] == s;
    } else {
      assert s[1..][k - 1..] == s[k..];
      ContainsAt(s[1..], t, k - 1);
    }
  }

  // ---------------------------------------------------------------------
  // String.split with a one-character separator
  // ---------------------------------------------------------------------

  /**
   * The strings between successive occurrences of `sep` in `s`, empty ones
   * included: what `split` collects before it trims the result.
   */
  function Pieces(s: string, sep: char): (r: seq<string>)
    ensures |r| >= 1
    decreases |s|
  {
    if |s| == 0 then [""]
    else
      var init := Pieces(s[..|s| - 1], sep);
      if s[|s| - 1] == sep then init + [""]
      else init[..|init| - 1] + [init[|init| - 1] + [s[|s| - 1]]]
  }

  /** The pieces glued back together, `sep` between neighbours. */
  function Join(ps: seq<string>, sep: char): string
    requires |ps| >= 1
    decreases |ps|
  {
    if |ps| == 1 then ps[0] else Join(ps[..|ps| - 1], sep) + [sep] + ps[|ps| - 1]
  }

  /** Drops the empty strings at the end of `ps`, as `split` with limit 0 does. */
  function TrimTrailingEmpty(ps: seq<string>): (r: seq<string>)
    ensures r <= ps
    ensures |r| > 0 ==> r[|r| - 1] != ""
    ensures forall i :: |r| <= i < |ps| ==> ps[i] == ""
    decreases |ps|
  {
    if |ps| == 0 then []
    else if ps[|ps| - 1] == "" then TrimTrailingEmpty(ps[..|ps| - 1])
    else ps
  }

  /**
   * `s.split(sep)` for a separator that is not a regular-expression
   * metacharacter (the `/` and `&` of the extension): when `sep` does not
   * occur the result is `[s]`, otherwise the pieces without the trailing
   * empty strings.
   */
  function Split(s: string, sep: char): (r: seq<string>)
    ensures sep !in s ==> r == [s]
    ensures sep in s ==> |r| == 0 || r[|r| - 1] != ""
    ensures forall p :: p in r ==> sep !in p
  {
    if sep !in s then [s]
    else
      var ps := Pieces(s, sep);
      PiecesSepFree(s, sep);
      var r := TrimTrailingEmpty(ps);
      assert forall i :: 0 <= i < |r| ==> r[i] == ps[i];
      r
  }

  /** The pieces, joined with the separator, give back the string. */
  lemma {:induction false} PiecesJoin(s: string, sep: char)
    ensures Join(Pieces(s, sep), sep) == s
    decreases |s|
  {
    if |s| > 0 {
      var t, c := s[..|s| - 1], s[|s| - 1];
      PiecesJoin(t, sep);
      var init := Pieces(t, sep);
      if c == sep {
        assert (init + [""])[..|init|] == init;
      } else {
        ExtendLastPiece(init, [c], sep);
      }
      assert s == t + [c];
    }
  }

  /** No piece contains the separator. */
  lemma {:induction false} PiecesSepFree(s: string, sep: char)
    ensures forall p :: p in Pieces(s, sep) ==> sep !in p
    decreases |s|
  {
    if |s| > 0 {
      var t, c := s[..|s| - 1], s[|s| - 1];
      PiecesSepFree(t, sep);
      var init := Pieces(t, sep);
      if c != sep {
        var n := |init|;
        forall p | p in init[..n - 1] + [init[n - 1] + [c]] ensures sep !in p {
          if p in init[..n - 1] {
            assert p in init;
          } else {
            assert init[n - 1] in init;
          }
        }
      }
    }
  }

  /** Appending to the last piece appends to the join. */
  lemma ExtendLastPiece(ps: seq<string>, x: string, sep: char)
    requires |ps| >= 1
    ensures Join(ps[..|ps| - 1] + [ps[|ps| - 1] + x], sep) == Join(ps, sep) + x
  {
    var n := |ps|;
    var P := ps[..n - 1] + [ps[n - 1] + x];
    if n > 1 {
      assert P[..n - 1] == ps[..n - 1];
    }
  }

  /** Appending `sep` and then a separator-free string adds exactly one piece. */
  lemma {:induction false} PiecesAfterSep(a: string, x: string, sep: char)
    requires sep !in x
    ensures Pieces(a + [sep] + x, sep) == Pieces(a, sep) + [x]
    decreases |x|
  {
    if |x| == 0 {
      assert a + [sep] + x == a + [sep];
      assert (a + [sep])[..|a|] == a;
    } else {
      var y := x[..|x| - 1];
      assert a + [sep] + x == (a + [sep] + y) + [x[|x| - 1]];
      assert (a + [sep] + x)[..|a + [sep] + x| - 1] == a + [sep] + y;
      assert sep !in y by {
        forall i | 0 <= i < |y| ensures y[i] != sep { assert y[i] == x[i]; }
      }
      PiecesAfterSep(a, y, sep);
      assert y + [x[|x| - 1]] == x;
    }
  }

  lemma {:induction false} PiecesWithoutSep(x: string, sep: char)
    requires sep !in x
    ensures Pieces(x, sep) == [x]
    decreases |x|
  {
    if |x| > 0 {
      var y := x[..|x| - 1];
      assert sep !in y by {
        forall i | 0 <= i < |y| ensures y[i] != sep { assert y[i] == x[i]; }
      }
      PiecesWithoutSep(y, sep);
      assert y + [x[|x| - 1]] == x;
    }
  }

  /** Splitting a joined list of separator-free strings gives the list back. */
  lemma {:induction false} JoinPieces(ps: seq<string>, sep: char)
    requires |ps| >= 1
    requires forall p :: p in ps ==> sep !in p
    ensures Pieces(Join(ps, sep), sep) == ps
    decreases |ps|
  {
    var n := |ps|;
    if n == 1 {
      assert ps[0] in ps;
      PiecesWithoutSep(ps[0], sep);
    } else {
      var init := ps[..n - 1];
      assert forall p :: p in init ==> p in ps;
      JoinPieces(init, sep);
      assert ps[n - 1] in ps;
      assert init + [ps[n - 1]] == ps;
      JoinPiecesStep(init, ps[n - 1], sep);
    }
  }

  lemma JoinPiecesStep(init: seq<string>, x: string, sep: char)
    requires |init| >= 1 && sep !in x
    requires Pieces(Join(init, sep), sep) == init
    ensures Pieces(Join(init + [x], sep), sep) == init + [x]
  {
    assert (init + [x])[..|init|] == init;
    PiecesAfterSep(Join(init, sep), x, sep);
  }

  /** The join of a prefix of the pieces is a prefix of the join. */
  lemma {:induction false} JoinOfPrefix(ps: seq<string>, j: nat, sep: char)
    requires 1 <= j <= |ps|
    ensures Join(ps[..j], sep) <= Join(ps, sep)
    decreases |ps| - j
  {
    if j < |ps| {
      var init := ps[..|ps| - 1];
      assert init[..j] == ps[..j];
      JoinOfPrefix(init, j, sep);
    } else {
      assert ps[..j] == ps;
    }
  }

  /** `n` copies of `c`. */
  function Repeat(c: char, n: nat): (r: string)
    ensures |r| == n && forall i :: 0 <= i < n ==> r[i] == c
  {
    if n == 0 then "" else Repeat(c, n - 1) + [c]
  }

  /** Joining pieces that end in empty strings appends one separator per empty piece. */
  lemma {:induction false} JoinEmptyTail(ps: seq<string>, j: nat, sep: char)
    requires 1 <= j <= |ps|
    requires forall i :: j <= i < |ps| ==> ps[i] == ""
    ensures Join(ps, sep) == Join(ps[..j], sep) + Repeat(sep, |ps| - j)
    decreases |ps| - j
  {
    if j == |ps| {
      assert ps[..j] == ps;
    } else {
      var init := ps[..|ps| - 1];
      assert init[..j] == ps[..j];
      JoinEmptyTail(init, j, sep);
    }
  }

  /** Every string is one of the `k`-th pieces joined after the earlier ones. */
  lemma JoinAt(ps: seq<string>, k: nat, sep: char)
    requires 1 <= k < |ps|
    ensures Join(ps[..k + 1], sep) == Join(ps[..k], sep) + [sep] + ps[k]
  {
    assert ps[..k + 1][..k] == ps[..k];
  }

  // ---------------------------------------------------------------------
  // Decimal text of an int
  // ---------------------------------------------------------------------

  predicate IsDigit(c: char) {
    '0' <= c <= '9'
  }

  function DigitChar(d: nat): (c: char)
    requires d < 10
    ensures IsDigit(c)
  {
    ('0' as int + d) as char
  }

  /** `"" + n` for a non-negative `int n`: its decimal digits, no leading zero. */
  function DecimalString(n: nat): (s: string)
    ensures |s| >= 1
    ensures forall i :: 0 <= i < |s| ==> IsDigit(s[i])
    ensures s[0] == '0' ==> n == 0
    decreases n
  {
    if n < 10 then [DigitChar(n)] else DecimalString(n / 10) + [DigitChar(n % 10)]
  }

  /** The number a string of decimal digits denotes. */
  function ParseDecimal(s: string): nat
    requires forall i :: 0 <= i < |s| ==> IsDigit(s[i])
    decreases |s|
  {
    if |s| == 0 then 0
    else
      assert IsDigit(s[|s| - 1]);
      ParseDecimal(s[..|s| - 1]) * 10 + (s[|s| - 1] as int - '0' as int)
  }

  lemma {:induction false} ParseDecimalString(n: nat)
    ensures ParseDecimal(DecimalString(n)) == n
    decreases n
  {
    if n >= 10 {
      ParseDecimalString(n / 10);
      var s := DecimalString(n);
      assert s[..|s| - 1] == DecimalString(n / 10);
    }
  }

  /** The length of the run of digits at the start of `s`. */
  function DigitRun(s: string): (n: nat)
    ensures n <= |s|
    ensures forall i :: 0 <= i < n ==> IsDigit(s[i])
    ensures n < |s| ==> !IsDigit(s[n])
    decreases |s|
  {
    if |s| == 0 || !IsDigit(s[0]) then 0 else 1 + DigitRun(s[1..])
  }

  /** A string that a piece of `s` starts with occurs in `s`. */
  lemma PieceContained(s: string, sep: char, i: nat, t: string)
    requires i < |Pieces(s, sep)| && StartsWith(Pieces(s, sep)[i], t)
    ensures Contains(s, t)
  {
    PiecesJoin(s, sep);
    JoinContainsPiece(Pieces(s, sep), sep, i, t);
  }

  /** A string that a joined element starts with occurs in the join. */
  lemma JoinContainsPiece(P: seq<string>, sep: char, i: nat, t: string)
    requires i < |P| && StartsWith(P[i], t)
    ensures Contains(Join(P, sep), t)
  {
    var s := Join(P, sep);
    JoinOfPrefix(P, i + 1, sep);
    var off: nat;
    if i == 0 {
      assert P[..1] == [P[0]];
      off := 0;
    } else {
      JoinAt(P, i, sep);
      off := |Join(P[..i], sep)| + 1;
    }
    assert s[off..off + |P[i]|] == P[i];
    assert StartsWith(s[off..], t);
    ContainsAt(s, t, off);
  }

  /** A string that starts with the separator has an empty first piece. */
  lemma LeadingSepGivesEmptyPiece(s: string, sep: char)
    requires |s| > 0 && s[0] == sep
    ensures Pieces(s, sep)[0] == ""
  {
    var P := Pieces(s, sep);
    PiecesJoin(s, sep);
    JoinOfPrefix(P, 1, sep);
    assert P[..1] == [P[0]];
    assert P[0] in P;
  }
}
