/**
 * The few Java library behaviours the core relies on, written out:
 * `String.split("-")`, `StringTokenizer` over ",", `String.trim`,
 * `Integer.valueOf`, `String.hashCode`, and a fixed iteration order for
 * the key set of a link map.
 */
module Text {
  import opened Wrappers

  // ---------------------------------------------------------------------
  // A fixed order for iterating over a set of names
  // ---------------------------------------------------------------------

  /** Lexicographic "at most" on strings, by character code. */
  predicate Below(a: string, b: string)
  {
    |a| == 0 || (|b| > 0 && (a[0] < b[0] || (a[0] == b[0] && Below(a[1..], b[1..]))))
  }

  lemma {:induction false} BelowTotal(a: string, b: string)
    ensures Below(a, b) || Below(b, a)
  {
    if |a| > 0 && |b| > 0 && a[0] == b[0] {
      BelowTotal(a[1..], b[1..]);
    }
  }

  lemma {:induction false} BelowAntisymmetric(a: string, b: string)
    requires Below(a, b) && Below(b, a)
    ensures a == b
  {
    if |a| > 0 && |b| > 0 {
      BelowAntisymmetric(a[1..], b[1..]);
      assert a == [a[0]] + a[1..];
      assert b == [b[0]] + b[1..];
    }
  }

  lemma {:induction false} BelowTransitive(a: string, b: string, c: string)
    requires Below(a, b) && Below(b, c)
    ensures Below(a, c)
  {
    if |a| > 0 && a[0] == b[0] && b[0] == c[0] {
      BelowTransitive(a[1..], b[1..], c[1..]);
    }
  }

  /** `m` is the least element of `s`. */
  predicate IsLeast(m: string, s: set<string>)
  {
    m in s && forall x :: x in s ==> Below(m, x)
  }

  lemma {:induction false} LeastExists(s: set<string>)
    requires s != {}
    ensures exists m :: IsLeast(m, s)
    decreases |s|
  {
    var x :| x in s;
    if s - {x} == {} {
      assert s == {x};
      BelowTotal(x, x);
      assert IsLeast(x, s);
    } else {
      LeastExists(s - {x});
      var m :| IsLeast(m, s - {x});
      BelowTotal(m, x);
      if Below(m, x) {
        assert IsLeast(m, s);
      } else {
        forall y | y in s ensures Below(x, y) {
          if y != x { BelowTransitive(x, m, y); } else { BelowTotal(x, x); }
        }
        assert IsLeast(x, s);
      }
    }
  }

  lemma LeastUnique(s: set<string>)
    ensures forall m, n :: IsLeast(m, s) && IsLeast(n, s) ==> m == n
  {
    forall m, n | IsLeast(m, s) && IsLeast(n, s) ensures m == n {
      BelowAntisymmetric(m, n);
    }
  }

  /**
   * The names of `s` in ascending order. The source iterates over the key
   * set of a hash map, whose order Java leaves unspecified; the model fixes
   * this order.
   */
  function SortedKeys(s: set<string>): (ks: seq<string>)
    ensures |ks| == |s|
    ensures forall k :: k in ks <==> k in s
    decreases |s|
  {
    if s == {} then []
    else
      LeastExists(s);
      LeastUnique(s);
      var m :| IsLeast(m, s);
      var rest := SortedKeys(s - {m});
      assert forall i :: 0 <= i < |rest| ==> rest[i] in s - {m};
      [m] + rest
  }

  /** Each name comes before the later ones and differs from them. */
  predicate StrictlyAscending(ks: seq<string>)
  {
    forall i, j :: 0 <= i < j < |ks| ==> ks[i] != ks[j] && Below(ks[i], ks[j])
  }

  /** The names come out strictly ascending, each once. */
  lemma {:induction false} SortedKeysOrdered(s: set<string>)
    ensures StrictlyAscending(SortedKeys(s))
    decreases |s|
  {
    if s != {} {
      LeastExists(s);
      LeastUnique(s);
      var m :| IsLeast(m, s);
      var rest := SortedKeys(s - {m});
      SortedKeysOrdered(s - {m});
      assert SortedKeys(s) == [m] + rest;
      forall x | x in rest ensures x != m && Below(m, x) {
        assert x in s - {m};
      }
      AscendingCons(m, rest);
    }
  }

  /** A name below every name of an ascending sequence can go in front of it. */
  lemma AscendingCons(m: string, rest: seq<string>)
    requires StrictlyAscending(rest)
    requires forall x :: x in rest ==> x != m && Below(m, x)
    ensures StrictlyAscending([m] + rest)
  {
    var ks := [m] + rest;
    forall i, j | 0 <= i < j < |ks| ensures ks[i] != ks[j] && Below(ks[i], ks[j]) {
      assert ks[j] == rest[j - 1];
      if i > 0 {
        assert ks[i] == rest[i - 1];
      } else {
        assert rest[j - 1] in rest;
      }
    }
  }

  // ---------------------------------------------------------------------
  // Splitting
  // ---------------------------------------------------------------------

  /** All pieces of `s` between occurrences of `sep`, empty pieces included. */
  function Pieces(s: string, sep: char): (r: seq<string>)
    ensures |r| >= 1
    ensures forall i :: 0 <= i < |r| ==> sep !in r[i]
    ensures sep !in s ==> r == [s]
  {
    if s == [] then [""]
    else
      var rest := Pieces(s[1..], sep);
      if s[0] == sep then [""] + rest
      else
        assert s == [s[0]] + s[1..];
        [[s[0]] + rest[0]] + rest[1..]
  }

  /** The pieces glued back together with `sep` between them. */
  function Join(ps: seq<string>, sep: char): string
    requires |ps| >= 1
  {
    if |ps| == 1 then ps[0] else ps[0] + [sep] + Join(ps[1..], sep)
  }

  lemma {:induction false} JoinPieces(s: string, sep: char)
    ensures Join(Pieces(s, sep), sep) == s
  {
    if s != [] {
      JoinPieces(s[1..], sep);
      var rest := Pieces(s[1..], sep);
      if s[0] != sep {
        if |rest| > 1 {
          assert ([[s[0]] + rest[0]] + rest[1..])[1..] == rest[1..];
        }
      }
    }
  }

  /** Drops the empty strings at the end of `ps`. */
  function DropTrailingEmpty(ps: seq<string>): (r: seq<string>)
    ensures |r| <= |ps| && r == ps[..|r|]
    ensures r == [] || r[|r| - 1] != ""
    ensures forall i :: |r| <= i < |ps| ==> ps[i] == ""
  {
    if ps != [] && ps[|ps| - 1] == "" then DropTrailingEmpty(ps[..|ps| - 1]) else ps
  }

  /**
   * `s.split(sep)` in Java for a one-character, non-special separator: the
   * pieces with trailing empty ones removed, except that a string without
   * the separator is returned whole (so "" gives [""], and "-" gives []).
   */
  function JavaSplit(s: string, sep: char): (r: seq<string>)
    ensures forall i :: 0 <= i < |r| ==> sep !in r[i]
  {
    if sep !in s then [s] else DropTrailingEmpty(Pieces(s, sep))
  }

  /** Keeps the non-empty strings of `ps`, in order. */
  function NonEmpty(ps: seq<string>): (r: seq<string>)
    ensures forall t :: t in r <==> t in ps && t != ""
    ensures |ps| == 1 ==> r == (if ps[0] == "" then [] else ps)
  {
    if ps == [] then []
    else if ps[|ps| - 1] == "" then NonEmpty(ps[..|ps| - 1])
    else NonEmpty(ps[..|ps| - 1]) + [ps[|ps| - 1]]
  }

  /** The filter keeps order and repeats: it works piece by piece. */
  lemma {:induction false} NonEmptyConcat(a: seq<string>, b: seq<string>)
    ensures NonEmpty(a + b) == NonEmpty(a) + NonEmpty(b)
    decreases |b|
  {
    if b != [] {
      var n := |b| - 1;
      assert (a + b)[..|a + b| - 1] == a + b[..n];
      NonEmptyConcat(a, b[..n]);
    } else {
      assert a + b == a;
    }
  }

  /**
   * The tokens a `java.util.StringTokenizer` yields for `s` with the single
   * delimiter `delim`: the maximal delimiter-free runs, empty ones skipped.
   */
  function Tokens(s: string, delim: char): (r: seq<string>)
    ensures forall t :: t in r ==> t != "" && delim !in t
  {
    NonEmpty(Pieces(s, delim))
  }

  /** Text before a separator-free prefix extends the first piece only. */
  lemma {:induction false} PiecesPrefix(a: string, t: string, sep: char)
    requires sep !in a
    ensures Pieces(a + t, sep) == [a + Pieces(t, sep)[0]] + Pieces(t, sep)[1..]
  {
    if a != [] {
      PiecesPrefix(a[1..], t, sep);
      assert (a + t)[1..] == a[1..] + t;
      assert a[0] in a;
      assert [a[0]] + (a[1..] + Pieces(t, sep)[0]) == a + Pieces(t, sep)[0];
    } else {
      var r := Pieces(t, sep);
      assert a + t == t && a + r[0] == r[0];
      assert r == [r[0]] + r[1..];
    }
  }

  /** Pieces free of the separator, joined with it, are split back into exactly those pieces. */
  lemma {:induction false} PiecesOfJoin(ps: seq<string>, sep: char)
    requires |ps| >= 1 && forall i :: 0 <= i < |ps| ==> sep !in ps[i]
    ensures Pieces(Join(ps, sep), sep) == ps
    decreases |ps|
  {
    if |ps| > 1 {
      var u := Join(ps[1..], sep);
      PiecesOfJoin(ps[1..], sep);
      PiecesPrefix(ps[0], [sep] + u, sep);
      assert ([sep] + u)[1..] == u;
      assert ps[0] + [sep] + u == ps[0] + ([sep] + u);
      assert ps[0] + "" == ps[0];
      assert ps == [ps[0]] + ps[1..];
    }
  }

  /**
   * Whatever the split of the input into delimiter-free pieces, the
   * tokenizer yields the non-empty pieces, in order and with repeats.
   */
  lemma TokensOfJoin(ps: seq<string>, delim: char)
    requires |ps| >= 1 && forall i :: 0 <= i < |ps| ==> delim !in ps[i]
    ensures Tokens(Join(ps, delim), delim) == NonEmpty(ps)
  {
    PiecesOfJoin(ps, delim);
  }

  // ---------------------------------------------------------------------
  // String.trim
  // ---------------------------------------------------------------------

  function TrimStart(s: string): (r: string)
    ensures |r| <= |s| && r == s[|s| - |r|..]
    ensures r == [] || r[0] > ' '
    ensures forall k :: 0 <= k < |s| - |r| ==> s[k] <= ' '
  {
    if s != [] && s[0] <= ' ' then TrimStart(s[1..]) else s
  }

  function TrimEnd(s: string): (r: string)
    ensures |r| <= |s| && r == s[..|r|]
    ensures r == [] || r[|r| - 1] > ' '
    ensures forall k :: |r| <= k < |s| ==> s[k] <= ' '
  {
    if s != [] && s[|s| - 1] <= ' ' then TrimEnd(s[..|s| - 1]) else s
  }

  /**
   * `String.trim`: removes every leading and trailing character whose code
   * is at most that of the space character.
   */
  function Trim(s: string): (r: string)
    ensures |r| <= |s|
    ensures r == [] || (r[0] > ' ' && r[|r| - 1] > ' ')
  {
    TrimStart(TrimEnd(s))
  }

  /** What `trim` removes is blank: the result is `s` less a blank prefix and a blank suffix. */
  lemma TrimRemovesOnlyBlanks(s: string)
    ensures exists i, j :: (0 <= i <= j <= |s| && Trim(s) == s[i..j]
                            && (forall k :: 0 <= k < i ==> s[k] <= ' ')
                            && (forall k :: j <= k < |s| ==> s[k] <= ' '))
  {
    var e := TrimEnd(s);
    var r := TrimStart(e);
    assert r == s[|e| - |r|..|e|];
  }

  // ---------------------------------------------------------------------
  // Integer.valueOf
  // ---------------------------------------------------------------------

  const MinInt32: int := -0x8000_0000
  const MaxInt32: int := 0x7fff_ffff

  predicate IsDigit(c: char) { '0' <= c <= '9' }

  predicate AllDigits(s: string) { forall i :: 0 <= i < |s| ==> IsDigit(s[i]) }

  /** The value of a string of decimal digits, most significant first. */
  function DigitsValue(s: string): (v: nat)
    requires AllDigits(s)
  {
    if s == [] then 0
    else DigitsValue(s[..|s| - 1]) * 10 + (s[|s| - 1] as int - '0' as int)
  }

  /**
   * `Integer.valueOf` on a decimal string: an optional sign followed by at
   * least one digit, whose value must fit in 32 bits; `None` stands for the
   * `NumberFormatException`.
   */
  function ParseInt(s: string): (r: Option<int>)
    ensures r.Some? ==> MinInt32 <= r.value <= MaxInt32
    ensures r.Some? ==> |s| > 0 && (r.value < 0 ==> s[0] == '-')
  {
    if |s| == 0 then None
    else if s[0] == '-' || s[0] == '+' then
      if |s| == 1 || !AllDigits(s[1..]) then None
      else
        var d: int := DigitsValue(s[1..]);
        var v := if s[0] == '-' then -d else d;
        if MinInt32 <= v <= MaxInt32 then Some(v) else None
    else if !AllDigits(s) then None
    else
      var v := DigitsValue(s);
      if v <= MaxInt32 then Some(v) else None
  }

  /** `s` is the sign `sign` (none, '+' or '-') followed by the decimal digits `digits`. */
  predicate SignedDigits(s: string, sign: string, digits: string)
  {
    && s == sign + digits
    && (sign == "" || sign == "+" || sign == "-")
    && |digits| >= 1 && AllDigits(digits)
  }

  /** The number a sign and its digits spell. */
  function SignedValue(sign: string, digits: string): int
    requires AllDigits(digits)
  {
    var d: int := DigitsValue(digits);
    if sign == "-" then -d else d
  }

  /** A sign and digits parse to the number they spell exactly when it fits in 32 bits. */
  lemma ParseIntAccepts(s: string, sign: string, digits: string)
    requires SignedDigits(s, sign, digits)
    ensures ParseInt(s) ==
              if MinInt32 <= SignedValue(sign, digits) <= MaxInt32 then Some(SignedValue(sign, digits)) else None
  {
    if sign == "" {
      assert s == digits && IsDigit(s[0]);
      assert s[0] != '-' && s[0] != '+';
    } else {
      assert s[1..] == digits;
    }
  }

  /** Nothing else parses: an accepted string is a sign and digits, and the result is their number. */
  lemma ParseIntOnlyDecimals(s: string) returns (sign: string, digits: string)
    requires ParseInt(s).Some?
    ensures SignedDigits(s, sign, digits) && ParseInt(s).value == SignedValue(sign, digits)
  {
    if s[0] == '-' || s[0] == '+' {
      sign, digits := [s[0]], s[1..];
    } else {
      sign, digits := "", s;
    }
  }

  /** The decimal digits of `n`, as `Integer.toString` writes a non-negative number. */
  function Decimal(n: nat): (s: string)
    ensures |s| >= 1 && AllDigits(s)
  {
    if n < 10 then [('0' as int + n) as char]
    else Decimal(n / 10) + [('0' as int + n % 10) as char]
  }

  lemma {:induction false} DigitsValueOfDecimal(n: nat)
    ensures DigitsValue(Decimal(n)) == n
  {
    if n >= 10 {
      DigitsValueOfDecimal(n / 10);
      var s := Decimal(n);
      assert s[..|s| - 1] == Decimal(n / 10);
    }
  }

  /** Every 32-bit value written in decimal parses back to itself. */
  lemma ParseIntRoundTrip(v: int)
    requires MinInt32 <= v <= MaxInt32
    ensures v >= 0 ==> ParseInt(Decimal(v)) == Some(v)
    ensures v < 0 ==> ParseInt("-" + Decimal(-v)) == Some(v)
  {
    if v >= 0 {
      DigitsValueOfDecimal(v);
      var s := Decimal(v);
      assert s[0] != '-' && s[0] != '+' by { assert IsDigit(s[0]); }
    } else {
      DigitsValueOfDecimal(-v);
      assert ("-" + Decimal(-v))[1..] == Decimal(-v);
    }
  }

  // ---------------------------------------------------------------------
  // String.hashCode
  // ---------------------------------------------------------------------

  /** Two's-complement wrap-around of a Java `int` computation. */
  function Wrap32(x: int): (r: int)
    ensures MinInt32 <= r <= MaxInt32
    ensures (r - x) % 0x1_0000_0000 == 0
  {
    (x - MinInt32) % 0x1_0000_0000 + MinInt32
  }

  /** `String.hashCode`: h = 31 * h + c over the characters, in 32-bit arithmetic. */
  function StringHash(s: string): (h: int)
    ensures MinInt32 <= h <= MaxInt32
  {
    if s == [] then 0 else Wrap32(31 * StringHash(s[..|s| - 1]) + s[|s| - 1] as int)
  }
}
