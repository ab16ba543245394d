/** The parts of `java.lang.String` and `java.lang.Integer` the decoder relies
    on: `split` with a one-character separator, `endsWith`, `Integer.parseInt`
    and the decimal rendering of an `int` in string concatenation. */
module JavaText {
  import opened Results

  const IntMin: int := -0x8000_0000
  const IntMax: int := 0x7fff_ffff

  predicate IsDigit(c: char) {
    '0' <= c <= '9'
  }

  predicate AllDigits(s: string) {
    forall i :: 0 <= i < |s| ==> IsDigit(s[i])
  }

  predicate EndsWith(s: string, c: char) {
    |s| > 0 && s[|s| - 1] == c
  }

  // ---------------------------------------------------------------- split

  /** Every piece of `s` between occurrences of `sep`, empty pieces included. */
  function Pieces(s: string, sep: char): (r: seq<string>)
    ensures |r| >= 1
    ensures forall i :: 0 <= i < |r| ==> sep !in r[i]
    decreases |s|
  {
    if |s| == 0 then [""]
    else
      var rest := Pieces(s[1..], sep);
      if s[0] == sep then [""] + rest
      else [[s[0]] + rest[0]] + rest[1..]
  }

  /** The pieces joined back with the separator between them. */
  function Join(xs: seq<string>, sep: char): string
    decreases |xs|
  {
    if |xs| == 0 then ""
    else if |xs| == 1 then xs[0]
    else xs[0] + [sep] + Join(xs[1..], sep)
  }

  /** `xs` without its run of trailing empty strings. */
  function DropTrailingEmpty(xs: seq<string>): (r: seq<string>)
    ensures |r| <= |xs| && r == xs[..|r|]
    ensures |r| == 0 || r[|r| - 1] != ""
    ensures forall i :: |r| <= i < |xs| ==> xs[i] == ""
    decreases |xs|
  {
    if |xs| > 0 && xs[|xs| - 1] == "" then DropTrailingEmpty(xs[..|xs| - 1])
    else xs
  }

  /** `s.split(sep)` in Java: an input without the separator (the empty string
      included) comes back whole; otherwise trailing empty pieces are dropped. */
  function Split(s: string, sep: char): (r: seq<string>)
    ensures s == "" ==> r == [""]
    ensures s != "" ==> |r| == 0 || r[|r| - 1] != ""
    ensures forall i :: 0 <= i < |r| ==> sep !in r[i]
  {
    if s == "" then [""] else DropTrailingEmpty(Pieces(s, sep))
  }

  /** Joining the pieces gives back the string that was cut. */
  lemma {:induction false} JoinPieces(s: string, sep: char)
    ensures Join(Pieces(s, sep), sep) == s
    decreases |s|
  {
    if |s| > 0 {
      var rest := Pieces(s[1..], sep);
      JoinPieces(s[1..], sep);
      if s[0] == sep {
        assert Pieces(s, sep) == [""] + rest;
        assert ([""] + rest)[1..] == rest;
        assert s == [sep] + s[1..];
      } else {
        var r := [[s[0]] + rest[0]] + rest[1..];
        assert Pieces(s, sep) == r;
        if |rest| == 1 {
          assert s == [s[0]] + s[1..];
        } else {
          assert r[1..] == rest[1..];
          assert Join(rest, sep) == rest[0] + [sep] + Join(rest[1..], sep);
          assert s == [s[0]] + s[1..];
        }
      }
    }
  }

  /** A separator appended to the input adds one empty piece at the end. */
  lemma {:induction false} PiecesAppendSep(s: string, sep: char)
    ensures Pieces(s + [sep], sep) == Pieces(s, sep) + [""]
    decreases |s|
  {
    if |s| == 0 {
      assert Pieces([sep], sep) == [""] + Pieces([], sep);
    } else {
      assert (s + [sep])[1..] == s[1..] + [sep];
      PiecesAppendSep(s[1..], sep);
    }
  }

  /** The last piece is empty exactly when the input is empty or ends with the separator. */
  lemma {:induction false} PiecesLastEmpty(s: string, sep: char)
    ensures var r := Pieces(s, sep); r[|r| - 1] == "" <==> (s == "" || EndsWith(s, sep))
    decreases |s|
  {
    if |s| > 0 {
      PiecesLastEmpty(s[1..], sep);
      if |s| >= 2 && EndsWith(s, sep) {
        PiecesEndingInSep(s[1..], sep);
      }
    }
  }

  /** An input ending with the separator has at least two pieces. */
  lemma PiecesEndingInSep(s: string, sep: char)
    requires EndsWith(s, sep)
    ensures |Pieces(s, sep)| >= 2
  {
    assert s == s[..|s| - 1] + [sep];
    PiecesAppendSep(s[..|s| - 1], sep);
  }

  /** Java's `split` ignores a trailing separator on a non-empty input. */
  lemma SplitTrailingSep(s: string, sep: char)
    requires s != ""
    ensures Split(s + [sep], sep) == Split(s, sep)
  {
    PiecesAppendSep(s, sep);
    var ps := Pieces(s, sep) + [""];
    assert ps[..|ps| - 1] == Pieces(s, sep);
  }

  /** On a non-empty input that does not end with the separator, `split` keeps
      every piece, so joining its result gives the input back. */
  lemma SplitJoin(s: string, sep: char)
    requires s != "" && !EndsWith(s, sep)
    ensures Split(s, sep) == Pieces(s, sep)
    ensures Join(Split(s, sep), sep) == s
  {
    PiecesLastEmpty(s, sep);
    JoinPieces(s, sep);
  }

  /** A string without the separator is a single piece. */
  lemma {:induction false} PiecesSingle(s: string, sep: char)
    requires sep !in s
    ensures Pieces(s, sep) == [s]
    decreases |s|
  {
    if |s| > 0 {
      PiecesSingle(s[1..], sep);
      assert s == [s[0]] + s[1..];
    }
  }

  /** A separator-free string, the separator, then a string that does not
      end with it: `split` gives the first string, then the pieces of the rest. */
  lemma SplitCons(first: string, rest: string, sep: char)
    requires sep !in first
    requires rest != "" && !EndsWith(rest, sep)
    ensures Split(first + [sep] + rest, sep) == [first] + Split(rest, sep)
  {
    var s := first + [sep] + rest;
    PiecesConcat(first, rest, sep);
    SplitJoin(rest, sep);
    PiecesLastEmpty(s, sep);
    assert EndsWith(s, sep) <==> EndsWith(rest, sep);
  }

  /** A separator-free string, the separator, then more: the first piece is
      that string and the rest are the pieces of what follows. */
  lemma {:induction false} PiecesConcat(a: string, b: string, sep: char)
    requires sep !in a
    ensures Pieces(a + [sep] + b, sep) == [a] + Pieces(b, sep)
    decreases |a|
  {
    if |a| == 0 {
      assert a + [sep] + b == [sep] + b;
      assert ([sep] + b)[1..] == b;
    } else {
      PiecesConcat(a[1..], b, sep);
      assert (a + [sep] + b)[1..] == a[1..] + [sep] + b;
      assert a == [a[0]] + a[1..];
    }
  }

  /** Two separator-free strings joined with the separator split back into
      themselves when the second is not empty. */
  lemma SplitTwo(a: string, b: string, sep: char)
    requires sep !in a && sep !in b && b != ""
    ensures Split(a + [sep] + b, sep) == [a, b]
  {
    PiecesConcat(a, b, sep);
    PiecesSingle(b, sep);
  }

  /** Three separator-free strings joined with the separator split back into
      themselves when the last is not empty. */
  lemma SplitThree(a: string, b: string, c: string, sep: char)
    requires sep !in a && sep !in b && sep !in c && c != ""
    ensures Split(a + [sep] + b + [sep] + c, sep) == [a, b, c]
  {
    assert a + [sep] + b + [sep] + c == a + [sep] + (b + [sep] + c);
    PiecesConcat(a, b + [sep] + c, sep);
    PiecesConcat(b, c, sep);
    PiecesSingle(c, sep);
  }

  // ---------------------------------------------------------------- integers

  function DigitValue(c: char): nat
    requires IsDigit(c)
  {
    (c as int) - ('0' as int)
  }

  function DigitChar(d: nat): (c: char)
    requires d < 10
    ensures IsDigit(c) && DigitValue(c) == d
  {
    ('0' as int + d) as char
  }

  /** The value of a string of decimal digits, most significant first. */
  function DigitsValue(s: string): nat
    requires AllDigits(s)
    decreases |s|
  {
    if |s| == 0 then 0
    else DigitsValue(s[..|s| - 1]) * 10 + DigitValue(s[|s| - 1])
  }

  /** `Integer.parseInt(s)`: an optional `+` or `-`, then one or more decimal
      digits, the value inside the 32-bit signed range; `None` is the
      `NumberFormatException`. */
  function ParseInt(s: string): (r: Option<int>)
    ensures r.Some? ==> IntMin <= r.value <= IntMax
    ensures r.Some? ==> |s| > 0 && AllDigits(s[1..]) && (IsDigit(s[0]) || s[0] == '+' || s[0] == '-')
    ensures r.Some? && s[0] != '-' ==> r.value >= 0
  {
    if |s| == 0 then None
    else
      var signed := s[0] == '-' || s[0] == '+';
      if signed && |s| == 1 then None
      else
        var digits := if signed then s[1..] else s;
        if !AllDigits(digits) then None
        else
          var v: int := if s[0] == '-' then -(DigitsValue(digits) as int) else DigitsValue(digits);
          if IntMin <= v <= IntMax then Some(v) else None
  }

  /** The decimal rendering of a non-negative `int`, as string concatenation
      produces it: no sign and no leading zeros. */
  function NatToString(n: nat): (r: string)
    ensures |r| > 0 && AllDigits(r)
    ensures |r| > 1 ==> r[0] != '0'
    decreases n
  {
    if n < 10 then [DigitChar(n)]
    else NatToString(n / 10) + [DigitChar(n % 10)]
  }

  lemma {:induction false} DigitsValueNatToString(n: nat)
    ensures DigitsValue(NatToString(n)) == n
    decreases n
  {
    if n >= 10 {
      DigitsValueNatToString(n / 10);
      var r := NatToString(n);
      assert r[..|r| - 1] == NatToString(n / 10);
    }
  }

  /** `Integer.parseInt` reads back what the decimal rendering wrote. */
  lemma ParseIntNatToString(n: nat)
    requires n <= IntMax
    ensures ParseInt(NatToString(n)) == Some(n)
  {
    DigitsValueNatToString(n);
  }

  /** The same with a leading minus sign, down to the smallest `int`. */
  lemma ParseIntNegated(n: nat)
    requires n <= -IntMin
    ensures ParseInt("-" + NatToString(n)) == Some(-(n as int))
  {
    DigitsValueNatToString(n);
    assert ("-" + NatToString(n))[1..] == NatToString(n);
  }

  /** The cases `Integer.parseInt` rejects: nothing, a lone sign, or a
      character other than a digit after the first one. */
  lemma ParseIntRejects(s: string, i: nat)
    requires 1 <= i < |s| && !IsDigit(s[i])
    ensures ParseInt(s) == None
    ensures ParseInt("") == None
    ensures ParseInt("+") == None && ParseInt("-") == None
  {
    var signed := s[0] == '-' || s[0] == '+';
    var digits := if signed then s[1..] else s;
    assert !IsDigit(digits[if signed then i - 1 else i]);
  }
}
