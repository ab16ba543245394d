/** The modification-code vocabulary of `BaseModificationUtils`: the fixed
    code -> name table, the display string for one likelihood, the ChEBI
    test, and the way a group header's code portion becomes a list of codes. */
module ModCodes {
  import opened Results
  import opened JavaText

  /** The static `codeValues` table. */
  const CodeValues: map<string, string> := map[
    "m" := "5mC",
    "h" := "5hmC",
    "f" := "5fC",
    "c" := "5caC",
    "g" := "5hmU",
    "e" := "5fU",
    "b" := "5caU",
    "a" := "6mA",
    "o" := "8xoG",
    "n" := "Xao",
    "C" := "Unknown C",
    "T" := "Unknown T",
    "A" := "Unknown A",
    "G" := "Unknown G",
    "N" := "Unknown"
  ]

  /** The name shown for a code absent from the table, spelled as in the source. */
  const UnknownLabel: string := "Uknown"

  const ValuePrefix: string := "Base modification: "

  function Label(code: string): string {
    if code in CodeValues then CodeValues[code] else UnknownLabel
  }

  /** `(int) (100.0 * u / 255)`: the double quotient is exact whenever it is
      a whole number and at least 1/51 away from one otherwise, so the cast
      truncates exactly like integer division. */
  function Percent(likelihood: byte): nat {
    100 * likelihood / 255
  }

  /** `valueString(modification, likelihood)`. */
  function ValueString(modification: string, likelihood: byte): (r: string)
    ensures |r| > |ValuePrefix| + 4
    ensures r[..|ValuePrefix|] == ValuePrefix
    ensures r[|r| - 2..] == "%)"
  {
    ValuePrefix + Label(modification) + " (" + NatToString(Percent(likelihood)) + "%)"
  }

  /** The percentage is the floor of 100 * u / 255: never above 100, 100 only
      for 255, 0 only for the three smallest bytes, and never decreasing. */
  lemma PercentIsFloor(u: byte, v: byte)
    ensures Percent(u) * 255 <= 100 * u < (Percent(u) + 1) * 255
    ensures 0 <= Percent(u) <= 100
    ensures Percent(u) == 100 <==> u == 255
    ensures Percent(u) == 0 <==> u < 3
    ensures u <= v ==> Percent(u) <= Percent(v)
  {
  }

  /** A name is the generic unknown one exactly when the code is not in the table. */
  lemma LabelUnknownIff(code: string)
    ensures Label(code) == UnknownLabel <==> code !in CodeValues
    ensures code in CodeValues ==> Label(code) == CodeValues[code]
  {
    if code in CodeValues {
      assert UnknownLabel !in CodeValues.Values;
    }
  }

  /** The display string reads back into the name and the percentage, which
      is written as unsigned decimal digits without a leading zero. */
  lemma ValueStringReadBack(modification: string, likelihood: byte)
    ensures var r := ValueString(modification, likelihood);
            var name := Label(modification);
            var start := |ValuePrefix| + |name| + 2;
            && start <= |r| - 2
            && r[|ValuePrefix|..|ValuePrefix| + |name|] == name
            && r[|ValuePrefix| + |name|..start] == " ("
            && AllDigits(r[start..|r| - 2])
            && (|r[start..|r| - 2]| > 1 ==> r[start] != '0')
            && ParseInt(r[start..|r| - 2]) == Some(Percent(likelihood))
  {
    var r := ValueString(modification, likelihood);
    var name := Label(modification);
    var digits := NatToString(Percent(likelihood));
    var start := |ValuePrefix| + |name| + 2;
    assert r == ValuePrefix + name + " (" + digits + "%)";
    assert r[start..|r| - 2] == digits;
    assert r[|ValuePrefix|..|ValuePrefix| + |name|] == name;
    PercentIsFloor(likelihood, likelihood);
    ParseIntNatToString(Percent(likelihood));
  }

  // ---------------------------------------------------------------- ChEBI

  /** Whether every character from index `i` on is a decimal digit; the loop of `isChEBI`. */
  function DigitsFrom(str: string, i: nat): (r: bool)
    requires i <= |str|
    ensures r <==> forall j :: i <= j < |str| ==> IsDigit(str[j])
    decreases |str| - i
  {
    i == |str| || (IsDigit(str[i]) && DigitsFrom(str, i + 1))
  }

  /** `isChEBI(str)`: a non-empty string of decimal digits. */
  function IsChEBI(str: string): (r: bool)
    ensures r <==> |str| > 0 && AllDigits(str)
  {
    |str| != 0 && DigitsFrom(str, 0)
  }

  // ---------------------------------------------------------------- header codes

  /** The code portion of a header: everything after the base and strand
      characters, less one trailing `.` or `?`. The two-argument `substring`
      throws when the header is only the two characters and the second is
      that flag. */
  function CodePortion(header: string): (r: Result<string, DecodeError>)
    requires |header| >= 2
    ensures r.Failure? <==> |header| == 2 && (header[1] == '.' || header[1] == '?')
    ensures r.Success? && (EndsWith(header, '.') || EndsWith(header, '?')) ==>
              header == header[..2] + r.value + [header[|header| - 1]]
    ensures r.Success? && !(EndsWith(header, '.') || EndsWith(header, '?')) ==>
              header == header[..2] + r.value
  {
    if EndsWith(header, '.') || EndsWith(header, '?') then
      if |header| - 1 < 2 then Failure(CodeRangeError(header))
      else Success(header[2..|header| - 1])
    else Success(header[2..])
  }

  /** The codes a code portion denotes: one ChEBI number, one code per
      character of a longer non-numeric portion, or the portion itself when it
      has at most one character. */
  function ResolveCodes(portion: string): (r: seq<string>)
  {
    if |portion| > 1 then
      if IsChEBI(portion) then [portion]
      else seq(|portion|, i requires 0 <= i < |portion| => portion[i..i + 1])
    else [portion]
  }

  function Concat(xs: seq<string>): string
    decreases |xs|
  {
    if |xs| == 0 then "" else xs[0] + Concat(xs[1..])
  }

  /** Code resolution never fails and loses nothing: the codes, concatenated,
      give the portion back. A multi-character portion is one code iff it is
      a ChEBI number; otherwise each character is its own code. */
  lemma ResolveCodesProperties(portion: string)
    ensures var r := ResolveCodes(portion);
            && |r| >= 1
            && Concat(r) == portion
            && (|r| == 1 <==> |portion| <= 1 || IsChEBI(portion))
            && (|portion| > 1 && !IsChEBI(portion) ==>
                  |r| == |portion| && forall i :: 0 <= i < |r| ==> r[i] == [portion[i]])
  {
    var r := ResolveCodes(portion);
    if |portion| > 1 && !IsChEBI(portion) {
      ConcatSingles(portion, r);
    } else {
      assert Concat(r) == portion + Concat([]);
    }
  }

  lemma {:induction false} ConcatSingles(s: string, r: seq<string>)
    requires |r| == |s| && forall i :: 0 <= i < |r| ==> r[i] == [s[i]]
    ensures Concat(r) == s
    decreases |s|
  {
    if |s| > 0 {
      ConcatSingles(s[1..], r[1..]);
      assert s == [s[0]] + s[1..];
    }
  }

  /** Codes split from a non-numeric portion are pairwise distinct exactly
      when the portion's characters are. */
  lemma SplitCodesDistinct(portion: string)
    requires |portion| > 1 && !IsChEBI(portion)
    ensures var r := ResolveCodes(portion);
            (forall i, j :: 0 <= i < j < |r| ==> r[i] != r[j]) <==>
            (forall i, j :: 0 <= i < j < |portion| ==> portion[i] != portion[j])
  {
    var r := ResolveCodes(portion);
    assert forall i :: 0 <= i < |r| ==> r[i] == [portion[i]];
    if forall i, j :: 0 <= i < j < |portion| ==> portion[i] != portion[j] {
      forall i, j | 0 <= i < j < |r| ensures r[i] != r[j] {
        assert r[i][0] != r[j][0];
      }
    }
  }
}
