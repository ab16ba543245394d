/** Worked inputs for the decoder and the display string, each stated as
    the value the model gives. */
module Scenarios {
  import opened Results
  import opened JavaText
  import opened ModCodes
  import opened SkipScan
  import opened BaseModification

  /** The bytes of `CCGTCG`. */
  const Read: seq<byte> := [67, 67, 71, 84, 67, 71]

  /** Complement of the four DNA bases in upper case; anything else is kept. */
  function Complement(b: byte): byte {
    if b == 65 then 84 else if b == 84 then 65 else if b == 67 then 71 else if b == 71 then 67 else b
  }

  /** A known code at full likelihood. */
  lemma FullLikelihoodString()
    ensures ValueString("m", 255) == "Base modification: 5mC (100%)"
  {
    assert Percent(255) == 100;
    assert NatToString(100) == "100";
  }

  /** An unknown code at about half likelihood: 100 * 128 / 255 truncates to 50. */
  lemma UnknownCodeString()
    ensures ValueString("z", 128) == "Base modification: Uknown (50%)"
  {
    assert Percent(128) == 50;
    assert NatToString(50) == "50";
  }

  /** The two smallest non-zero likelihoods still show as 0%. */
  lemma SmallLikelihoodString()
    ensures ValueString("a", 2) == "Base modification: 6mA (0%)"
  {
    assert Percent(2) == 0;
  }

  lemma ChEBINumbers()
    ensures IsChEBI("27551")
    ensures !IsChEBI("")
    ensures !IsChEBI("m")
    ensures !IsChEBI("2755a")
  {
  }

  /** `C+m,1,0` on `CCGTCG` with no likelihood array: skip one C, take the
      next, then take the C after it. */
  lemma SkipOneThenTake()
    ensures GetBaseModificationSets("C+m,1,0", None, Read, false, Complement) ==
            Success([BaseModificationSet('C', '+', "m", map[1 := 255, 4 := 255])])
  {
    OneGroupTag("C+m,1,0", None, Read, false, Complement);
    SkipOneThenTakeGroup();
  }

  lemma SkipOneThenTakeGroup()
    ensures DecodeGroup("C+m,1,0", Read, false, None, 0) ==
            Success(([BaseModificationSet('C', '+', "m", map[1 := 255, 4 := 255])], 0))
  {
    var tokens := ["C+m", "1", "0"];
    SplitThree("C+m", "1", "0", ',');
    assert "C+m,1,0" == "C+m" + "," + "1" + "," + "0";
    assert CodePortion("C+m") == Success("m");
    CodeM();
    CountOne();
    SkipOneThenTakeScan();
    var m2: CodeMaps := map["m" := map[1 := 255, 4 := 255]];
    assert SetsOf("C+m", ["m"], m2) == [BaseModificationSet('C', '+', "m", map[1 := 255, 4 := 255])];
    assert DecodeCounted(tokens, Read, false, None, 0) ==
           Success(([BaseModificationSet('C', '+', "m", map[1 := 255, 4 := 255])], 0));
  }

  lemma SkipOneThenTakeScan()
    ensures Scan(GroupEnv(["C+m", "1", "0"], ["m"], Read, false, None), 0, 0, 2, 1, 0, map["m" := map[]]) ==
            Success((map["m" := map[1 := 255, 4 := 255]], 0))
  {
    var env := GroupEnv(["C+m", "1", "0"], ["m"], Read, false, None);
    var m1: CodeMaps := map["m" := map[1 := 255]];
    var m2: CodeMaps := map["m" := map[1 := 255, 4 := 255]];
    assert m1["m" := m1["m"][4 := 255]] == m2;
    assert Record(env, 1, 4, 0, m2) == Success((m2, 0));
    assert Record(env, 0, 4, 0, m1) == Success((m2, 0));
    assert Scan(env, 4, 0, 3, 0, 0, m1) == Success((m2, 0));
    assert Scan(env, 2, 0, 3, 0, 0, m1) == Success((m2, 0));
    var m0: CodeMaps := map["m" := map[]];
    assert m0["m" := m0["m"][1 := 255]] == m1;
    assert Record(env, 0, 1, 0, m0) == Success((m1, 0));
    assert ParseSkip(env.tokens[2]) == Success(0);
    assert Scan(env, 1, 1, 2, 1, 0, m0) == Success((m2, 0));
  }

  /** `C+m.,1,0` with likelihoods 200 and 100: in a `.` group the C passed
      over is recorded as 0, and each taken C draws the next byte. */
  lemma DottedWithLikelihoods()
    ensures GetBaseModificationSets("C+m.,1,0", Some([200, 100]), Read, false, Complement) ==
            Success([BaseModificationSet('C', '+', "m", map[0 := 0, 1 := 200, 4 := 100])])
  {
    OneGroupTag("C+m.,1,0", Some([200, 100]), Read, false, Complement);
    DottedGroup();
  }

  lemma CountOne()
    ensures ParseSkip("1") == Success(1)
  {
  }

  /** The single code `m` and its empty map. */
  lemma CodeM()
    ensures ResolveCodes("m") == ["m"]
    ensures EmptyMaps(["m"]) == map["m" := map[]]
  {
  }

  /** The tokens of `C+m.,1,0`. */
  lemma DottedSplit()
    ensures Split("C+m.,1,0", ',') == ["C+m.", "1", "0"]
  {
    SplitThree("C+m.", "1", "0", ',');
    assert "C+m.,1,0" == "C+m." + "," + "1" + "," + "0";
  }

  /** The `.` flag is not part of the code. */
  lemma DottedPortion()
    ensures CodePortion("C+m.") == Success("m")
  {
    assert EndsWith("C+m.", '.');
    assert "C+m."[2..3] == "m";
  }

  /** The scan state of `C+m.,1,0` on `CCGTCG`. */
  function DottedEnv(ml: Option<seq<byte>>): ScanEnv {
    GroupEnv(["C+m.", "1", "0"], ["m"], Read, false, ml)
  }

  lemma DottedGroup()
    ensures DecodeGroup("C+m.,1,0", Read, false, Some([200, 100]), 0) ==
            Success(([BaseModificationSet('C', '+', "m", map[0 := 0, 1 := 200, 4 := 100])], 2))
  {
    DottedSplit();
    DottedCounted();
  }

  lemma DottedCounted()
    ensures DecodeCounted(["C+m.", "1", "0"], Read, false, Some([200, 100]), 0) ==
            Success(([BaseModificationSet('C', '+', "m", map[0 := 0, 1 := 200, 4 := 100])], 2))
  {
    DottedPortion();
    CodeM();
    CountOne();
    DottedScan();
    var m3: CodeMaps := map["m" := map[0 := 0, 1 := 200, 4 := 100]];
    assert SetsOf("C+m.", ["m"], m3) == [BaseModificationSet('C', '+', "m", map[0 := 0, 1 := 200, 4 := 100])];
  }

  /** The first C passed over as 0, the second taken with the first byte. */
  lemma DottedHead(ml: Option<seq<byte>>)
    requires ml.Some? && |ml.value| >= 1 && ml.value[0] == 200
    ensures Scan(DottedEnv(ml), 0, 0, 2, 1, 0, map["m" := map[]]) ==
            Scan(DottedEnv(ml), 2, 0, 3, 0, 1, map["m" := map[0 := 0, 1 := 200]])
  {
    var env := DottedEnv(ml);
    var m0: CodeMaps := map["m" := map[]];
    var m1: CodeMaps := map["m" := map[0 := 0]];
    var m2: CodeMaps := map["m" := map[0 := 0, 1 := 200]];
    assert m1["m" := m1["m"][1 := 200]] == m2;
    assert Record(env, 1, 1, 1, m2) == Success((m2, 1));
    assert Record(env, 0, 1, 0, m1) == Success((m2, 1));
    assert ParseSkip(env.tokens[2]) == Success(0);
    assert RecordZero(["m"], 0, m0) == m1;
  }

  lemma DottedScan()
    ensures Scan(DottedEnv(Some([200, 100])), 0, 0, 2, 1, 0, map["m" := map[]]) ==
            Success((map["m" := map[0 := 0, 1 := 200, 4 := 100]], 2))
  {
    DottedHead(Some([200, 100]));
    DottedLast();
  }

  /** The C at index 4 taken with the second byte, ending the group. */
  lemma DottedLast()
    ensures Scan(DottedEnv(Some([200, 100])), 2, 0, 3, 0, 1, map["m" := map[0 := 0, 1 := 200]]) ==
            Success((map["m" := map[0 := 0, 1 := 200, 4 := 100]], 2))
  {
    var env := DottedEnv(Some([200, 100]));
    var m2: CodeMaps := map["m" := map[0 := 0, 1 := 200]];
    var m3: CodeMaps := map["m" := map[0 := 0, 1 := 200, 4 := 100]];
    assert m2["m" := m2["m"][4 := 100]] == m3;
    assert Record(env, 1, 4, 2, m3) == Success((m3, 2));
    assert Record(env, 0, 4, 1, m2) == Success((m3, 2));
    assert Scan(env, 4, 0, 3, 0, 1, m2) == Success((m3, 2));
  }

  /** The same group with a single likelihood byte: the second take finds
      the array exhausted. */
  lemma LikelihoodsRunOut()
    ensures DecodeGroup("C+m.,1,0", Read, false, Some([200]), 0) == Failure(LikelihoodUnderrun(1))
  {
    DottedSplit();
    DottedPortion();
    CodeM();
    CountOne();
    var env := DottedEnv(Some([200]));
    var m2: CodeMaps := map["m" := map[0 := 0, 1 := 200]];
    DottedHead(Some([200]));
    assert Record(env, 0, 4, 1, m2) == Failure(LikelihoodUnderrun(1));
    assert Scan(env, 4, 0, 3, 0, 1, m2) == Failure(LikelihoodUnderrun(1));
    assert Scan(env, 2, 0, 3, 0, 1, m2) == Failure(LikelihoodUnderrun(1));
  }

  /** A count that is never met leaves the tokens after it unread: `x` is
      not a number, yet `C+m,5,x` on `CC` decodes, to an empty map. */
  lemma UnreadCountIsNotParsed()
    ensures ParseInt("x").None?
    ensures DecodeGroup("C+m,5,x", [67, 67], false, None, 0) ==
            Success(([BaseModificationSet('C', '+', "m", map[])], 0))
  {
    var tokens := ["C+m", "5", "x"];
    SplitThree("C+m", "5", "x", ',');
    assert "C+m,5,x" == "C+m" + "," + "5" + "," + "x";
    assert CodePortion("C+m") == Success("m");
    assert ResolveCodes("m") == ["m"];
    assert ParseSkip("5") == Success(5);
    var m0: CodeMaps := map["m" := map[]];
    assert EmptyMaps(["m"]) == m0;
    var env := GroupEnv(tokens, ["m"], [67, 67], false, None);
    assert Scan(env, 1, 1, 2, 5, 0, m0) == Success((m0, 0));
    assert Scan(env, 0, 0, 2, 5, 0, m0) == Success((m0, 0));
    assert SetsOf("C+m", ["m"], m0) == [BaseModificationSet('C', '+', "m", map[])];
  }

  /** Two codes on one group draw their likelihoods in code order: `C+mh,0`
      takes the first C with 10 for `m` and 20 for `h`. */
  lemma TwoCodesDrawInOrder()
    ensures DecodeGroup("C+mh,0", Read, false, Some([10, 20]), 0) ==
            Success(([BaseModificationSet('C', '+', "m", map[0 := 10]),
                      BaseModificationSet('C', '+', "h", map[0 := 20])], 2))
  {
    SplitTwo("C+mh", "0", ',');
    assert "C+mh,0" == "C+mh" + "," + "0";
    TwoCodes();
    assert ParseSkip("0") == Success(0);
    TwoCodesScan();
    var m2: CodeMaps := map["m" := map[0 := 10], "h" := map[0 := 20]];
    assert SetsOf("C+mh", ["m", "h"], m2) ==
           [BaseModificationSet('C', '+', "m", map[0 := 10]), BaseModificationSet('C', '+', "h", map[0 := 20])];
  }

  /** `mh` is not a ChEBI number, so each character is a code. */
  lemma TwoCodes()
    ensures CodePortion("C+mh") == Success("mh")
    ensures ResolveCodes("mh") == ["m", "h"]
    ensures EmptyMaps(["m", "h"]) == map["m" := map[], "h" := map[]]
  {
    assert !IsDigit('m');
    assert !IsChEBI("mh");
    assert "mh"[0..1] == "m" && "mh"[1..2] == "h";
  }

  lemma TwoCodesScan()
    ensures Scan(GroupEnv(["C+mh", "0"], ["m", "h"], Read, false, Some([10, 20])), 0, 0, 2, 0, 0,
                 map["m" := map[], "h" := map[]]) ==
            Success((map["m" := map[0 := 10], "h" := map[0 := 20]], 2))
  {
    var env := GroupEnv(["C+mh", "0"], ["m", "h"], Read, false, Some([10, 20]));
    var m0: CodeMaps := map["m" := map[], "h" := map[]];
    var m1: CodeMaps := map["m" := map[0 := 10], "h" := map[]];
    var m2: CodeMaps := map["m" := map[0 := 10], "h" := map[0 := 20]];
    assert m0["m" := m0["m"][0 := 10]] == m1;
    assert m1["h" := m1["h"][0 := 20]] == m2;
    assert Record(env, 2, 0, 2, m2) == Success((m2, 2));
    assert Record(env, 1, 0, 1, m1) == Success((m2, 2));
    assert Record(env, 0, 0, 0, m0) == Success((m2, 2));
  }

  /** The reverse complement of `CCGTCG` is `CGACGG`. */
  lemma ReadReverseComplement()
    ensures WorkSequence(Read, true, Complement) == [67, 71, 65, 67, 71, 71]
  {
    var rc := ReverseComplement(Read, Complement);
    assert rc[0] == Complement(71) && rc[1] == Complement(67) && rc[2] == Complement(84);
    assert rc[3] == Complement(71) && rc[4] == Complement(67) && rc[5] == Complement(67);
  }

  /** On a negative-strand read the scan walks the reverse complement but
      records coordinates of the read as given: the first C of the reverse
      complement of `CCGTCG` is the last base, a G, at coordinate 5. */
  lemma NegativeStrandCoordinates()
    ensures GetBaseModificationSets("C-m,0", None, Read, true, Complement) ==
            Success([BaseModificationSet('C', '-', "m", map[5 := 255])])
  {
    ReadReverseComplement();
    OneGroupTag("C-m,0", None, Read, true, Complement);
    NegativeGroup();
  }

  lemma NegativeGroup()
    ensures DecodeGroup("C-m,0", [67, 71, 65, 67, 71, 71], true, None, 0) ==
            Success(([BaseModificationSet('C', '-', "m", map[5 := 255])], 0))
  {
    SplitTwo("C-m", "0", ',');
    assert "C-m,0" == "C-m" + "," + "0";
    assert CodePortion("C-m") == Success("m");
    assert ResolveCodes("m") == ["m"];
    assert ParseSkip("0") == Success(0);
    assert EmptyMaps(["m"]) == map["m" := map[]];
    NegativeScan();
    assert SetsOf("C-m", ["m"], map["m" := map[5 := 255]]) == [BaseModificationSet('C', '-', "m", map[5 := 255])];
  }

  lemma NegativeScan()
    ensures Scan(GroupEnv(["C-m", "0"], ["m"], [67, 71, 65, 67, 71, 71], true, None), 0, 0, 2, 0, 0, map["m" := map[]]) ==
            Success((map["m" := map[5 := 255]], 0))
  {
    var env := GroupEnv(["C-m", "0"], ["m"], [67, 71, 65, 67, 71, 71], true, None);
    var m0: CodeMaps := map["m" := map[]];
    assert Position(env, 0) == 5;
    var m1: CodeMaps := map["m" := map[5 := 255]];
    assert m0["m" := m0["m"][5 := 255]] == m1;
    assert Record(env, 0, 5, 0, m0) == Success((m1, 0));
  }
}
