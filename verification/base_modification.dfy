/** `getBaseModificationSets`: the MM tag is cut into `;` groups, each group
    into a `,` header and skip counts; each group with skip counts yields one
    `BaseModificationSet` per modification code, its likelihoods drawn from
    the ML array through a cursor that runs across all groups. */
module BaseModification {
  import opened Results
  import opened JavaText
  import opened ModCodes
  import opened SkipScan
  import opened ScanReference

  /** The sequence reversed and complemented base by base, in the shape of
      `reverseComplementCopy`; the per-base complement is the caller's. */
  function ReverseComplement(s: seq<byte>, complement: byte -> byte): (r: seq<byte>)
    ensures |r| == |s|
    ensures forall k :: 0 <= k < |s| ==> r[k] == complement(s[|s| - 1 - k])
  {
    seq(|s|, k requires 0 <= k < |s| => complement(s[|s| - 1 - k]))
  }

  /** Under a complement that undoes itself on the bases present, reverse
      complementing twice gives the sequence back. */
  lemma ReverseComplementTwice(s: seq<byte>, complement: byte -> byte)
    requires forall k :: 0 <= k < |s| ==> complement(complement(s[k])) == s[k]
    ensures ReverseComplement(ReverseComplement(s, complement), complement) == s
  {
    var r := ReverseComplement(s, complement);
    var rr := ReverseComplement(r, complement);
    forall k | 0 <= k < |s| ensures rr[k] == s[k] {
      assert rr[k] == complement(r[|s| - 1 - k]);
      assert r[|s| - 1 - k] == complement(s[k]);
    }
  }

  /** The sequence the scan walks: the read as given on the forward strand,
      and read backwards through the complement on the reverse strand. */
  function WorkSequence(sequence: seq<byte>, negative: bool, complement: byte -> byte): (r: seq<byte>)
    ensures |r| == |sequence|
    ensures !negative ==> r == sequence
    ensures negative ==> forall k :: 0 <= k < |r| ==> r[k] == complement(sequence[|sequence| - 1 - k])
  {
    if negative then ReverseComplement(sequence, complement) else sequence
  }

  /** The scan environment of a group whose header and codes are known. */
  function GroupEnv(tokens: seq<string>, codes: seq<string>, work: seq<byte>, negative: bool, ml: Option<seq<byte>>): ScanEnv
    requires |tokens| >= 1 && |tokens[0]| >= 2
  {
    ScanEnv(work, negative, ml, tokens[0][0], EndsWith(tokens[0], '.'), codes, tokens)
  }

  /** One empty likelihood map per distinct code. */
  function EmptyMaps(codes: seq<string>): (r: CodeMaps)
    ensures forall c :: c in codes ==> c in r && r[c] == map[]
  {
    map c | c in codes :: map[]
  }

  /** The sets of one group and the cursor after it, from the group text
      `mmi` and the cursor before it. */
  function DecodeGroup(mmi: string, work: seq<byte>, negative: bool, ml: Option<seq<byte>>, cursor: nat)
    : (r: Result<(seq<BaseModificationSet>, nat), DecodeError>)
    requires ml.Some? ==> cursor <= |ml.value|
    ensures r.Success? ==> cursor <= r.value.1
    ensures r.Success? && ml.None? ==> r.value.1 == cursor
    ensures r.Success? && ml.Some? ==> r.value.1 <= |ml.value|
  {
    var tokens := Split(mmi, ',');
    if |tokens| == 0 then Failure(MissingHeader)
    else if |tokens[0]| < 2 then Failure(HeaderTooShort(tokens[0]))
    else if |tokens| == 1 then Success(([], cursor))
    else DecodeCounted(tokens, work, negative, ml, cursor)
  }

  /** A group with a header and at least one skip count: resolve the codes,
      parse the first count, scan, and emit one set per code. */
  function DecodeCounted(tokens: seq<string>, work: seq<byte>, negative: bool, ml: Option<seq<byte>>, cursor: nat)
    : (r: Result<(seq<BaseModificationSet>, nat), DecodeError>)
    requires |tokens| >= 2 && |tokens[0]| >= 2
    requires ml.Some? ==> cursor <= |ml.value|
    ensures r.Success? ==> cursor <= r.value.1
    ensures r.Success? && ml.None? ==> r.value.1 == cursor
    ensures r.Success? && ml.Some? ==> r.value.1 <= |ml.value|
    ensures r.Success? ==>
              && CodePortion(tokens[0]).Success?
              && var codes := ResolveCodes(CodePortion(tokens[0]).value);
                 && |r.value.0| == |codes|
                 && forall i :: 0 <= i < |codes| ==>
                      && r.value.0[i].base == tokens[0][0]
                      && r.value.0[i].strand == tokens[0][1]
                      && r.value.0[i].modification == codes[i]
  {
    var portion :- CodePortion(tokens[0]);
    var codes := ResolveCodes(portion);
    var skip :- ParseSkip(tokens[1]);
    var env := GroupEnv(tokens, codes, work, negative, ml);
    var scanned :- Scan(env, 0, 0, 2, skip, cursor, EmptyMaps(codes));
    Success((SetsOf(tokens[0], codes, scanned.0), scanned.1))
  }

  /** One set per code, in code order; a code listed twice appears twice
      with the one map the two share. */
  function SetsOf(header: string, codes: seq<string>, maps: CodeMaps): (r: seq<BaseModificationSet>)
    requires |header| >= 2
    requires forall c :: c in codes ==> c in maps
    ensures |r| == |codes|
    ensures forall i :: 0 <= i < |codes| ==>
              r[i] == BaseModificationSet(header[0], header[1], codes[i], maps[codes[i]])
    ensures forall i, j :: 0 <= i < |codes| && 0 <= j < |codes| && codes[i] == codes[j] ==>
              r[i].likelihoods == r[j].likelihoods
  {
    seq(|codes|, i requires 0 <= i < |codes| => BaseModificationSet(header[0], header[1], codes[i], maps[codes[i]]))
  }

  /** The groups in order, the cursor carried from each to the next. */
  function DecodeGroups(groups: seq<string>, work: seq<byte>, negative: bool, ml: Option<seq<byte>>, cursor: nat)
    : (r: Result<(seq<BaseModificationSet>, nat), DecodeError>)
    requires ml.Some? ==> cursor <= |ml.value|
    ensures r.Success? ==> cursor <= r.value.1
    ensures r.Success? && ml.None? ==> r.value.1 == cursor
    ensures r.Success? && ml.Some? ==> r.value.1 <= |ml.value|
    ensures r.Success? ==> forall i, q :: 0 <= i < |r.value.0| && q in r.value.0[i].likelihoods ==> q < |work|
    decreases |groups|
  {
    if |groups| == 0 then Success(([], cursor))
    else
      var first :- DecodeGroup(groups[0], work, negative, ml, cursor);
      var rest :- DecodeGroups(groups[1..], work, negative, ml, first.1);
      DecodeGroupShape(groups[0], work, negative, ml, cursor);
      Success((first.0 + rest.0, rest.1))
  }

  /** `getBaseModificationSets(mm, ml, sequence, isNegativeStrand)`; `None`
      for `ml` is a null array, and `complement` is the per-base complement
      the reverse complement uses. */
  function GetBaseModificationSets(mm: string, ml: Option<seq<byte>>, sequence: seq<byte>, negative: bool, complement: byte -> byte)
    : (r: Result<seq<BaseModificationSet>, DecodeError>)
    ensures r.Success? ==> forall i, q :: 0 <= i < |r.value| && q in r.value[i].likelihoods ==> q < |sequence|
  {
    var decoded :- DecodeGroups(Split(mm, ';'), WorkSequence(sequence, negative, complement), negative, ml, 0);
    Success(decoded.0)
  }

  // ---------------------------------------------------------------- errors

  /** The ways a group fails, each tied to its cause: no header at all, a
      header shorter than base and strand, a bare `.`/`?` flag with skip
      counts after it, a skip count that does not parse (an unparseable
      first count always fails the group), or a likelihood array that runs
      out. */
  lemma DecodeGroupErrors(mmi: string, work: seq<byte>, negative: bool, ml: Option<seq<byte>>, cursor: nat)
    requires ml.Some? ==> cursor <= |ml.value|
    ensures var tokens := Split(mmi, ',');
            var r := DecodeGroup(mmi, work, negative, ml, cursor);
            && (r == Failure(MissingHeader) <==> |tokens| == 0)
            && (r.Failure? && r.error.HeaderTooShort? <==> |tokens| >= 1 && |tokens[0]| < 2)
            && (r.Failure? && r.error.CodeRangeError? <==>
                  |tokens| >= 2 && |tokens[0]| == 2 && (tokens[0][1] == '.' || tokens[0][1] == '?'))
            && (r.Failure? && r.error.BadSkipCount? ==>
                  exists k :: 1 <= k < |tokens| && ParseInt(tokens[k]).None? && r.error == BadSkipCount(tokens[k]))
            && (|tokens| >= 2 && |tokens[0]| >= 2 && CodePortion(tokens[0]).Success? && ParseInt(tokens[1]).None? ==>
                  r == Failure(BadSkipCount(tokens[1])))
            && (r.Failure? && r.error.LikelihoodUnderrun? ==>
                  ml.Some? && r.error == LikelihoodUnderrun(|ml.value|))
  {
    var tokens := Split(mmi, ',');
    var r := DecodeGroup(mmi, work, negative, ml, cursor);
    if |tokens| >= 2 && |tokens[0]| >= 2 && CodePortion(tokens[0]).Success? && ParseInt(tokens[1]).Some? {
      var codes := ResolveCodes(CodePortion(tokens[0]).value);
      var env := GroupEnv(tokens, codes, work, negative, ml);
      var skip := ParseInt(tokens[1]).value;
      if Scan(env, 0, 0, 2, skip, cursor, EmptyMaps(codes)).Failure? {
        ScanFailureCause(env, 0, 0, 2, skip, cursor, EmptyMaps(codes));
      }
    }
  }

  /** An empty MM string is one empty group, whose missing header fails. */
  lemma EmptyTagFails(ml: Option<seq<byte>>, sequence: seq<byte>, negative: bool, complement: byte -> byte)
    ensures GetBaseModificationSets("", ml, sequence, negative, complement) == Failure(HeaderTooShort(""))
  {
    var work := WorkSequence(sequence, negative, complement);
    assert Split("", ';') == [""];
    assert Split("", ',') == [""];
    assert DecodeGroup("", work, negative, ml, 0) == Failure(HeaderTooShort(""));
  }

  /** A tag that is only the separator is no group at all, since
      `";".split(";")` is empty: it decodes to no sets. */
  lemma SeparatorOnlyTag(ml: Option<seq<byte>>, sequence: seq<byte>, negative: bool, complement: byte -> byte)
    ensures GetBaseModificationSets(";", ml, sequence, negative, complement) == Success([])
  {
    assert Split(";", ';') == [];
  }

  // ---------------------------------------------------------------- shape

  /** What a group that decodes looks like: a header with no skip counts
      yields nothing and draws nothing; otherwise there is one set per
      resolved code, in code order, carrying the header's base and strand
      characters. Every key is a coordinate of the sequence whose visited
      base is a candidate, and the codes of a group share one key set. */
  lemma DecodeGroupShape(mmi: string, work: seq<byte>, negative: bool, ml: Option<seq<byte>>, cursor: nat)
    requires ml.Some? ==> cursor <= |ml.value|
    requires DecodeGroup(mmi, work, negative, ml, cursor).Success?
    ensures var tokens := Split(mmi, ',');
            var sets := DecodeGroup(mmi, work, negative, ml, cursor).value.0;
            && |tokens| >= 1 && |tokens[0]| >= 2
            && (|tokens| == 1 ==> DecodeGroup(mmi, work, negative, ml, cursor).value == ([], cursor))
            && (|tokens| >= 2 ==>
                  && CodePortion(tokens[0]).Success?
                  && var codes := ResolveCodes(CodePortion(tokens[0]).value);
                     && |sets| == |codes|
                     && forall i :: 0 <= i < |sets| ==>
                          && sets[i].base == tokens[0][0]
                          && sets[i].strand == tokens[0][1]
                          && sets[i].modification == codes[i]
                          && sets[i].likelihoods.Keys == sets[0].likelihoods.Keys
                          && forall q :: q in sets[i].likelihoods ==>
                               Recordable(GroupEnv(tokens, codes, work, negative, ml), q))
  {
    var tokens := Split(mmi, ',');
    if |tokens| >= 2 {
      var codes := ResolveCodes(CodePortion(tokens[0]).value);
      var env := GroupEnv(tokens, codes, work, negative, ml);
      var skip := ParseInt(tokens[1]).value;
      var maps := EmptyMaps(codes);
      var scanned := Scan(env, 0, 0, 2, skip, cursor, maps).value.0;
      var sets := DecodeGroup(mmi, work, negative, ml, cursor).value.0;
      assert sets == SetsOf(tokens[0], codes, scanned);
      ResolveCodesProperties(CodePortion(tokens[0]).value);
      forall i | 0 <= i < |sets|
        ensures sets[i].likelihoods.Keys == sets[0].likelihoods.Keys
        ensures forall q :: q in sets[i].likelihoods ==> Recordable(env, q)
      {
        ScanSameKeys(env, 0, 0, 2, skip, cursor, maps, codes[i], codes[0]);
        forall q | q in sets[i].likelihoods ensures Recordable(env, q) {
          ScanKeyOrigin(env, 0, 0, 2, skip, cursor, maps, codes[i], q);
        }
      }
    }
  }

  /** A header alone, whatever its characters, yields nothing and leaves the
      cursor where it was. */
  lemma HeaderOnlyGroup(header: string, work: seq<byte>, negative: bool, ml: Option<seq<byte>>, cursor: nat)
    requires |header| >= 2 && ',' !in header
    requires ml.Some? ==> cursor <= |ml.value|
    ensures DecodeGroup(header, work, negative, ml, cursor) == Success(([], cursor))
  {
    PiecesSingle(header, ',');
    PiecesLastEmpty(header, ',');
  }

  // ---------------------------------------------------------------- likelihoods

  /** Whether a group has skip counts, a header with a code portion, and
      skip counts that all parse: the groups the reference decoder covers. */
  predicate ReferenceApplies(tokens: seq<string>) {
    |tokens| >= 2 && |tokens[0]| >= 2 && CodePortion(tokens[0]).Success? && AllParse(tokens[1..])
  }

  function GroupCodes(tokens: seq<string>): seq<string>
    requires ReferenceApplies(tokens)
  {
    ResolveCodes(CodePortion(tokens[0]).value)
  }

  /** The reference trace of a group: its candidates against its skip counts. */
  function GroupTrace(tokens: seq<string>, work: seq<byte>): seq<Step>
    requires ReferenceApplies(tokens)
  {
    Trace(CandsFrom(work, tokens[0][0], 0), Skips(tokens[1..]))
  }

  /** The reference decoder of a group: it fails exactly when the likelihood
      array holds fewer than one byte per selected position per code from
      the cursor on; otherwise the cursor moves by that many bytes and each
      code's set holds the trace played on an empty map, for the code's last
      occurrence. */
  function ReferenceGroup(tokens: seq<string>, work: seq<byte>, negative: bool, ml: Option<seq<byte>>, cursor: nat)
    : Result<(seq<BaseModificationSet>, nat), DecodeError>
    requires ReferenceApplies(tokens)
  {
    var codes := GroupCodes(tokens);
    var env := GroupEnv(tokens, codes, work, negative, ml);
    var t := GroupTrace(tokens, work);
    TraceStepsIn(env, 0, Skips(tokens[1..]));
    if ml.Some? && cursor + |Takes(t)| * |codes| > |ml.value| then Failure(LikelihoodUnderrun(|ml.value|))
    else
      Success((ReplaySets(tokens[0], codes, env, t, cursor), cursor + Width(ml, |Takes(t)| * |codes|)))
  }

  /** One set per code, holding the trace played on an empty map for the
      code's last occurrence. */
  function ReplaySets(header: string, codes: seq<string>, env: ScanEnv, t: seq<Step>, cursor: nat): (r: seq<BaseModificationSet>)
    requires |header| >= 2 && StepsIn(t, |env.work|)
    ensures |r| == |codes|
    ensures forall i :: 0 <= i < |codes| ==>
              r[i] == BaseModificationSet(header[0], header[1], codes[i], Replay(env, map[], t, cursor, LastIndex(codes, codes[i])))
  {
    seq(|codes|, i requires 0 <= i < |codes| =>
      BaseModificationSet(header[0], header[1], codes[i], Replay(env, map[], t, cursor, LastIndex(codes, codes[i]))))
  }

  /** Maps that hold, code by code, what the trace leaves give the reference sets. */
  lemma SetsAgree(header: string, codes: seq<string>, maps: CodeMaps, env: ScanEnv, t: seq<Step>, cursor: nat)
    requires |header| >= 2 && StepsIn(t, |env.work|)
    requires forall c :: c in codes ==> c in maps
    requires forall i :: 0 <= i < |codes| ==> maps[codes[i]] == Replay(env, map[], t, cursor, LastIndex(codes, codes[i]))
    ensures SetsOf(header, codes, maps) == ReplaySets(header, codes, env, t, cursor)
  {
  }

  /** A group whose skip counts all parse decodes exactly as the reference
      decoder says. */
  lemma DecodeGroupMatchesReference(mmi: string, work: seq<byte>, negative: bool, ml: Option<seq<byte>>, cursor: nat)
    requires ml.Some? ==> cursor <= |ml.value|
    requires ReferenceApplies(Split(mmi, ','))
    ensures DecodeGroup(mmi, work, negative, ml, cursor) == ReferenceGroup(Split(mmi, ','), work, negative, ml, cursor)
  {
    CountedMatchesReference(Split(mmi, ','), work, negative, ml, cursor);
  }

  /** The scan of a counted group, from its first candidate with its first
      skip count. */
  function CountedScan(tokens: seq<string>, work: seq<byte>, negative: bool, ml: Option<seq<byte>>, cursor: nat)
    : Result<(CodeMaps, nat), DecodeError>
    requires ReferenceApplies(tokens)
    requires ml.Some? ==> cursor <= |ml.value|
  {
    var codes := GroupCodes(tokens);
    Scan(GroupEnv(tokens, codes, work, negative, ml), 0, 0, 2, ParseInt(tokens[1]).value, cursor, EmptyMaps(codes))
  }

  /** The scan state a counted group starts from, and the trace from it. */
  lemma CountedStart(tokens: seq<string>, work: seq<byte>, negative: bool, ml: Option<seq<byte>>)
    requires ReferenceApplies(tokens)
    ensures AllParse(tokens[2..])
    ensures var env := GroupEnv(tokens, GroupCodes(tokens), work, negative, ml);
            TraceOf(env, 0, 0, 2, ParseInt(tokens[1]).value) == GroupTrace(tokens, work)
  {
    TraceOfFirst(GroupEnv(tokens, GroupCodes(tokens), work, negative, ml));
  }

  lemma CountedMatchesReference(tokens: seq<string>, work: seq<byte>, negative: bool, ml: Option<seq<byte>>, cursor: nat)
    requires ml.Some? ==> cursor <= |ml.value|
    requires ReferenceApplies(tokens)
    ensures DecodeCounted(tokens, work, negative, ml, cursor) == ReferenceGroup(tokens, work, negative, ml, cursor)
  {
    if CountedScan(tokens, work, negative, ml, cursor).Failure? {
      CountedFailureMatches(tokens, work, negative, ml, cursor);
    } else {
      CountedSuccessMatches(tokens, work, negative, ml, cursor);
    }
  }

  /** A counted group whose scan fails fails as the reference does. */
  lemma CountedFailureMatches(tokens: seq<string>, work: seq<byte>, negative: bool, ml: Option<seq<byte>>, cursor: nat)
    requires ml.Some? ==> cursor <= |ml.value|
    requires ReferenceApplies(tokens)
    requires CountedScan(tokens, work, negative, ml, cursor).Failure?
    ensures DecodeCounted(tokens, work, negative, ml, cursor) == ReferenceGroup(tokens, work, negative, ml, cursor)
  {
    CountedStart(tokens, work, negative, ml);
    DecodeCountedByScan(tokens, work, negative, ml, cursor);
    CountedScanFails(tokens, work, negative, ml, cursor);
    ReferenceGroupFailure(tokens, work, negative, ml, cursor);
  }

  /** A counted group whose scan succeeds gives the reference's sets and cursor. */
  lemma CountedSuccessMatches(tokens: seq<string>, work: seq<byte>, negative: bool, ml: Option<seq<byte>>, cursor: nat)
    requires ml.Some? ==> cursor <= |ml.value|
    requires ReferenceApplies(tokens)
    requires CountedScan(tokens, work, negative, ml, cursor).Success?
    ensures DecodeCounted(tokens, work, negative, ml, cursor) == ReferenceGroup(tokens, work, negative, ml, cursor)
  {
    CountedStart(tokens, work, negative, ml);
    DecodeCountedByScan(tokens, work, negative, ml, cursor);
    CountedScanSucceeds(tokens, work, negative, ml, cursor);
    ReferenceGroupSuccess(tokens, work, negative, ml, cursor);
  }

  /** Past its header, a counted group whose first count parses is its scan. */
  lemma DecodeCountedByScan(tokens: seq<string>, work: seq<byte>, negative: bool, ml: Option<seq<byte>>, cursor: nat)
    requires ml.Some? ==> cursor <= |ml.value|
    requires ReferenceApplies(tokens)
    ensures var scan := CountedScan(tokens, work, negative, ml, cursor);
            DecodeCounted(tokens, work, negative, ml, cursor) ==
            if scan.Failure? then Failure(scan.error)
            else Success((SetsOf(tokens[0], GroupCodes(tokens), scan.value.0), scan.value.1))
  {
  }

  /** The reference decoder's result when the likelihood array is too short. */
  lemma ReferenceGroupFailure(tokens: seq<string>, work: seq<byte>, negative: bool, ml: Option<seq<byte>>, cursor: nat)
    requires ReferenceApplies(tokens)
    requires ml.Some? && cursor + |Takes(GroupTrace(tokens, work))| * |GroupCodes(tokens)| > |ml.value|
    ensures ReferenceGroup(tokens, work, negative, ml, cursor) == Failure(LikelihoodUnderrun(|ml.value|))
  {
  }

  /** A failing scan of a group whose counts all parse ran out of likelihoods. */
  lemma CountedScanFails(tokens: seq<string>, work: seq<byte>, negative: bool, ml: Option<seq<byte>>, cursor: nat)
    requires ml.Some? ==> cursor <= |ml.value|
    requires ReferenceApplies(tokens) && AllParse(tokens[2..])
    requires CountedScan(tokens, work, negative, ml, cursor).Failure?
    requires var env := GroupEnv(tokens, GroupCodes(tokens), work, negative, ml);
             TraceOf(env, 0, 0, 2, ParseInt(tokens[1]).value) == GroupTrace(tokens, work)
    ensures ml.Some? && CountedScan(tokens, work, negative, ml, cursor).error == LikelihoodUnderrun(|ml.value|)
    ensures ml.Some? && cursor + |Takes(GroupTrace(tokens, work))| * |GroupCodes(tokens)| > |ml.value|
  {
    var codes := GroupCodes(tokens);
    var env := GroupEnv(tokens, codes, work, negative, ml);
    var skip := ParseInt(tokens[1]).value;
    var scan := Scan(env, 0, 0, 2, skip, cursor, EmptyMaps(codes));
    ScanFailureCause(env, 0, 0, 2, skip, cursor, EmptyMaps(codes));
    ResolveCodesProperties(CodePortion(tokens[0]).value);
    ScanMatchesReference(env, 0, 0, 2, skip, cursor, EmptyMaps(codes), codes[0]);
  }

  /** A succeeding scan of such a group leaves in each code's map what the
      reference trace leaves. */
  lemma CountedScanSucceeds(tokens: seq<string>, work: seq<byte>, negative: bool, ml: Option<seq<byte>>, cursor: nat)
    requires ml.Some? ==> cursor <= |ml.value|
    requires ReferenceApplies(tokens) && AllParse(tokens[2..])
    requires var env := GroupEnv(tokens, GroupCodes(tokens), work, negative, ml);
             TraceOf(env, 0, 0, 2, ParseInt(tokens[1]).value) == GroupTrace(tokens, work)
    requires CountedScan(tokens, work, negative, ml, cursor).Success?
    ensures StepsIn(GroupTrace(tokens, work), |work|)
    ensures var codes := GroupCodes(tokens);
            var env := GroupEnv(tokens, codes, work, negative, ml);
            var t := GroupTrace(tokens, work);
            var scan := CountedScan(tokens, work, negative, ml, cursor);
            && (ml.None? || cursor + |Takes(t)| * |codes| <= |ml.value|)
            && scan.value.1 == cursor + Width(ml, |Takes(t)| * |codes|)
            && SetsOf(tokens[0], codes, scan.value.0) == ReplaySets(tokens[0], codes, env, t, cursor)
  {
    var codes := GroupCodes(tokens);
    var env := GroupEnv(tokens, codes, work, negative, ml);
    var skip := ParseInt(tokens[1]).value;
    var maps := EmptyMaps(codes);
    var t := GroupTrace(tokens, work);
    var scan := Scan(env, 0, 0, 2, skip, cursor, maps);
    TraceWellFormed(env, 0, Skips(tokens[1..]));
    ResolveCodesProperties(CodePortion(tokens[0]).value);
    ScanMatchesReference(env, 0, 0, 2, skip, cursor, maps, codes[0]);
    ScanLeavesReplay(tokens, work, negative, ml, cursor);
    SetsAgree(tokens[0], codes, scan.value.0, env, t, cursor);
  }

  /** The reference decoder's result when the likelihood array is long enough. */
  lemma ReferenceGroupSuccess(tokens: seq<string>, work: seq<byte>, negative: bool, ml: Option<seq<byte>>, cursor: nat)
    requires ReferenceApplies(tokens)
    requires ml.None? || cursor + |Takes(GroupTrace(tokens, work))| * |GroupCodes(tokens)| <= |ml.value|
    ensures StepsIn(GroupTrace(tokens, work), |work|)
    ensures var codes := GroupCodes(tokens);
            var env := GroupEnv(tokens, codes, work, negative, ml);
            var t := GroupTrace(tokens, work);
            ReferenceGroup(tokens, work, negative, ml, cursor) ==
            Success((ReplaySets(tokens[0], codes, env, t, cursor), cursor + Width(ml, |Takes(t)| * |codes|)))
  {
    TraceStepsIn(GroupEnv(tokens, GroupCodes(tokens), work, negative, ml), 0, Skips(tokens[1..]));
  }

  /** Each code's map after a succeeding scan is the trace played on an empty map. */
  lemma ScanLeavesReplay(tokens: seq<string>, work: seq<byte>, negative: bool, ml: Option<seq<byte>>, cursor: nat)
    requires ml.Some? ==> cursor <= |ml.value|
    requires ReferenceApplies(tokens) && AllParse(tokens[2..])
    requires var env := GroupEnv(tokens, GroupCodes(tokens), work, negative, ml);
             TraceOf(env, 0, 0, 2, ParseInt(tokens[1]).value) == GroupTrace(tokens, work)
    requires CountedScan(tokens, work, negative, ml, cursor).Success?
    ensures var codes := GroupCodes(tokens);
            var env := GroupEnv(tokens, codes, work, negative, ml);
            var scan := CountedScan(tokens, work, negative, ml, cursor);
            && StepsIn(GroupTrace(tokens, work), |work|)
            && forall i :: 0 <= i < |codes| ==>
                 scan.value.0[codes[i]] == Replay(env, map[], GroupTrace(tokens, work), cursor, LastIndex(codes, codes[i]))
  {
    var codes := GroupCodes(tokens);
    var env := GroupEnv(tokens, codes, work, negative, ml);
    var skip := ParseInt(tokens[1]).value;
    var maps := EmptyMaps(codes);
    var t := GroupTrace(tokens, work);
    TraceWellFormed(env, 0, Skips(tokens[1..]));
    forall i | 0 <= i < |codes|
      ensures Scan(env, 0, 0, 2, skip, cursor, maps).value.0[codes[i]] == Replay(env, map[], t, cursor, LastIndex(codes, codes[i]))
    {
      ScanMatchesReference(env, 0, 0, 2, skip, cursor, maps, codes[i]);
    }
  }

  /** The likelihood map of the `i`-th set the reference decoder returns. */
  function GroupLikelihoods(tokens: seq<string>, work: seq<byte>, negative: bool, ml: Option<seq<byte>>, cursor: nat, i: nat): map<nat, byte>
    requires ReferenceApplies(tokens)
    requires ReferenceGroup(tokens, work, negative, ml, cursor).Success?
    requires i < |GroupCodes(tokens)|
  {
    ReferenceGroup(tokens, work, negative, ml, cursor).value.0[i].likelihoods
  }

  /** Each set of the reference decoder holds exactly the coordinates of the
      selected positions, and in a `.` group those of the skipped
      candidates too. */
  lemma ReferenceGroupKeys(tokens: seq<string>, work: seq<byte>, negative: bool, ml: Option<seq<byte>>, cursor: nat, i: nat, q: nat)
    requires ReferenceApplies(tokens)
    requires ReferenceGroup(tokens, work, negative, ml, cursor).Success?
    requires i < |GroupCodes(tokens)|
    ensures StepsIn(GroupTrace(tokens, work), |work|)
    ensures var env := GroupEnv(tokens, GroupCodes(tokens), work, negative, ml);
            q in GroupLikelihoods(tokens, work, negative, ml, cursor, i) <==> Writes(env, GroupTrace(tokens, work), q)
  {
    var codes := GroupCodes(tokens);
    var env := GroupEnv(tokens, codes, work, negative, ml);
    ReferenceGroupSet(tokens, work, negative, ml, cursor, i);
    ReplayKeys(env, map[], GroupTrace(tokens, work), cursor, LastIndex(codes, codes[i]), q);
  }

  /** At the `k`-th step of a `.` group, when it skips, each set holds zero. */
  lemma ReferenceGroupPassValue(tokens: seq<string>, work: seq<byte>, negative: bool, ml: Option<seq<byte>>, cursor: nat, i: nat, k: nat)
    requires ReferenceApplies(tokens)
    requires ReferenceGroup(tokens, work, negative, ml, cursor).Success?
    requires i < |GroupCodes(tokens)|
    requires EndsWith(tokens[0], '.')
    requires k < |GroupTrace(tokens, work)| && GroupTrace(tokens, work)[k].Pass?
    ensures GroupTrace(tokens, work)[k].at < |work|
    ensures var env := GroupEnv(tokens, GroupCodes(tokens), work, negative, ml);
            var likelihoods := GroupLikelihoods(tokens, work, negative, ml, cursor, i);
            var at := Position(env, GroupTrace(tokens, work)[k].at);
            at in likelihoods && likelihoods[at] == 0
  {
    var codes := GroupCodes(tokens);
    var env := GroupEnv(tokens, codes, work, negative, ml);
    ReferenceGroupSet(tokens, work, negative, ml, cursor, i);
    ReplayPassValue(env, map[], GroupTrace(tokens, work), cursor, LastIndex(codes, codes[i]), k);
  }

  /** The `i`-th set of the reference decoder holds the trace played for
      the last occurrence of its code. */
  lemma ReferenceGroupSet(tokens: seq<string>, work: seq<byte>, negative: bool, ml: Option<seq<byte>>, cursor: nat, i: nat)
    requires ReferenceApplies(tokens)
    requires ReferenceGroup(tokens, work, negative, ml, cursor).Success?
    requires i < |GroupCodes(tokens)|
    ensures var codes := GroupCodes(tokens);
            var env := GroupEnv(tokens, codes, work, negative, ml);
            var t := GroupTrace(tokens, work);
            && StepsIn(t, |work|) && DistinctSteps(env, t)
            && GroupLikelihoods(tokens, work, negative, ml, cursor, i) ==
               Replay(env, map[], t, cursor, LastIndex(codes, codes[i]))
  {
    TraceWellFormed(GroupEnv(tokens, GroupCodes(tokens), work, negative, ml), 0, Skips(tokens[1..]));
  }

  /** The reference selects no more positions than the group has skip
      counts, so it draws at most that many bytes per code. */
  lemma ReferenceGroupSelections(tokens: seq<string>, work: seq<byte>)
    requires ReferenceApplies(tokens)
    ensures |Takes(GroupTrace(tokens, work))| <= |tokens| - 1
    ensures |GroupTrace(tokens, work)| <= |CandsFrom(work, tokens[0][0], 0)|
  {
    TracePrefix(CandsFrom(work, tokens[0][0], 0), Skips(tokens[1..]));
  }

  // ---------------------------------------------------------------- groups

  /** Decoding two runs of groups one after the other is decoding their
      concatenation: sets in group order, the cursor carried across. */
  lemma {:induction false} DecodeGroupsAppend(g1: seq<string>, g2: seq<string>, work: seq<byte>, negative: bool, ml: Option<seq<byte>>, cursor: nat)
    requires ml.Some? ==> cursor <= |ml.value|
    ensures var whole := DecodeGroups(g1 + g2, work, negative, ml, cursor);
            var first := DecodeGroups(g1, work, negative, ml, cursor);
            && (first.Failure? ==> whole == first)
            && (first.Success? ==>
                  var second := DecodeGroups(g2, work, negative, ml, first.value.1);
                  && (second.Failure? ==> whole == second)
                  && (second.Success? ==> whole == Success((first.value.0 + second.value.0, second.value.1))))
    decreases |g1|
  {
    if |g1| == 0 {
      assert g1 + g2 == g2;
      var second := DecodeGroups(g2, work, negative, ml, cursor);
      if second.Success? {
        assert [] + second.value.0 == second.value.0;
        assert second == Success((second.value.0, second.value.1));
      }
    } else {
      assert (g1 + g2)[0] == g1[0];
      assert (g1 + g2)[1..] == g1[1..] + g2;
      var head := DecodeGroup(g1[0], work, negative, ml, cursor);
      if head.Success? {
        DecodeGroupsAppend(g1[1..], g2, work, negative, ml, head.value.1);
        var tail := DecodeGroups(g1[1..], work, negative, ml, head.value.1);
        if tail.Success? {
          var second := DecodeGroups(g2, work, negative, ml, tail.value.1);
          if second.Success? {
            ConcatAssoc(head.value.0, tail.value.0, second.value.0);
          }
        }
      }
    }
  }

  lemma ConcatAssoc<T>(a: seq<T>, b: seq<T>, c: seq<T>)
    ensures a + (b + c) == (a + b) + c
  {
  }

  /** A `;` at the end of a non-empty MM string changes nothing. */
  lemma TrailingSemicolon(mm: string, ml: Option<seq<byte>>, sequence: seq<byte>, negative: bool, complement: byte -> byte)
    requires mm != ""
    ensures GetBaseModificationSets(mm + ";", ml, sequence, negative, complement) ==
            GetBaseModificationSets(mm, ml, sequence, negative, complement)
  {
    SplitTrailingSep(mm, ';');
  }

  /** A non-empty tag without `;` is a single group decoded from the start
      of the likelihood array. */
  lemma OneGroupTag(mm: string, ml: Option<seq<byte>>, sequence: seq<byte>, negative: bool, complement: byte -> byte)
    requires mm != "" && ';' !in mm
    ensures var group := DecodeGroup(mm, WorkSequence(sequence, negative, complement), negative, ml, 0);
            var whole := GetBaseModificationSets(mm, ml, sequence, negative, complement);
            && (group.Failure? ==> whole == Failure(group.error))
            && (group.Success? ==> whole == Success(group.value.0))
  {
    PiecesSingle(mm, ';');
    var work := WorkSequence(sequence, negative, complement);
    var group := DecodeGroup(mm, work, negative, ml, 0);
    if group.Success? {
      assert DecodeGroups([mm][1..], work, negative, ml, group.value.1) == Success(([], group.value.1));
      assert group.value.0 + [] == group.value.0;
    }
  }

  /** The whole tag decodes exactly when its first group does and the rest,
      from the cursor that group leaves, does; the sets are the first
      group's followed by the rest's. */
  lemma TagIsGroupsInOrder(first: string, rest: string, ml: Option<seq<byte>>, sequence: seq<byte>, negative: bool, complement: byte -> byte)
    requires ';' !in first
    requires rest != "" && !EndsWith(rest, ';')
    ensures var work := WorkSequence(sequence, negative, complement);
            var whole := GetBaseModificationSets(first + ";" + rest, ml, sequence, negative, complement);
            var head := DecodeGroup(first, work, negative, ml, 0);
            && (head.Failure? ==> whole == Failure(head.error))
            && (head.Success? ==>
                  var tail := DecodeGroups(Split(rest, ';'), work, negative, ml, head.value.1);
                  && (tail.Failure? ==> whole == Failure(tail.error))
                  && (tail.Success? ==> whole == Success(head.value.0 + tail.value.0)))
  {
    SplitCons(first, rest, ';');
    var work := WorkSequence(sequence, negative, complement);
    DecodeGroupsAppend([first], Split(rest, ';'), work, negative, ml, 0);
    var head := DecodeGroup(first, work, negative, ml, 0);
    if head.Success? {
      assert DecodeGroups([first], work, negative, ml, 0) == Success((head.value.0 + [], head.value.1));
      assert head.value.0 + [] == head.value.0;
    }
  }
}
