/** Groups whose skip counts do not all parse. Counts after the first are
    parsed only when the scan reaches them, so a group with a malformed count
    behaves like the group cut just before that count, except when the scan
    gets as far as the cut: then the parse runs and fails. */
module LazyCounts {
  import opened Results
  import opened JavaText
  import opened ModCodes
  import opened SkipScan
  import opened ScanReference
  import opened BaseModification

  /** The scan environment with only the tokens before index `k`. */
  function Truncated(env: ScanEnv, k: nat): (r: ScanEnv)
    requires k <= |env.tokens|
    ensures r.tokens == env.tokens[..k]
    ensures r.work == env.work && r.base == env.base && r.codes == env.codes && r.ml == env.ml
  {
    env.(tokens := env.tokens[..k])
  }

  /** Whether the trace from a scan state takes one candidate for every
      count still to be met, so that the scan ends on the last count's take. */
  predicate UsesEveryCount(env: ScanEnv, p: nat, matchCount: nat, idx: nat, skip: int)
    requires p <= |env.work| && idx <= |env.tokens| && AllParse(env.tokens[idx..])
  {
    |Takes(TraceOf(env, p, matchCount, idx, skip))| == |RemainingSkips(env, matchCount, idx, skip)|
  }

  /** The draws of a selection do not look at the tokens. */
  lemma {:induction false} RecordIgnoresTokens(env: ScanEnv, ts: seq<string>, j: nat, pos: nat, cursor: nat, maps: CodeMaps)
    requires j <= |env.codes|
    requires forall m :: m in env.codes ==> m in maps
    requires env.ml.Some? ==> cursor <= |env.ml.value|
    ensures Record(env.(tokens := ts), j, pos, cursor, maps) == Record(env, j, pos, cursor, maps)
    decreases |env.codes| - j
  {
    if j < |env.codes| && Draw(env.ml, cursor).Success? {
      var m := env.codes[j];
      var updated: map<nat, byte> := maps[m][pos := Draw(env.ml, cursor).value];
      RecordIgnoresTokens(env, ts, j + 1, pos, Advance(env.ml, cursor), maps[m := updated]);
    }
  }

  /** The scan with a malformed count at token `k` and the scan of the
      tokens before it agree, unless the cut scan succeeds by taking a
      candidate for every count: the full scan then parses token `k` and
      fails on it. */
  lemma {:induction false} ScanUntilUnparsed(
    env: ScanEnv, k: nat, p: nat, matchCount: nat, idx: nat, skip: int, cursor: nat, maps: CodeMaps)
    requires p <= |env.work|
    requires forall c :: c in env.codes ==> c in maps
    requires env.ml.Some? ==> cursor <= |env.ml.value|
    requires idx <= k < |env.tokens| && AllParse(env.tokens[idx..k]) && ParseInt(env.tokens[k]).None?
    requires skip < 0 || matchCount <= skip
    ensures Truncated(env, k).tokens[idx..] == env.tokens[idx..k]
    ensures var cut := Truncated(env, k);
            var r := Scan(env, p, matchCount, idx, skip, cursor, maps);
            var r' := Scan(cut, p, matchCount, idx, skip, cursor, maps);
            && (r'.Failure? || !UsesEveryCount(cut, p, matchCount, idx, skip) ==> r == r')
            && (r'.Success? && UsesEveryCount(cut, p, matchCount, idx, skip) ==> r == Failure(BadSkipCount(env.tokens[k])))
    decreases |env.work| - p, 2
  {
    if p == |env.work| {
      UnparsedEnd(env, k, matchCount, idx, skip, cursor, maps);
    } else if !IsCandidate(env.base, env.work[p]) {
      UnparsedOther(env, k, p, matchCount, idx, skip, cursor, maps);
    } else if matchCount == skip {
      if Record(env, 0, Position(env, p), cursor, maps).Failure? {
        UnparsedHitFail(env, k, p, idx, skip, cursor, maps);
      } else if idx < k {
        UnparsedHitNext(env, k, p, idx, skip, cursor, maps);
      } else {
        UnparsedHitCut(env, k, p, skip, cursor, maps);
      }
    } else {
      UnparsedPass(env, k, p, matchCount, idx, skip, cursor, maps);
    }
  }

  /** The end of the sequence: both scans stop with what they hold, and a
      trace with no candidates takes nothing. */
  lemma UnparsedEnd(env: ScanEnv, k: nat, matchCount: nat, idx: nat, skip: int, cursor: nat, maps: CodeMaps)
    requires forall c :: c in env.codes ==> c in maps
    requires env.ml.Some? ==> cursor <= |env.ml.value|
    requires idx <= k < |env.tokens| && AllParse(env.tokens[idx..k])
    ensures Truncated(env, k).tokens[idx..] == env.tokens[idx..k]
    ensures var cut := Truncated(env, k);
            && Scan(env, |env.work|, matchCount, idx, skip, cursor, maps) == Scan(cut, |env.work|, matchCount, idx, skip, cursor, maps)
            && !UsesEveryCount(cut, |env.work|, matchCount, idx, skip)
  {
    var cut := Truncated(env, k);
    assert cut.tokens[idx..] == env.tokens[idx..k];
    TraceNoCands(RemainingSkips(cut, matchCount, idx, skip));
  }

  /** A base that is not a candidate: both scans move on, and so does the trace. */
  lemma {:induction false} UnparsedOther(
    env: ScanEnv, k: nat, p: nat, matchCount: nat, idx: nat, skip: int, cursor: nat, maps: CodeMaps)
    requires p < |env.work| && !IsCandidate(env.base, env.work[p])
    requires forall c :: c in env.codes ==> c in maps
    requires env.ml.Some? ==> cursor <= |env.ml.value|
    requires idx <= k < |env.tokens| && AllParse(env.tokens[idx..k]) && ParseInt(env.tokens[k]).None?
    requires skip < 0 || matchCount <= skip
    ensures Truncated(env, k).tokens[idx..] == env.tokens[idx..k]
    ensures var cut := Truncated(env, k);
            var r := Scan(env, p, matchCount, idx, skip, cursor, maps);
            var r' := Scan(cut, p, matchCount, idx, skip, cursor, maps);
            && (r'.Failure? || !UsesEveryCount(cut, p, matchCount, idx, skip) ==> r == r')
            && (r'.Success? && UsesEveryCount(cut, p, matchCount, idx, skip) ==> r == Failure(BadSkipCount(env.tokens[k])))
    decreases |env.work| - p, 1
  {
    var cut := Truncated(env, k);
    assert cut.tokens[idx..] == env.tokens[idx..k];
    assert Scan(env, p, matchCount, idx, skip, cursor, maps) == Scan(env, p + 1, matchCount, idx, skip, cursor, maps);
    assert Scan(cut, p, matchCount, idx, skip, cursor, maps) == Scan(cut, p + 1, matchCount, idx, skip, cursor, maps);
    assert CandsFrom(env.work, env.base, p) == CandsFrom(env.work, env.base, p + 1);
    assert UsesEveryCount(cut, p, matchCount, idx, skip) == UsesEveryCount(cut, p + 1, matchCount, idx, skip);
    ScanUntilUnparsed(env, k, p + 1, matchCount, idx, skip, cursor, maps);
    Transfer(Scan(env, p, matchCount, idx, skip, cursor, maps), Scan(cut, p, matchCount, idx, skip, cursor, maps),
             Scan(env, p + 1, matchCount, idx, skip, cursor, maps), Scan(cut, p + 1, matchCount, idx, skip, cursor, maps),
             UsesEveryCount(cut, p, matchCount, idx, skip), UsesEveryCount(cut, p + 1, matchCount, idx, skip),
             BadSkipCount(env.tokens[k]));
  }

  /** A candidate passed over: both scans go on from the next index. */
  lemma {:induction false} UnparsedPass(
    env: ScanEnv, k: nat, p: nat, matchCount: nat, idx: nat, skip: int, cursor: nat, maps: CodeMaps)
    requires p < |env.work| && IsCandidate(env.base, env.work[p])
    requires forall c :: c in env.codes ==> c in maps
    requires env.ml.Some? ==> cursor <= |env.ml.value|
    requires idx <= k < |env.tokens| && AllParse(env.tokens[idx..k]) && ParseInt(env.tokens[k]).None?
    requires skip < 0 || matchCount < skip
    ensures Truncated(env, k).tokens[idx..] == env.tokens[idx..k]
    ensures var cut := Truncated(env, k);
            var r := Scan(env, p, matchCount, idx, skip, cursor, maps);
            var r' := Scan(cut, p, matchCount, idx, skip, cursor, maps);
            && (r'.Failure? || !UsesEveryCount(cut, p, matchCount, idx, skip) ==> r == r')
            && (r'.Success? && UsesEveryCount(cut, p, matchCount, idx, skip) ==> r == Failure(BadSkipCount(env.tokens[k])))
    decreases |env.work| - p, 1
  {
    var cut := Truncated(env, k);
    assert cut.tokens[idx..] == env.tokens[idx..k];
    var m1 := if env.dotted then RecordZero(env.codes, Position(env, p), maps) else maps;
    PassBoth(env, k, p, matchCount, idx, skip, cursor, maps);
    PassUses(cut, p, matchCount, idx, skip);
    ScanUntilUnparsed(env, k, p + 1, matchCount + 1, idx, skip, cursor, m1);
    Transfer(Scan(env, p, matchCount, idx, skip, cursor, maps), Scan(cut, p, matchCount, idx, skip, cursor, maps),
             Scan(env, p + 1, matchCount + 1, idx, skip, cursor, m1), Scan(cut, p + 1, matchCount + 1, idx, skip, cursor, m1),
             UsesEveryCount(cut, p, matchCount, idx, skip), UsesEveryCount(cut, p + 1, matchCount + 1, idx, skip),
             BadSkipCount(env.tokens[k]));
  }

  /** Both scans at a candidate passed over: the same zeros in a `.` group,
      then the next index. */
  lemma PassBoth(env: ScanEnv, k: nat, p: nat, matchCount: nat, idx: nat, skip: int, cursor: nat, maps: CodeMaps)
    requires p < |env.work| && IsCandidate(env.base, env.work[p])
    requires forall c :: c in env.codes ==> c in maps
    requires env.ml.Some? ==> cursor <= |env.ml.value|
    requires k <= |env.tokens|
    requires skip < 0 || matchCount < skip
    ensures var m1 := if env.dotted then RecordZero(env.codes, Position(env, p), maps) else maps;
            && Scan(env, p, matchCount, idx, skip, cursor, maps) == Scan(env, p + 1, matchCount + 1, idx, skip, cursor, m1)
            && Scan(Truncated(env, k), p, matchCount, idx, skip, cursor, maps) ==
               Scan(Truncated(env, k), p + 1, matchCount + 1, idx, skip, cursor, m1)
  {
    var cut := Truncated(env, k);
    PassScan(env, p, matchCount, idx, skip, cursor, maps);
    PassScan(cut, p, matchCount, idx, skip, cursor, maps);
    assert cut.dotted == env.dotted && Position(cut, p) == Position(env, p);
  }

  /** The relation between the two scans carries over equal results. */
  lemma Transfer(r: Result<(CodeMaps, nat), DecodeError>, r': Result<(CodeMaps, nat), DecodeError>,
                 s: Result<(CodeMaps, nat), DecodeError>, s': Result<(CodeMaps, nat), DecodeError>,
                 u: bool, v: bool, bad: DecodeError)
    requires r == s && r' == s' && u == v
    requires (s'.Failure? || !v ==> s == s') && (s'.Success? && v ==> s == Failure(bad))
    ensures (r'.Failure? || !u ==> r == r') && (r'.Success? && u ==> r == Failure(bad))
  {
  }

  /** A candidate taken when the likelihood array cannot hold its draws:
      both scans fail alike. */
  lemma UnparsedHitFail(env: ScanEnv, k: nat, p: nat, idx: nat, skip: int, cursor: nat, maps: CodeMaps)
    requires p < |env.work| && IsCandidate(env.base, env.work[p])
    requires skip >= 0
    requires forall c :: c in env.codes ==> c in maps
    requires env.ml.Some? ==> cursor <= |env.ml.value|
    requires idx <= k < |env.tokens|
    requires Record(env, 0, Position(env, p), cursor, maps).Failure?
    ensures Scan(Truncated(env, k), p, skip, idx, skip, cursor, maps) == Scan(env, p, skip, idx, skip, cursor, maps)
  {
    RecordIgnoresTokens(env, env.tokens[..k], 0, Position(env, p), cursor, maps);
  }

  /** A candidate taken with more counts to go before the cut: both scans
      parse the same next count and go on. */
  lemma {:induction false} UnparsedHitNext(env: ScanEnv, k: nat, p: nat, idx: nat, skip: int, cursor: nat, maps: CodeMaps)
    requires p < |env.work| && IsCandidate(env.base, env.work[p])
    requires skip >= 0
    requires forall c :: c in env.codes ==> c in maps
    requires env.ml.Some? ==> cursor <= |env.ml.value|
    requires idx < k < |env.tokens| && AllParse(env.tokens[idx..k]) && ParseInt(env.tokens[k]).None?
    requires Record(env, 0, Position(env, p), cursor, maps).Success?
    ensures Truncated(env, k).tokens[idx..] == env.tokens[idx..k]
    ensures var cut := Truncated(env, k);
            var r := Scan(env, p, skip, idx, skip, cursor, maps);
            var r' := Scan(cut, p, skip, idx, skip, cursor, maps);
            && (r'.Failure? || !UsesEveryCount(cut, p, skip, idx, skip) ==> r == r')
            && (r'.Success? && UsesEveryCount(cut, p, skip, idx, skip) ==> r == Failure(BadSkipCount(env.tokens[k])))
    decreases |env.work| - p, 0
  {
    var cut := Truncated(env, k);
    assert cut.tokens[idx..] == env.tokens[idx..k];
    var pos := Position(env, p);
    var rec := Record(env, 0, pos, cursor, maps).value;
    assert env.tokens[idx] == env.tokens[idx..k][0];
    var next := ParseInt(env.tokens[idx]).value;
    HitScanBoth(env, k, p, idx, skip, cursor, maps);
    HitUses(cut, p, idx, skip);
    assert env.tokens[idx + 1..k] == env.tokens[idx..k][1..];
    ScanUntilUnparsed(env, k, p + 1, 0, idx + 1, next, rec.1, rec.0);
    Transfer(Scan(env, p, skip, idx, skip, cursor, maps), Scan(cut, p, skip, idx, skip, cursor, maps),
             Scan(env, p + 1, 0, idx + 1, next, rec.1, rec.0), Scan(cut, p + 1, 0, idx + 1, next, rec.1, rec.0),
             UsesEveryCount(cut, p, skip, idx, skip), UsesEveryCount(cut, p + 1, 0, idx + 1, next),
             BadSkipCount(env.tokens[k]));
  }

  /** Both scans at a candidate taken before the cut: the same draws, then
      the same next count. */
  lemma HitScanBoth(env: ScanEnv, k: nat, p: nat, idx: nat, skip: int, cursor: nat, maps: CodeMaps)
    requires p < |env.work| && IsCandidate(env.base, env.work[p])
    requires skip >= 0
    requires forall c :: c in env.codes ==> c in maps
    requires env.ml.Some? ==> cursor <= |env.ml.value|
    requires idx < k <= |env.tokens| && ParseInt(env.tokens[idx]).Some?
    requires Record(env, 0, Position(env, p), cursor, maps).Success?
    ensures var rec := Record(env, 0, Position(env, p), cursor, maps).value;
            var next := ParseInt(env.tokens[idx]).value;
            && Scan(env, p, skip, idx, skip, cursor, maps) == Scan(env, p + 1, 0, idx + 1, next, rec.1, rec.0)
            && Scan(Truncated(env, k), p, skip, idx, skip, cursor, maps) ==
               Scan(Truncated(env, k), p + 1, 0, idx + 1, next, rec.1, rec.0)
  {
    var cut := Truncated(env, k);
    assert Position(cut, p) == Position(env, p) && cut.tokens[idx] == env.tokens[idx];
    RecordIgnoresTokens(env, env.tokens[..k], 0, Position(env, p), cursor, maps);
    HitStep(env, p, idx, skip, cursor, maps);
    HitStep(cut, p, idx, skip, cursor, maps);
  }

  /** A candidate met with its count, with a next count that parses: the
      draws, then the scan from the next index with that count. */
  lemma HitStep(env: ScanEnv, p: nat, idx: nat, skip: int, cursor: nat, maps: CodeMaps)
    requires p < |env.work| && IsCandidate(env.base, env.work[p])
    requires skip >= 0
    requires forall c :: c in env.codes ==> c in maps
    requires env.ml.Some? ==> cursor <= |env.ml.value|
    requires idx < |env.tokens| && ParseInt(env.tokens[idx]).Some?
    requires Record(env, 0, Position(env, p), cursor, maps).Success?
    ensures var rec := Record(env, 0, Position(env, p), cursor, maps).value;
            Scan(env, p, skip, idx, skip, cursor, maps) ==
            Scan(env, p + 1, 0, idx + 1, ParseInt(env.tokens[idx]).value, rec.1, rec.0)
  {
  }

  /** A candidate passed over leaves the question of using every count to
      the rest of the trace. */
  lemma PassUses(env: ScanEnv, p: nat, matchCount: nat, idx: nat, skip: int)
    requires p < |env.work| && IsCandidate(env.base, env.work[p])
    requires idx <= |env.tokens| && AllParse(env.tokens[idx..])
    requires skip < 0 || matchCount < skip
    ensures UsesEveryCount(env, p, matchCount, idx, skip) == UsesEveryCount(env, p + 1, matchCount + 1, idx, skip)
  {
    PassTrace(env, p, matchCount, idx, skip);
    var t' := TraceOf(env, p + 1, matchCount + 1, idx, skip);
    assert ([Pass(p)] + t')[1..] == t';
  }

  /** A candidate taken before the last count: the rest of the trace must
      use every remaining count. */
  lemma HitUses(env: ScanEnv, p: nat, idx: nat, skip: int)
    requires p < |env.work| && IsCandidate(env.base, env.work[p])
    requires skip >= 0
    requires idx < |env.tokens| && AllParse(env.tokens[idx..])
    ensures AllParse(env.tokens[idx + 1..])
    ensures UsesEveryCount(env, p, skip, idx, skip) == UsesEveryCount(env, p + 1, 0, idx + 1, ParseInt(env.tokens[idx]).value)
  {
    HitTrace(env, p, idx, skip);
    var t' := TraceOf(env, p + 1, 0, idx + 1, ParseInt(env.tokens[idx]).value);
    assert ([Take(p)] + t')[1..] == t';
  }

  /** A candidate taken for the last count before the cut: the cut scan
      stops there, and the full scan parses token `k` and fails. */
  lemma UnparsedHitCut(env: ScanEnv, k: nat, p: nat, skip: int, cursor: nat, maps: CodeMaps)
    requires p < |env.work| && IsCandidate(env.base, env.work[p])
    requires skip >= 0
    requires forall c :: c in env.codes ==> c in maps
    requires env.ml.Some? ==> cursor <= |env.ml.value|
    requires k < |env.tokens| && ParseInt(env.tokens[k]).None?
    requires Record(env, 0, Position(env, p), cursor, maps).Success?
    ensures Truncated(env, k).tokens[k..] == []
    ensures var cut := Truncated(env, k);
            && Scan(cut, p, skip, k, skip, cursor, maps).Success?
            && UsesEveryCount(cut, p, skip, k, skip)
            && Scan(env, p, skip, k, skip, cursor, maps) == Failure(BadSkipCount(env.tokens[k]))
  {
    var cut := Truncated(env, k);
    var pos := Position(env, p);
    RecordIgnoresTokens(env, env.tokens[..k], 0, pos, cursor, maps);
    HitTrace(cut, p, k, skip);
    HitScan(cut, p, k, skip, cursor, maps);
    assert Takes([Take(p)] + []) == [p] + Takes([]);
    assert RemainingSkips(cut, skip, k, skip) == [0];
  }

  // ---------------------------------------------------------------- groups

  /** A group whose counts parse before token `k` and not at `k` decodes as
      the reference decoder says for the group cut before `k` - unless the
      cut group's trace takes a candidate for each of its `k - 1` counts and
      the likelihood array holds their draws: the scan then goes on to parse
      token `k`, and the group fails on it. */
  lemma DecodeGroupUntilUnparsed(mmi: string, work: seq<byte>, negative: bool, ml: Option<seq<byte>>, cursor: nat, k: nat)
    requires ml.Some? ==> cursor <= |ml.value|
    requires 2 <= k < |Split(mmi, ',')|
    requires ReferenceApplies(Split(mmi, ',')[..k]) && ParseInt(Split(mmi, ',')[k]).None?
    ensures var tokens := Split(mmi, ',');
            var ref := ReferenceGroup(tokens[..k], work, negative, ml, cursor);
            var r := DecodeGroup(mmi, work, negative, ml, cursor);
            var usesAll := |Takes(GroupTrace(tokens[..k], work))| == k - 1;
            && (ref.Failure? || !usesAll ==> r == ref)
            && (ref.Success? && usesAll ==> r == Failure(BadSkipCount(tokens[k])))
  {
    var tokens := Split(mmi, ',');
    assert tokens[..k][0] == tokens[0];
    assert DecodeGroup(mmi, work, negative, ml, cursor) == DecodeCounted(tokens, work, negative, ml, cursor);
    CountedUntilUnparsed(tokens, work, negative, ml, cursor, k);
    CountedMatchesReference(tokens[..k], work, negative, ml, cursor);
  }

  /** The same on the group's tokens, with the cut group's own decoder. */
  lemma CountedUntilUnparsed(tokens: seq<string>, work: seq<byte>, negative: bool, ml: Option<seq<byte>>, cursor: nat, k: nat)
    requires ml.Some? ==> cursor <= |ml.value|
    requires 2 <= k < |tokens| && ReferenceApplies(tokens[..k]) && ParseInt(tokens[k]).None?
    ensures var d := DecodeCounted(tokens, work, negative, ml, cursor);
            var d' := DecodeCounted(tokens[..k], work, negative, ml, cursor);
            var usesAll := |Takes(GroupTrace(tokens[..k], work))| == k - 1;
            && (d'.Failure? || !usesAll ==> d == d')
            && (d'.Success? && usesAll ==> d == Failure(BadSkipCount(tokens[k])))
  {
    var cutT := tokens[..k];
    assert cutT[0] == tokens[0] && cutT[1] == tokens[1];
    var codes := GroupCodes(cutT);
    var skip := ParseInt(tokens[1]).value;
    var env := GroupEnv(tokens, codes, work, negative, ml);
    var cut := GroupEnv(cutT, codes, work, negative, ml);
    assert Truncated(env, k) == cut;
    assert AllParse(tokens[2..k]) by {
      forall i | 0 <= i < k - 2 ensures ParseInt(tokens[2..k][i]).Some? {
        assert tokens[2..k][i] == cutT[1..][i + 1];
      }
    }
    var maps := EmptyMaps(codes);
    CountedIsScan(tokens, work, negative, ml, cursor);
    CountedIsScan(cutT, work, negative, ml, cursor);
    ScanUntilUnparsed(env, k, 0, 0, 2, skip, cursor, maps);
    CountedStart(cutT, work, negative, ml);
    assert |RemainingSkips(cut, 0, 2, skip)| == k - 1;
  }

  /** A counted group's result is its scan's, made into one set per code. */
  lemma CountedIsScan(tokens: seq<string>, work: seq<byte>, negative: bool, ml: Option<seq<byte>>, cursor: nat)
    requires ml.Some? ==> cursor <= |ml.value|
    requires |tokens| >= 2 && |tokens[0]| >= 2 && CodePortion(tokens[0]).Success? && ParseInt(tokens[1]).Some?
    ensures var codes := ResolveCodes(CodePortion(tokens[0]).value);
            var scan := Scan(GroupEnv(tokens, codes, work, negative, ml), 0, 0, 2, ParseInt(tokens[1]).value, cursor, EmptyMaps(codes));
            DecodeCounted(tokens, work, negative, ml, cursor) ==
            if scan.Failure? then Failure(scan.error) else Success((SetsOf(tokens[0], codes, scan.value.0), scan.value.1))
  {
  }
}
