/** The skip-run scan of one MM group over the (possibly reverse-complemented)
    read sequence, and the likelihood draws it makes from the ML array through
    one cursor that carries across groups. */
module SkipScan {
  import opened Results
  import opened JavaText

  /** The likelihood maps of one group, keyed by modification code, as the
      Java `likelihoodMap`; a code listed twice shares one map. */
  type CodeMaps = map<string, map<nat, byte>>

  /** What stays fixed while one group is scanned. `work` is the sequence
      actually walked (the reverse complement for a negative-strand read),
      `tokens` the group's comma-separated tokens, header first. */
  datatype ScanEnv = ScanEnv(
    work: seq<byte>,
    negative: bool,
    ml: Option<seq<byte>>,
    base: char,
    dotted: bool,
    codes: seq<string>,
    tokens: seq<string>)

  /** A Java `byte` widened to `int`: the bytes from 128 on are negative. */
  function SignedByte(b: byte): (r: int)
    ensures -128 <= r < 128
    ensures (r - b as int) % 256 == 0
  {
    if b < 128 then b as int else b as int - 256
  }

  /** `base == 'N' || sequence[p] == base`: the byte is widened with its
      sign, the char without. */
  predicate IsCandidate(base: char, b: byte) {
    base == 'N' || SignedByte(b) == base as int
  }

  /** A byte of 128 or more never equals a char, so it is a candidate only
      for the base `N`; a smaller byte is a candidate exactly for `N` and
      for the base whose code it is. */
  lemma CandidateBytes(base: char, b: byte)
    ensures b >= 128 ==> (IsCandidate(base, b) <==> base == 'N')
    ensures b < 128 ==> (IsCandidate(base, b) <==> base == 'N' || b as int == base as int)
  {
  }

  /** The coordinate recorded for scan index `p`, in the frame of the
      sequence as supplied. */
  function Position(env: ScanEnv, p: nat): nat
    requires p < |env.work|
  {
    if env.negative then |env.work| - 1 - p else p
  }

  /** The coordinate map undoes itself, so `Position(env, q)` is also the
      scan index at which coordinate `q` is visited. */
  lemma PositionInverse(env: ScanEnv, p: nat)
    requires p < |env.work|
    ensures Position(env, p) < |env.work|
    ensures Position(env, Position(env, p)) == p
  {
  }

  /** Whether the scan could ever record coordinate `q`: it lies inside the
      sequence and the base visited there is a candidate. */
  predicate Recordable(env: ScanEnv, q: nat) {
    q < |env.work| && IsCandidate(env.base, env.work[Position(env, q)])
  }

  /** `ml == null ? (byte) 255 : ml[mlIdx]`. */
  function Draw(ml: Option<seq<byte>>, cursor: nat): Result<byte, DecodeError> {
    match ml
    case None => Success(255)
    case Some(bytes) =>
      if cursor < |bytes| then Success(bytes[cursor]) else Failure(LikelihoodUnderrun(cursor))
  }

  /** The cursor after one draw: `mlIdx++` happens only when there is an array. */
  function Advance(ml: Option<seq<byte>>, cursor: nat): nat {
    if ml.Some? then cursor + 1 else cursor
  }

  /** The byte a draw at `cursor` yields, when it succeeds. */
  function Val(ml: Option<seq<byte>>, cursor: nat): byte {
    match ml
    case None => 255
    case Some(bytes) => if cursor < |bytes| then bytes[cursor] else 0
  }

  /** How far the cursor moves for `n` draws. */
  function Width(ml: Option<seq<byte>>, n: nat): nat {
    if ml.Some? then n else 0
  }

  /** The index of the last occurrence of `m` in `codes`: the code whose draw
      a shared map keeps. */
  function LastIndex(codes: seq<string>, m: string): (r: nat)
    requires m in codes
    ensures r < |codes| && codes[r] == m
    ensures forall k :: r < k < |codes| ==> codes[k] != m
  {
    LastBefore(codes, m, |codes|)
  }

  /** The last occurrence of `m` among the first `n` codes. */
  function LastBefore(codes: seq<string>, m: string, n: nat): (r: nat)
    requires n <= |codes|
    requires exists k :: 0 <= k < n && codes[k] == m
    ensures r < n && codes[r] == m
    ensures forall k :: r < k < n ==> codes[k] != m
    decreases n
  {
    if codes[n - 1] == m then n - 1 else LastBefore(codes, m, n - 1)
  }

  lemma LastIndexDistinct(codes: seq<string>, i: nat)
    requires i < |codes|
    requires forall a, b :: 0 <= a < b < |codes| ==> codes[a] != codes[b]
    ensures LastIndex(codes, codes[i]) == i
  {
  }

  /** The draws for one selected position: for `codes[j..]` in order, one
      likelihood each, put at `pos` in that code's map. */
  function Record(env: ScanEnv, j: nat, pos: nat, cursor: nat, maps: CodeMaps): (r: Result<(CodeMaps, nat), DecodeError>)
    requires j <= |env.codes|
    requires forall m :: m in env.codes ==> m in maps
    requires env.ml.Some? ==> cursor <= |env.ml.value|
    ensures r.Success? <==> env.ml.None? || cursor + (|env.codes| - j) <= |env.ml.value|
    ensures r.Success? ==> r.value.1 == cursor + Width(env.ml, |env.codes| - j)
    ensures r.Success? ==> r.value.0.Keys == maps.Keys
    ensures r.Success? ==> forall m :: m in maps && m !in env.codes ==> r.value.0[m] == maps[m]
    decreases |env.codes| - j
  {
    if j == |env.codes| then Success((maps, cursor))
    else
      var v: byte :- Draw(env.ml, cursor);
      var m := env.codes[j];
      var updated: map<nat, byte> := maps[m][pos := v];
      Record(env, j + 1, pos, Advance(env.ml, cursor), maps[m := updated])
  }

  /** A selection fails only on an array that holds fewer bytes than it
      draws, and then at the index one past its last byte. */
  lemma {:induction false} RecordFailure(env: ScanEnv, j: nat, pos: nat, cursor: nat, maps: CodeMaps)
    requires j <= |env.codes|
    requires forall m :: m in env.codes ==> m in maps
    requires env.ml.Some? ==> cursor <= |env.ml.value|
    requires Record(env, j, pos, cursor, maps).Failure?
    ensures env.ml.Some? && Record(env, j, pos, cursor, maps).error == LikelihoodUnderrun(|env.ml.value|)
    decreases |env.codes| - j
  {
    if j < |env.codes| && Draw(env.ml, cursor).Success? {
      var m := env.codes[j];
      var updated: map<nat, byte> := maps[m][pos := Draw(env.ml, cursor).value];
      RecordFailure(env, j + 1, pos, Advance(env.ml, cursor), maps[m := updated]);
    }
  }

  /** One draw of a selection that succeeds, then the rest. */
  lemma RecordStep(env: ScanEnv, j: nat, pos: nat, cursor: nat, maps: CodeMaps)
    requires j < |env.codes|
    requires forall m :: m in env.codes ==> m in maps
    requires env.ml.Some? ==> cursor <= |env.ml.value|
    requires Record(env, j, pos, cursor, maps).Success?
    ensures env.ml.Some? ==> cursor < |env.ml.value|
    ensures var updated: map<nat, byte> := maps[env.codes[j]][pos := Val(env.ml, cursor)];
            Record(env, j, pos, cursor, maps) ==
            Record(env, j + 1, pos, Advance(env.ml, cursor), maps[env.codes[j] := updated])
  {
  }

  /** The likelihood a selection leaves at `pos` in code `m`'s map: the byte
      drawn for the last occurrence of `m` (the `i`-th draw of the selection
      is at `cursor + i`), or the old map when `m` is not among `codes[j..]`. */
  function Recorded(env: ScanEnv, j: nat, pos: nat, cursor: nat, maps: CodeMaps, m: string): map<nat, byte>
    requires m in maps
  {
    if m in env.codes && LastIndex(env.codes, m) >= j then
      maps[m][pos := Val(env.ml, cursor + LastIndex(env.codes, m) - j)]
    else maps[m]
  }

  /** What one selection writes into the map of one code. */
  lemma {:induction false} RecordValue(env: ScanEnv, j: nat, pos: nat, cursor: nat, maps: CodeMaps, m: string)
    requires j <= |env.codes|
    requires forall c :: c in env.codes ==> c in maps
    requires env.ml.Some? ==> cursor <= |env.ml.value|
    requires m in maps
    ensures var r := Record(env, j, pos, cursor, maps);
            r.Success? ==> r.value.0[m] == Recorded(env, j, pos, cursor, maps, m)
    decreases |env.codes| - j
  {
    var r := Record(env, j, pos, cursor, maps);
    if j < |env.codes| && r.Success? {
      var c := env.codes[j];
      var updated: map<nat, byte> := maps[c][pos := Val(env.ml, cursor)];
      var maps' := maps[c := updated];
      RecordStep(env, j, pos, cursor, maps);
      RecordValue(env, j + 1, pos, Advance(env.ml, cursor), maps', m);
      RecordedShift(env, j, pos, cursor, maps, m);
    }
  }

  /** One draw moves the first code's byte into its map and leaves the rest
      of the selection's effect as it was. */
  lemma RecordedShift(env: ScanEnv, j: nat, pos: nat, cursor: nat, maps: CodeMaps, m: string)
    requires j < |env.codes|
    requires forall c :: c in env.codes ==> c in maps
    requires m in maps
    ensures var c := env.codes[j];
            var updated: map<nat, byte> := maps[c][pos := Val(env.ml, cursor)];
            Recorded(env, j + 1, pos, Advance(env.ml, cursor), maps[c := updated], m) == Recorded(env, j, pos, cursor, maps, m)
  {
    var c := env.codes[j];
    if m in env.codes {
      var l := LastIndex(env.codes, m);
      if l > j {
        assert Val(env.ml, Advance(env.ml, cursor) + l - (j + 1)) == Val(env.ml, cursor + l - j);
      } else if l == j {
        assert m == c;
      } else {
        assert m != c;
      }
    }
  }

  /** The draws of one whole selection: the cursor moves one byte per code
      and each code's map gets, at `pos`, the byte drawn for its last
      occurrence; other maps are untouched. */
  lemma RecordFirst(env: ScanEnv, pos: nat, cursor: nat, maps: CodeMaps, m: string)
    requires forall c :: c in env.codes ==> c in maps
    requires env.ml.Some? ==> cursor <= |env.ml.value|
    requires m in maps
    requires Record(env, 0, pos, cursor, maps).Success?
    ensures Record(env, 0, pos, cursor, maps).value.1 == cursor + Width(env.ml, |env.codes|)
    ensures m in env.codes ==>
              Record(env, 0, pos, cursor, maps).value.0[m] == maps[m][pos := Val(env.ml, cursor + LastIndex(env.codes, m))]
    ensures m !in env.codes ==> Record(env, 0, pos, cursor, maps).value.0[m] == maps[m]
  {
    RecordValue(env, 0, pos, cursor, maps, m);
  }

  /** A selection adds its coordinate to the key set of every code's map. */
  lemma RecordKeys(env: ScanEnv, pos: nat, cursor: nat, maps: CodeMaps, m: string)
    requires forall c :: c in env.codes ==> c in maps
    requires env.ml.Some? ==> cursor <= |env.ml.value|
    requires m in env.codes
    requires Record(env, 0, pos, cursor, maps).Success?
    ensures Record(env, 0, pos, cursor, maps).value.0[m].Keys == maps[m].Keys + {pos}
  {
    RecordFirst(env, pos, cursor, maps, m);
  }

  /** The zero likelihoods put at a skipped position of a `.` group. */
  function RecordZero(codes: seq<string>, pos: nat, maps: CodeMaps): (r: CodeMaps)
    ensures r.Keys == maps.Keys
    ensures forall m :: m in maps && m in codes ==> r[m] == maps[m][pos := 0]
    ensures forall m :: m in maps && m !in codes ==> r[m] == maps[m]
    ensures forall m :: m in maps && m in codes ==> r[m].Keys == maps[m].Keys + {pos} && r[m][pos] == 0
    ensures forall m, q :: m in maps && m in codes && q in maps[m] && q != pos ==> r[m][q] == maps[m][q]
  {
    map m | m in maps :: if m in codes then maps[m][pos := 0 as byte] else maps[m]
  }

  /** `Integer.parseInt(tokens[idx])` for a skip count. */
  function ParseSkip(token: string): Result<int, DecodeError> {
    match ParseInt(token)
    case Some(v) => Success(v)
    case None => Failure(BadSkipCount(token))
  }

  /** A skip count written in decimal, with or without a minus sign, reads
      back as itself whenever it fits an `int`; the empty token and a lone
      sign fail, naming the token. */
  lemma ParseSkipRendered(n: nat)
    ensures n <= IntMax ==> ParseSkip(NatToString(n)) == Success(n)
    ensures n <= -IntMin ==> ParseSkip("-" + NatToString(n)) == Success(-(n as int))
    ensures ParseSkip("") == Failure(BadSkipCount(""))
    ensures ParseSkip("-") == Failure(BadSkipCount("-"))
  {
    if n <= IntMax {
      ParseIntNatToString(n);
    }
    if n <= -IntMin {
      ParseIntNegated(n);
    }
  }

  /** The `while (p < sequence.length)` loop of one group, from scan index
      `p` with `matchCount` candidates passed since the last selection, the
      next skip count at `tokens[idx]`, the current one `skip`, and the ML
      cursor at `cursor`. The result is the group's maps and the cursor after it. */
  function Scan(env: ScanEnv, p: nat, matchCount: nat, idx: nat, skip: int, cursor: nat, maps: CodeMaps)
    : (r: Result<(CodeMaps, nat), DecodeError>)
    requires p <= |env.work|
    requires forall m :: m in env.codes ==> m in maps
    requires env.ml.Some? ==> cursor <= |env.ml.value|
    ensures r.Success? ==> r.value.0.Keys == maps.Keys
    ensures r.Success? ==> cursor <= r.value.1
    ensures r.Success? && env.ml.None? ==> r.value.1 == cursor
    ensures r.Success? && env.ml.Some? ==> r.value.1 <= |env.ml.value|
    ensures r.Success? ==> forall m :: m in maps && m !in env.codes ==> r.value.0[m] == maps[m]
    decreases |env.work| - p
  {
    if p == |env.work| then Success((maps, cursor))
    else if !IsCandidate(env.base, env.work[p]) then
      Scan(env, p + 1, matchCount, idx, skip, cursor, maps)
    else
      var pos := Position(env, p);
      if matchCount == skip then
        var recorded :- Record(env, 0, pos, cursor, maps);
        if idx < |env.tokens| then
          var next :- ParseSkip(env.tokens[idx]);
          Scan(env, p + 1, 0, idx + 1, next, recorded.1, recorded.0)
        else
          Success(recorded)
      else
        var maps' := if env.dotted then RecordZero(env.codes, pos, maps) else maps;
        Scan(env, p + 1, matchCount + 1, idx, skip, cursor, maps')
  }

  /** Every coordinate the scan adds to a map is one it visits at or after
      scan index `p` and whose base is a candidate; whatever tokens were
      never reached, nothing else appears. */
  lemma {:induction false} ScanKeyOrigin(
    env: ScanEnv, p: nat, matchCount: nat, idx: nat, skip: int, cursor: nat, maps: CodeMaps, m: string, q: nat)
    requires p <= |env.work|
    requires forall c :: c in env.codes ==> c in maps
    requires env.ml.Some? ==> cursor <= |env.ml.value|
    requires m in maps
    requires Scan(env, p, matchCount, idx, skip, cursor, maps).Success?
    requires q in Scan(env, p, matchCount, idx, skip, cursor, maps).value.0[m]
    ensures q in maps[m] || (Recordable(env, q) && Position(env, q) >= p)
    decreases |env.work| - p, 1
  {
    if p < |env.work| && IsCandidate(env.base, env.work[p]) {
      var pos := Position(env, p);
      assert Position(env, pos) == p;
      if matchCount == skip {
        ScanKeyOriginHit(env, p, idx, skip, cursor, maps, m, q);
      } else {
        var maps' := if env.dotted then RecordZero(env.codes, pos, maps) else maps;
        ScanKeyOrigin(env, p + 1, matchCount + 1, idx, skip, cursor, maps', m, q);
      }
    } else if p < |env.work| {
      ScanKeyOrigin(env, p + 1, matchCount, idx, skip, cursor, maps, m, q);
    }
  }

  /** The selection case of `ScanKeyOrigin`. */
  lemma {:induction false} ScanKeyOriginHit(
    env: ScanEnv, p: nat, idx: nat, skip: nat, cursor: nat, maps: CodeMaps, m: string, q: nat)
    requires p < |env.work| && IsCandidate(env.base, env.work[p])
    requires forall c :: c in env.codes ==> c in maps
    requires env.ml.Some? ==> cursor <= |env.ml.value|
    requires m in maps
    requires Scan(env, p, skip, idx, skip, cursor, maps).Success?
    requires q in Scan(env, p, skip, idx, skip, cursor, maps).value.0[m]
    ensures q in maps[m] || (Recordable(env, q) && Position(env, q) >= p)
    decreases |env.work| - p, 0
  {
    var pos := Position(env, p);
    assert Position(env, pos) == p;
    var recorded := Record(env, 0, pos, cursor, maps);
    RecordFirst(env, pos, cursor, maps, m);
    if idx < |env.tokens| {
      var next := ParseSkip(env.tokens[idx]).value;
      ScanKeyOrigin(env, p + 1, 0, idx + 1, next, recorded.value.1, recorded.value.0, m, q);
    }
  }

  /** All codes of a group keep one key set: a selection puts its coordinate
      into every code's map, and a `.` group's pass puts a zero into every
      code's map. */
  lemma {:induction false} ScanSameKeys(
    env: ScanEnv, p: nat, matchCount: nat, idx: nat, skip: int, cursor: nat, maps: CodeMaps, m1: string, m2: string)
    requires p <= |env.work|
    requires forall c :: c in env.codes ==> c in maps
    requires env.ml.Some? ==> cursor <= |env.ml.value|
    requires m1 in env.codes && m2 in env.codes && maps[m1].Keys == maps[m2].Keys
    requires Scan(env, p, matchCount, idx, skip, cursor, maps).Success?
    ensures Scan(env, p, matchCount, idx, skip, cursor, maps).value.0[m1].Keys ==
            Scan(env, p, matchCount, idx, skip, cursor, maps).value.0[m2].Keys
    decreases |env.work| - p, 1
  {
    if p < |env.work| && IsCandidate(env.base, env.work[p]) {
      var pos := Position(env, p);
      if matchCount == skip {
        ScanSameKeysHit(env, p, idx, skip, cursor, maps, m1, m2);
      } else {
        var maps' := if env.dotted then RecordZero(env.codes, pos, maps) else maps;
        ScanSameKeys(env, p + 1, matchCount + 1, idx, skip, cursor, maps', m1, m2);
      }
    } else if p < |env.work| {
      ScanSameKeys(env, p + 1, matchCount, idx, skip, cursor, maps, m1, m2);
    }
  }

  /** The selection case of `ScanSameKeys`. */
  lemma {:induction false} ScanSameKeysHit(
    env: ScanEnv, p: nat, idx: nat, skip: nat, cursor: nat, maps: CodeMaps, m1: string, m2: string)
    requires p < |env.work| && IsCandidate(env.base, env.work[p])
    requires forall c :: c in env.codes ==> c in maps
    requires env.ml.Some? ==> cursor <= |env.ml.value|
    requires m1 in env.codes && m2 in env.codes && maps[m1].Keys == maps[m2].Keys
    requires Scan(env, p, skip, idx, skip, cursor, maps).Success?
    ensures Scan(env, p, skip, idx, skip, cursor, maps).value.0[m1].Keys ==
            Scan(env, p, skip, idx, skip, cursor, maps).value.0[m2].Keys
    decreases |env.work| - p, 0
  {
    var pos := Position(env, p);
    var recorded := Record(env, 0, pos, cursor, maps);
    RecordKeys(env, pos, cursor, maps, m1);
    RecordKeys(env, pos, cursor, maps, m2);
    if idx < |env.tokens| {
      var parsed := ParseSkip(env.tokens[idx]);
      assert parsed.Success?;
      var next := parsed.value;
      assert Scan(env, p, skip, idx, skip, cursor, maps) ==
             Scan(env, p + 1, 0, idx + 1, next, recorded.value.1, recorded.value.0);
      ScanSameKeys(env, p + 1, 0, idx + 1, next, recorded.value.1, recorded.value.0, m1, m2);
    }
  }

  /** A scan fails for one of two reasons only: the likelihood array ran out
      (the failing index is then its length), or a skip count it reached does
      not parse. */
  lemma {:induction false} ScanFailureCause(
    env: ScanEnv, p: nat, matchCount: nat, idx: nat, skip: int, cursor: nat, maps: CodeMaps)
    requires p <= |env.work|
    requires forall c :: c in env.codes ==> c in maps
    requires env.ml.Some? ==> cursor <= |env.ml.value|
    requires Scan(env, p, matchCount, idx, skip, cursor, maps).Failure?
    ensures var e := Scan(env, p, matchCount, idx, skip, cursor, maps).error;
            || (env.ml.Some? && e == LikelihoodUnderrun(|env.ml.value|))
            || (exists k :: idx <= k < |env.tokens| && ParseInt(env.tokens[k]).None? && e == BadSkipCount(env.tokens[k]))
    decreases |env.work| - p
  {
    if p < |env.work| && IsCandidate(env.base, env.work[p]) {
      var pos := Position(env, p);
      if matchCount == skip {
        var recorded := Record(env, 0, pos, cursor, maps);
        if recorded.Failure? {
          RecordFailure(env, 0, pos, cursor, maps);
        } else if idx < |env.tokens| {
          var parsed := ParseSkip(env.tokens[idx]);
          if parsed.Success? {
            ScanFailureCause(env, p + 1, 0, idx + 1, parsed.value, recorded.value.1, recorded.value.0);
          }
        }
      } else {
        var maps' := if env.dotted then RecordZero(env.codes, pos, maps) else maps;
        ScanFailureCause(env, p + 1, matchCount + 1, idx, skip, cursor, maps');
      }
    } else if p < |env.work| {
      ScanFailureCause(env, p + 1, matchCount, idx, skip, cursor, maps);
    }
  }
}
