/** An independent description of one group's scan, stated on the list of
    candidate positions and the list of skip counts rather than on the Java
    loop state: the ordered trace of what happens at each candidate, the maps
    that trace leaves behind, and the theorem that the scan computes exactly
    them. */
module ScanReference {
  import opened Results
  import opened JavaText
  import opened SkipScan

  /** The scan indices from `p` on whose base is a candidate, in order. */
  function CandsFrom(work: seq<byte>, base: char, p: nat): (r: seq<nat>)
    requires p <= |work|
    decreases |work| - p
  {
    if p == |work| then []
    else if IsCandidate(base, work[p]) then [p] + CandsFrom(work, base, p + 1)
    else CandsFrom(work, base, p + 1)
  }

  /** What happens at one candidate: it is passed over, or it is taken and
      gets one likelihood per code. */
  datatype Step = Pass(at: nat) | Take(at: nat)

  function Passes(xs: seq<nat>): (r: seq<Step>)
    decreases |xs|
  {
    if |xs| == 0 then [] else [Pass(xs[0])] + Passes(xs[1..])
  }

  /** The reference trace: pass over `skips[0]` candidates, take the next
      one, and start again from the one after it with `skips[1..]`. A
      negative count is never met and a list of candidates that runs out
      before a count is met is passed over to its end; nothing happens after
      the last count has been used. */
  function Trace(cands: seq<nat>, skips: seq<int>): seq<Step>
    decreases |skips|
  {
    if |skips| == 0 then []
    else if skips[0] < 0 || |cands| <= skips[0] then Passes(cands)
    else Passes(cands[..skips[0]]) + [Take(cands[skips[0]])] + Trace(cands[skips[0] + 1..], skips[1..])
  }

  /** The scan indices a trace visits, in order. */
  function Ats(t: seq<Step>): seq<nat>
    decreases |t|
  {
    if |t| == 0 then [] else [t[0].at] + Ats(t[1..])
  }

  /** The selected scan indices of a trace, in order. */
  function Takes(t: seq<Step>): seq<nat>
    decreases |t|
  {
    if |t| == 0 then []
    else if t[0].Take? then [t[0].at] + Takes(t[1..])
    else Takes(t[1..])
  }

  predicate StepsIn(t: seq<Step>, n: nat) {
    forall k :: 0 <= k < |t| ==> t[k].at < n
  }

  /** The likelihood map of the code at index `i` after the trace has been
      played on `a`: a pass puts 0 at its coordinate in a `.` group, a take
      puts the byte of the likelihood array at `cursor + i` (255 without
      one), and the cursor moves by one byte per code for each take. */
  function Replay(env: ScanEnv, a: map<nat, byte>, t: seq<Step>, cursor: nat, i: nat): map<nat, byte>
    requires StepsIn(t, |env.work|)
    decreases |t|
  {
    if |t| == 0 then a
    else
      var pos := Position(env, t[0].at);
      if t[0].Pass? then
        var zeroed: map<nat, byte> := if env.dotted then a[pos := 0] else a;
        Replay(env, zeroed, t[1..], cursor, i)
      else
        var drawn: map<nat, byte> := a[pos := Val(env.ml, cursor + i)];
        Replay(env, drawn, t[1..], cursor + Width(env.ml, |env.codes|), i)
  }

  predicate AllParse(tokens: seq<string>) {
    forall i :: 0 <= i < |tokens| ==> ParseInt(tokens[i]).Some?
  }

  /** The skip counts the tokens spell. */
  function Skips(tokens: seq<string>): (r: seq<int>)
    requires AllParse(tokens)
    ensures |r| == |tokens|
    decreases |tokens|
  {
    if |tokens| == 0 then []
    else
      assert AllParse(tokens[1..]) by {
        forall i | 0 <= i < |tokens[1..]| ensures ParseInt(tokens[1..][i]).Some? {
          assert tokens[1..][i] == tokens[i + 1];
        }
      }
      [ParseInt(tokens[0]).value] + Skips(tokens[1..])
  }

  // ---------------------------------------------------------------- facts about the reference

  /** The candidate list holds every candidate index from `p` on, and nothing
      else, in increasing order. */
  lemma {:induction false} CandsFromExact(work: seq<byte>, base: char, p: nat)
    requires p <= |work|
    ensures var r := CandsFrom(work, base, p);
            && (forall k :: 0 <= k < |r| ==> p <= r[k] < |work| && IsCandidate(base, work[r[k]]))
            && (forall k, l :: 0 <= k < l < |r| ==> r[k] < r[l])
            && (forall q :: p <= q < |work| && IsCandidate(base, work[q]) ==> q in r)
    decreases |work| - p
  {
    if p < |work| {
      CandsFromExact(work, base, p + 1);
      var rest := CandsFrom(work, base, p + 1);
      if IsCandidate(base, work[p]) {
        var r := [p] + rest;
        assert forall k :: 1 <= k < |r| ==> r[k] == rest[k - 1];
      }
    }
  }

  lemma {:induction false} AtsAppend(s: seq<Step>, t: seq<Step>)
    ensures Ats(s + t) == Ats(s) + Ats(t)
    ensures Takes(s + t) == Takes(s) + Takes(t)
    decreases |s|
  {
    if |s| > 0 {
      assert (s + t)[0] == s[0];
      assert (s + t)[1..] == s[1..] + t;
      AtsAppend(s[1..], t);
      assert Ats(s + t) == [s[0].at] + (Ats(s[1..]) + Ats(t));
      if s[0].Take? {
        assert Takes(s + t) == [s[0].at] + (Takes(s[1..]) + Takes(t));
      }
    } else {
      assert s + t == t;
    }
  }

  lemma {:induction false} AtsPasses(xs: seq<nat>)
    ensures Ats(Passes(xs)) == xs && Takes(Passes(xs)) == [] && |Passes(xs)| == |xs|
    decreases |xs|
  {
    if |xs| > 0 {
      var rest := Passes(xs[1..]);
      AtsPasses(xs[1..]);
      assert ([Pass(xs[0])] + rest)[1..] == rest;
      assert [xs[0]] + xs[1..] == xs;
    }
  }

  /** The trace walks a prefix of the candidates, in order, and takes at most
      one candidate per skip count. */
  lemma {:induction false} TracePrefix(cands: seq<nat>, skips: seq<int>)
    ensures |Trace(cands, skips)| <= |cands|
    ensures Ats(Trace(cands, skips)) == cands[..|Trace(cands, skips)|]
    ensures |Takes(Trace(cands, skips))| <= |skips|
    decreases |skips|
  {
    if |skips| > 0 {
      if skips[0] < 0 || |cands| <= skips[0] {
        AtsPasses(cands);
      } else {
        TracePrefix(cands[skips[0] + 1..], skips[1..]);
        TakeStepPrefix(cands, skips[0], Trace(cands[skips[0] + 1..], skips[1..]));
      }
    }
  }

  /** Passing over `d` candidates and taking the next one, then following
      with steps on a prefix of the candidates after it, walks a prefix of
      the candidates with one more selection. */
  lemma TakeStepPrefix(cands: seq<nat>, d: nat, tail: seq<Step>)
    requires d < |cands|
    requires |tail| <= |cands| - d - 1 && Ats(tail) == cands[d + 1..][..|tail|]
    ensures var t := Passes(cands[..d]) + [Take(cands[d])] + tail;
            && |t| <= |cands|
            && Ats(t) == cands[..|t|]
            && |Takes(t)| == |Takes(tail)| + 1
  {
    var rest := cands[d + 1..];
    var head := Passes(cands[..d]) + [Take(cands[d])];
    AtsPasses(cands[..d]);
    AtsAppend(Passes(cands[..d]), [Take(cands[d])]);
    AtsAppend(head, tail);
    assert Ats([Take(cands[d])]) == [cands[d]];
    assert Takes([Take(cands[d])]) == [cands[d]];
    PrefixAround(cands, d, |tail|);
  }

  /** A prefix, the element after it, and a prefix of what follows make a longer prefix. */
  lemma PrefixAround<T>(s: seq<T>, d: nat, n: nat)
    requires d + 1 + n <= |s|
    ensures s[..d] + [s[d]] + s[d + 1..][..n] == s[..d + 1 + n]
  {
    var l := s[..d] + [s[d]] + s[d + 1..][..n];
    assert |l| == d + 1 + n;
    forall j | 0 <= j < |l| ensures l[j] == s[j] {
      if j > d {
        assert l[j] == s[d + 1..][..n][j - d - 1];
      }
    }
  }

  /** The trace of an empty candidate list is empty. */
  lemma TraceNoCands(skips: seq<int>)
    ensures Trace([], skips) == []
  {
  }

  /** A candidate passed over: the count still to go drops by one. */
  lemma TracePass(x: nat, c: seq<nat>, d: int, rest: seq<int>)
    requires d != 0
    ensures Trace([x] + c, [d] + rest) == [Pass(x)] + Trace(c, [d - 1] + rest)
  {
    if d < 0 || |c| < d {
      TracePassRunOut(x, c, d, rest);
    } else {
      TracePassWithin(x, c, d, rest);
    }
  }

  /** The case of `TracePass` where the count is never met. */
  lemma TracePassRunOut(x: nat, c: seq<nat>, d: int, rest: seq<int>)
    requires d != 0 && (d < 0 || |c| < d)
    ensures Trace([x] + c, [d] + rest) == [Pass(x)] + Trace(c, [d - 1] + rest)
  {
    assert Trace([x] + c, [d] + rest) == Passes([x] + c);
    assert Trace(c, [d - 1] + rest) == Passes(c);
    PassesCons(x, c);
  }

  /** The case of `TracePass` where the count is met further on. */
  lemma TracePassWithin(x: nat, c: seq<nat>, d: int, rest: seq<int>)
    requires 0 < d <= |c|
    ensures Trace([x] + c, [d] + rest) == [Pass(x)] + Trace(c, [d - 1] + rest)
  {
    var xs := [x] + c;
    var p := Passes(c[..d - 1]);
    var take := Take(c[d - 1]);
    var after := Trace(c[d..], rest);
    assert ([d - 1] + rest)[1..] == rest;
    assert Trace(c, [d - 1] + rest) == p + [take] + after;
    assert ([d] + rest)[1..] == rest;
    assert xs[d] == c[d - 1] && xs[d + 1..] == c[d..];
    assert xs[..d] == [x] + c[..d - 1];
    PassesCons(x, c[..d - 1]);
    assert Trace(xs, [d] + rest) == ([Pass(x)] + p) + [take] + after;
    StepsAssoc([Pass(x)], p, [take], after);
  }

  lemma StepsAssoc(a: seq<Step>, b: seq<Step>, c: seq<Step>, d: seq<Step>)
    ensures (a + b) + c + d == a + (b + c + d)
  {
  }

  lemma PassesCons(x: nat, c: seq<nat>)
    ensures Passes([x] + c) == [Pass(x)] + Passes(c)
  {
    assert ([x] + c)[1..] == c;
  }

  /** A candidate met with a count of zero is taken, and the next count takes over. */
  lemma TraceHit(x: nat, c: seq<nat>, rest: seq<int>)
    ensures Trace([x] + c, [0] + rest) == [Take(x)] + Trace(c, rest)
  {
    var xs := [x] + c;
    assert xs[1..] == c && xs[..0] == [];
    assert ([0] + rest)[1..] == rest;
  }

  lemma SkipsCons(tokens: seq<string>, idx: nat)
    requires idx < |tokens| && AllParse(tokens[idx..])
    ensures AllParse(tokens[idx + 1..])
    ensures Skips(tokens[idx..]) == [ParseInt(tokens[idx]).value] + Skips(tokens[idx + 1..])
  {
    var whole := tokens[idx..];
    assert whole[0] == tokens[idx];
    assert whole[1..] == tokens[idx + 1..];
  }

  lemma ReplayPass(env: ScanEnv, a: map<nat, byte>, x: nat, t: seq<Step>, cursor: nat, i: nat)
    requires x < |env.work| && StepsIn(t, |env.work|)
    ensures StepsIn([Pass(x)] + t, |env.work|)
    ensures var zeroed: map<nat, byte> := if env.dotted then a[Position(env, x) := 0] else a;
            Replay(env, a, [Pass(x)] + t, cursor, i) == Replay(env, zeroed, t, cursor, i)
  {
    assert ([Pass(x)] + t)[1..] == t;
  }

  lemma ReplayTake(env: ScanEnv, a: map<nat, byte>, x: nat, t: seq<Step>, cursor: nat, i: nat)
    requires x < |env.work| && StepsIn(t, |env.work|)
    ensures StepsIn([Take(x)] + t, |env.work|)
    ensures var drawn: map<nat, byte> := a[Position(env, x) := Val(env.ml, cursor + i)];
            Replay(env, a, [Take(x)] + t, cursor, i) == Replay(env, drawn, t, cursor + Width(env.ml, |env.codes|), i)
  {
    assert ([Take(x)] + t)[1..] == t;
  }

  // ---------------------------------------------------------------- what a trace leaves

  /** Whether the steps of `t` sit at pairwise distinct coordinates. */
  predicate DistinctSteps(env: ScanEnv, t: seq<Step>)
    requires StepsIn(t, |env.work|)
  {
    forall j, k :: 0 <= j < k < |t| ==> Position(env, t[j].at) != Position(env, t[k].at)
  }

  /** Whether some step of `t` writes coordinate `q`: every take does, and
      in a `.` group every pass does. */
  predicate Writes(env: ScanEnv, t: seq<Step>, q: nat)
    requires StepsIn(t, |env.work|)
  {
    exists k :: 0 <= k < |t| && (t[k].Take? || env.dotted) && Position(env, t[k].at) == q
  }

  /** A coordinate is in the replayed map exactly when it was in the map
      played on or some step writes it. */
  lemma {:induction false} ReplayKeys(env: ScanEnv, a: map<nat, byte>, t: seq<Step>, cursor: nat, i: nat, q: nat)
    requires StepsIn(t, |env.work|)
    ensures q in Replay(env, a, t, cursor, i) <==> q in a || Writes(env, t, q)
    decreases |t|
  {
    if |t| > 0 {
      var pos := Position(env, t[0].at);
      var a': map<nat, byte> :=
        if t[0].Pass? then (if env.dotted then a[pos := 0] else a) else a[pos := Val(env.ml, cursor + i)];
      var cursor' := if t[0].Pass? then cursor else cursor + Width(env.ml, |env.codes|);
      assert Replay(env, a, t, cursor, i) == Replay(env, a', t[1..], cursor', i);
      ReplayKeys(env, a', t[1..], cursor', i, q);
      if Writes(env, t, q) && !(q in a') {
        var k :| 0 <= k < |t| && (t[k].Take? || env.dotted) && Position(env, t[k].at) == q;
        assert k > 0;
        assert t[1..][k - 1] == t[k];
      }
      if Writes(env, t[1..], q) {
        var k :| 0 <= k < |t[1..]| && (t[1..][k].Take? || env.dotted) && Position(env, t[1..][k].at) == q;
        assert t[k + 1] == t[1..][k];
      }
    }
  }

  /** A coordinate no step touches keeps its old likelihood. */
  lemma {:induction false} ReplayUntouched(env: ScanEnv, a: map<nat, byte>, t: seq<Step>, cursor: nat, i: nat, q: nat)
    requires StepsIn(t, |env.work|)
    requires forall k :: 0 <= k < |t| ==> Position(env, t[k].at) != q
    requires q in a
    ensures q in Replay(env, a, t, cursor, i) && Replay(env, a, t, cursor, i)[q] == a[q]
    decreases |t|
  {
    if |t| > 0 {
      var pos := Position(env, t[0].at);
      var a': map<nat, byte> :=
        if t[0].Pass? then (if env.dotted then a[pos := 0] else a) else a[pos := Val(env.ml, cursor + i)];
      var cursor' := if t[0].Pass? then cursor else cursor + Width(env.ml, |env.codes|);
      assert Replay(env, a, t, cursor, i) == Replay(env, a', t[1..], cursor', i);
      assert pos != q;
      forall k | 0 <= k < |t[1..]| ensures Position(env, t[1..][k].at) != q {
        assert t[1..][k] == t[k + 1];
      }
      ReplayUntouched(env, a', t[1..], cursor', i, q);
    }
  }

  /** The `k`-th step, when it is a take, leaves at its coordinate the byte
      drawn for it: past one byte per code for each earlier take, then `i`
      more. */
  lemma {:induction false} ReplayTakeValue(env: ScanEnv, a: map<nat, byte>, t: seq<Step>, cursor: nat, i: nat, k: nat)
    requires StepsIn(t, |env.work|) && DistinctSteps(env, t)
    requires k < |t| && t[k].Take?
    ensures Position(env, t[k].at) in Replay(env, a, t, cursor, i)
    ensures Replay(env, a, t, cursor, i)[Position(env, t[k].at)] ==
            Val(env.ml, cursor + Width(env.ml, |Takes(t[..k])| * |env.codes|) + i)
    decreases k
  {
    var pos := Position(env, t[0].at);
    var a': map<nat, byte> :=
      if t[0].Pass? then (if env.dotted then a[pos := 0] else a) else a[pos := Val(env.ml, cursor + i)];
    var cursor' := if t[0].Pass? then cursor else cursor + Width(env.ml, |env.codes|);
    assert Replay(env, a, t, cursor, i) == Replay(env, a', t[1..], cursor', i);
    if k == 0 {
      forall j | 0 <= j < |t[1..]| ensures Position(env, t[1..][j].at) != pos {
        assert t[1..][j] == t[j + 1];
      }
      ReplayUntouched(env, a', t[1..], cursor', i, pos);
    } else {
      var rest := t[1..];
      assert rest[k - 1] == t[k];
      assert DistinctSteps(env, rest) by {
        forall j, l | 0 <= j < l < |rest| ensures Position(env, rest[j].at) != Position(env, rest[l].at) {
          assert rest[j] == t[j + 1] && rest[l] == t[l + 1];
        }
      }
      ReplayTakeValue(env, a', rest, cursor', i, k - 1);
      assert t[..k] == [t[0]] + rest[..k - 1];
      assert ([t[0]] + rest[..k - 1])[1..] == rest[..k - 1];
      WidthStep(env.ml, cursor, |env.codes|, |Takes(rest[..k - 1])|);
    }
  }

  /** In a `.` group the `k`-th step, when it is a pass, leaves a zero at its
      coordinate. */
  lemma {:induction false} ReplayPassValue(env: ScanEnv, a: map<nat, byte>, t: seq<Step>, cursor: nat, i: nat, k: nat)
    requires StepsIn(t, |env.work|) && DistinctSteps(env, t)
    requires k < |t| && t[k].Pass? && env.dotted
    ensures Position(env, t[k].at) in Replay(env, a, t, cursor, i)
    ensures Replay(env, a, t, cursor, i)[Position(env, t[k].at)] == 0
    decreases k
  {
    var pos := Position(env, t[0].at);
    var a': map<nat, byte> :=
      if t[0].Pass? then (if env.dotted then a[pos := 0] else a) else a[pos := Val(env.ml, cursor + i)];
    var cursor' := if t[0].Pass? then cursor else cursor + Width(env.ml, |env.codes|);
    assert Replay(env, a, t, cursor, i) == Replay(env, a', t[1..], cursor', i);
    if k == 0 {
      forall j | 0 <= j < |t[1..]| ensures Position(env, t[1..][j].at) != pos {
        assert t[1..][j] == t[j + 1];
      }
      ReplayUntouched(env, a', t[1..], cursor', i, pos);
    } else {
      var rest := t[1..];
      assert rest[k - 1] == t[k];
      assert DistinctSteps(env, rest) by {
        forall j, l | 0 <= j < l < |rest| ensures Position(env, rest[j].at) != Position(env, rest[l].at) {
          assert rest[j] == t[j + 1] && rest[l] == t[l + 1];
        }
      }
      ReplayPassValue(env, a', rest, cursor', i, k - 1);
    }
  }

  /** The steps of a trace sit, in order, on the candidates it was cut from. */
  lemma TraceAtCands(env: ScanEnv, p: nat, skips: seq<int>)
    requires p <= |env.work|
    ensures var cands := CandsFrom(env.work, env.base, p);
            var t := Trace(cands, skips);
            && |t| <= |cands|
            && forall k :: 0 <= k < |t| ==> t[k].at == cands[k]
  {
    var cands := CandsFrom(env.work, env.base, p);
    var t := Trace(cands, skips);
    TracePrefix(cands, skips);
    forall k | 0 <= k < |t| ensures t[k].at == cands[k] {
      AtIndex(t, k);
    }
  }

  /** Every step of a trace is at an index of the work sequence. */
  lemma TraceStepsIn(env: ScanEnv, p: nat, skips: seq<int>)
    requires p <= |env.work|
    ensures StepsIn(Trace(CandsFrom(env.work, env.base, p), skips), |env.work|)
  {
    CandsFromExact(env.work, env.base, p);
    TraceAtCands(env, p, skips);
  }

  /** The trace from scan index `p` stays inside the sequence and visits
      each coordinate at most once. */
  lemma TraceWellFormed(env: ScanEnv, p: nat, skips: seq<int>)
    requires p <= |env.work|
    ensures StepsIn(Trace(CandsFrom(env.work, env.base, p), skips), |env.work|)
    ensures DistinctSteps(env, Trace(CandsFrom(env.work, env.base, p), skips))
  {
    var cands := CandsFrom(env.work, env.base, p);
    var t := Trace(cands, skips);
    CandsFromExact(env.work, env.base, p);
    TraceAtCands(env, p, skips);
    forall j, k | 0 <= j < k < |t| ensures Position(env, t[j].at) != Position(env, t[k].at) {
      assert cands[j] < cands[k];
    }
  }

  // ---------------------------------------------------------------- the theorem

  /** The counts still to be met from a scan state: what is left of the
      current one, then the counts of the unparsed tokens. */
  function RemainingSkips(env: ScanEnv, matchCount: nat, idx: nat, skip: int): seq<int>
    requires idx <= |env.tokens| && AllParse(env.tokens[idx..])
  {
    [skip - matchCount] + Skips(env.tokens[idx..])
  }

  /** The reference trace from a scan state. */
  function TraceOf(env: ScanEnv, p: nat, matchCount: nat, idx: nat, skip: int): seq<Step>
    requires p <= |env.work| && idx <= |env.tokens| && AllParse(env.tokens[idx..])
  {
    Trace(CandsFrom(env.work, env.base, p), RemainingSkips(env, matchCount, idx, skip))
  }

  /** The state a group's scan starts from: its first count in hand, the
      next one at token 2, has all the counts still to meet. */
  lemma TraceOfFirst(env: ScanEnv)
    requires |env.tokens| >= 2 && AllParse(env.tokens[1..])
    ensures AllParse(env.tokens[2..])
    ensures RemainingSkips(env, 0, 2, ParseInt(env.tokens[1]).value) == Skips(env.tokens[1..])
  {
    SkipsCons(env.tokens, 1);
    assert RemainingSkips(env, 0, 2, ParseInt(env.tokens[1]).value) == Skips(env.tokens[1..]);
  }

  /** The `k`-th entry of `Ats` is the `k`-th step's index. */
  lemma {:induction false} AtIndex(t: seq<Step>, k: nat)
    requires k < |t|
    ensures |Ats(t)| == |t| && Ats(t)[k] == t[k].at
    decreases k
  {
    AtsLength(t);
    if k > 0 {
      AtIndex(t[1..], k - 1);
    }
  }

  lemma {:induction false} AtsLength(t: seq<Step>)
    ensures |Ats(t)| == |t|
    decreases |t|
  {
    if |t| > 0 {
      AtsLength(t[1..]);
    }
  }

  /** What the scan leaves in code `m`'s map: the trace played on its old
      content, for the last occurrence of `m` among the codes. */
  function Expected(env: ScanEnv, t: seq<Step>, cursor: nat, maps: CodeMaps, m: string): map<nat, byte>
    requires m in maps && StepsIn(t, |env.work|)
  {
    if m in env.codes then Replay(env, maps[m], t, cursor, LastIndex(env.codes, m)) else maps[m]
  }

  /** Whether a scan result agrees with the trace `t` played from `cursor`
      and `maps`: it is a success exactly when the likelihood array holds one
      byte per take per code, the cursor moves by that many bytes, and `m`'s
      map is what the trace leaves. */
  predicate Agrees(env: ScanEnv, t: seq<Step>, cursor: nat, maps: CodeMaps, m: string, r: Result<(CodeMaps, nat), DecodeError>)
    requires m in maps
  {
    && StepsIn(t, |env.work|)
    && (r.Success? <==> env.ml.None? || cursor + |Takes(t)| * |env.codes| <= |env.ml.value|)
    && (r.Success? ==> r.value.1 == cursor + Width(env.ml, |Takes(t)| * |env.codes|))
    && (r.Success? ==> m in r.value.0 && r.value.0[m] == Expected(env, t, cursor, maps, m))
  }

  /** A pass in front of a trace: in a `.` group, the maps the rest starts
      from have a zero at the pass's coordinate. */
  lemma AgreesPass(env: ScanEnv, x: nat, t: seq<Step>, cursor: nat, maps: CodeMaps, m1: CodeMaps, m: string, r: Result<(CodeMaps, nat), DecodeError>)
    requires x < |env.work| && m in maps && m in m1
    requires m in env.codes && env.dotted ==> m1[m] == maps[m][Position(env, x) := 0]
    requires !(m in env.codes && env.dotted) ==> m1[m] == maps[m]
    requires Agrees(env, t, cursor, m1, m, r)
    ensures Agrees(env, [Pass(x)] + t, cursor, maps, m, r)
  {
    assert ([Pass(x)] + t)[1..] == t;
    if m in env.codes {
      ReplayPass(env, maps[m], x, t, cursor, LastIndex(env.codes, m));
    }
  }

  /** A take in front of a trace: the rest starts one byte per code further
      on, from maps holding the take's draws. */
  lemma AgreesTake(env: ScanEnv, x: nat, t: seq<Step>, cursor: nat, c1: nat, maps: CodeMaps, m1: CodeMaps, m: string, r: Result<(CodeMaps, nat), DecodeError>)
    requires x < |env.work| && m in maps && m in m1
    requires env.ml.Some? ==> cursor + |env.codes| <= |env.ml.value|
    requires c1 == cursor + Width(env.ml, |env.codes|)
    requires m in env.codes ==> m1[m] == maps[m][Position(env, x) := Val(env.ml, cursor + LastIndex(env.codes, m))]
    requires m !in env.codes ==> m1[m] == maps[m]
    requires Agrees(env, t, c1, m1, m, r)
    ensures Agrees(env, [Take(x)] + t, cursor, maps, m, r)
  {
    assert ([Take(x)] + t)[1..] == t;
    WidthStep(env.ml, cursor, |env.codes|, |Takes(t)|);
    if m in env.codes {
      ReplayTake(env, maps[m], x, t, cursor, LastIndex(env.codes, m));
    }
  }

  /** One take's draws followed by `k` more takes. */
  lemma WidthStep(ml: Option<seq<byte>>, cursor: nat, n: nat, k: nat)
    ensures cursor + Width(ml, n) + Width(ml, k * n) == cursor + Width(ml, (1 + k) * n)
    ensures cursor + n + k * n == cursor + (1 + k) * n
  {
  }

  /** Whether the scan from this state agrees with the reference trace from it. */
  predicate ScanAgrees(env: ScanEnv, p: nat, matchCount: nat, idx: nat, skip: int, cursor: nat, maps: CodeMaps, m: string)
    requires p <= |env.work|
    requires forall c :: c in env.codes ==> c in maps
    requires env.ml.Some? ==> cursor <= |env.ml.value|
    requires idx <= |env.tokens| && AllParse(env.tokens[idx..])
    requires m in maps
  {
    Agrees(env, TraceOf(env, p, matchCount, idx, skip), cursor, maps, m, Scan(env, p, matchCount, idx, skip, cursor, maps))
  }

  /** The scan of a group follows the reference trace: it succeeds exactly
      when the likelihood array holds one byte per take per code, moves the
      cursor by that many bytes, and leaves in each map what the trace
      leaves. */
  lemma {:induction false} ScanMatchesReference(
    env: ScanEnv, p: nat, matchCount: nat, idx: nat, skip: int, cursor: nat, maps: CodeMaps, m: string)
    requires p <= |env.work|
    requires forall c :: c in env.codes ==> c in maps
    requires env.ml.Some? ==> cursor <= |env.ml.value|
    requires idx <= |env.tokens| && AllParse(env.tokens[idx..])
    requires skip < 0 || matchCount <= skip
    requires m in maps
    ensures ScanAgrees(env, p, matchCount, idx, skip, cursor, maps, m)
    decreases |env.work| - p, 2
  {
    if p == |env.work| {
      TraceNoCands(RemainingSkips(env, matchCount, idx, skip));
    } else if !IsCandidate(env.base, env.work[p]) {
      ScanMatchesReference(env, p + 1, matchCount, idx, skip, cursor, maps, m);
    } else if matchCount == skip {
      ScanHitCase(env, p, idx, skip, cursor, maps, m);
    } else {
      ScanPassCase(env, p, matchCount, idx, skip, cursor, maps, m);
    }
  }

  /** A candidate passed over. */
  lemma {:induction false} ScanPassCase(
    env: ScanEnv, p: nat, matchCount: nat, idx: nat, skip: int, cursor: nat, maps: CodeMaps, m: string)
    requires p < |env.work| && IsCandidate(env.base, env.work[p])
    requires forall c :: c in env.codes ==> c in maps
    requires env.ml.Some? ==> cursor <= |env.ml.value|
    requires idx <= |env.tokens| && AllParse(env.tokens[idx..])
    requires skip < 0 || matchCount < skip
    requires m in maps
    ensures ScanAgrees(env, p, matchCount, idx, skip, cursor, maps, m)
    decreases |env.work| - p, 1
  {
    var pos := Position(env, p);
    var t' := TraceOf(env, p + 1, matchCount + 1, idx, skip);
    PassTrace(env, p, matchCount, idx, skip);
    var m1 := if env.dotted then RecordZero(env.codes, pos, maps) else maps;
    PassScan(env, p, matchCount, idx, skip, cursor, maps);
    var r := Scan(env, p + 1, matchCount + 1, idx, skip, cursor, m1);
    ScanMatchesReference(env, p + 1, matchCount + 1, idx, skip, cursor, m1, m);
    AgreesPass(env, p, t', cursor, maps, m1, m, r);
  }

  /** The reference trace from a candidate passed over. */
  lemma PassTrace(env: ScanEnv, p: nat, matchCount: nat, idx: nat, skip: int)
    requires p < |env.work| && IsCandidate(env.base, env.work[p])
    requires idx <= |env.tokens| && AllParse(env.tokens[idx..])
    requires skip < 0 || matchCount < skip
    ensures TraceOf(env, p, matchCount, idx, skip) == [Pass(p)] + TraceOf(env, p + 1, matchCount + 1, idx, skip)
  {
    var c' := CandsFrom(env.work, env.base, p + 1);
    assert CandsFrom(env.work, env.base, p) == [p] + c';
    TracePass(p, c', skip - matchCount, Skips(env.tokens[idx..]));
  }

  /** The scan at a candidate passed over. */
  lemma PassScan(env: ScanEnv, p: nat, matchCount: nat, idx: nat, skip: int, cursor: nat, maps: CodeMaps)
    requires p < |env.work| && IsCandidate(env.base, env.work[p])
    requires forall c :: c in env.codes ==> c in maps
    requires env.ml.Some? ==> cursor <= |env.ml.value|
    requires skip < 0 || matchCount < skip
    ensures var m1 := if env.dotted then RecordZero(env.codes, Position(env, p), maps) else maps;
            Scan(env, p, matchCount, idx, skip, cursor, maps) == Scan(env, p + 1, matchCount + 1, idx, skip, cursor, m1)
  {
  }

  /** A candidate taken. */
  lemma {:induction false} ScanHitCase(
    env: ScanEnv, p: nat, idx: nat, skip: int, cursor: nat, maps: CodeMaps, m: string)
    requires p < |env.work| && IsCandidate(env.base, env.work[p])
    requires skip >= 0
    requires forall c :: c in env.codes ==> c in maps
    requires env.ml.Some? ==> cursor <= |env.ml.value|
    requires idx <= |env.tokens| && AllParse(env.tokens[idx..])
    requires m in maps
    ensures ScanAgrees(env, p, skip, idx, skip, cursor, maps, m)
    decreases |env.work| - p, 1
  {
    if Record(env, 0, Position(env, p), cursor, maps).Failure? {
      ScanHitFail(env, p, idx, skip, cursor, maps, m);
    } else if idx < |env.tokens| {
      ScanHitNext(env, p, idx, skip, cursor, maps, m);
    } else {
      ScanHitLast(env, p, idx, skip, cursor, maps, m);
    }
  }

  /** A candidate taken with its draws, more counts to follow. */
  lemma {:induction false} ScanHitNext(
    env: ScanEnv, p: nat, idx: nat, skip: int, cursor: nat, maps: CodeMaps, m: string)
    requires p < |env.work| && IsCandidate(env.base, env.work[p])
    requires skip >= 0
    requires forall c :: c in env.codes ==> c in maps
    requires env.ml.Some? ==> cursor <= |env.ml.value|
    requires idx < |env.tokens| && AllParse(env.tokens[idx..])
    requires m in maps
    requires Record(env, 0, Position(env, p), cursor, maps).Success?
    ensures ScanAgrees(env, p, skip, idx, skip, cursor, maps, m)
    decreases |env.work| - p, 0
  {
    var pos := Position(env, p);
    var rec := Record(env, 0, pos, cursor, maps);
    HitTrace(env, p, idx, skip);
    HitScan(env, p, idx, skip, cursor, maps);
    RecordFirst(env, pos, cursor, maps, m);
    var next := ParseInt(env.tokens[idx]).value;
    ScanMatchesReference(env, p + 1, 0, idx + 1, next, rec.value.1, rec.value.0, m);
    AgreesTake(env, p, TraceOf(env, p + 1, 0, idx + 1, next), cursor, rec.value.1, maps, rec.value.0, m,
               Scan(env, p + 1, 0, idx + 1, next, rec.value.1, rec.value.0));
  }

  /** A candidate taken with its draws for the last count. */
  lemma ScanHitLast(env: ScanEnv, p: nat, idx: nat, skip: int, cursor: nat, maps: CodeMaps, m: string)
    requires p < |env.work| && IsCandidate(env.base, env.work[p])
    requires skip >= 0
    requires forall c :: c in env.codes ==> c in maps
    requires env.ml.Some? ==> cursor <= |env.ml.value|
    requires idx == |env.tokens|
    requires m in maps
    requires Record(env, 0, Position(env, p), cursor, maps).Success?
    ensures ScanAgrees(env, p, skip, idx, skip, cursor, maps, m)
  {
    var pos := Position(env, p);
    var rec := Record(env, 0, pos, cursor, maps);
    HitTrace(env, p, idx, skip);
    HitScan(env, p, idx, skip, cursor, maps);
    RecordFirst(env, pos, cursor, maps, m);
    AgreesTake(env, p, [], cursor, rec.value.1, maps, rec.value.0, m, rec);
  }

  /** A candidate taken when the likelihood array cannot hold its draws. */
  lemma ScanHitFail(env: ScanEnv, p: nat, idx: nat, skip: int, cursor: nat, maps: CodeMaps, m: string)
    requires p < |env.work| && IsCandidate(env.base, env.work[p])
    requires skip >= 0
    requires forall c :: c in env.codes ==> c in maps
    requires env.ml.Some? ==> cursor <= |env.ml.value|
    requires idx <= |env.tokens| && AllParse(env.tokens[idx..])
    requires m in maps
    requires Record(env, 0, Position(env, p), cursor, maps).Failure?
    ensures ScanAgrees(env, p, skip, idx, skip, cursor, maps, m)
  {
    HitTrace(env, p, idx, skip);
    HitScan(env, p, idx, skip, cursor, maps);
    TraceWellFormed(env, p, RemainingSkips(env, skip, idx, skip));
    var t := TraceOf(env, p, skip, idx, skip);
    assert |Takes(t)| >= 1 by {
      if idx < |env.tokens| {
        var t' := TraceOf(env, p + 1, 0, idx + 1, ParseInt(env.tokens[idx]).value);
        assert ([Take(p)] + t')[1..] == t';
      }
    }
    WidthStep(env.ml, cursor, |env.codes|, |Takes(t)| - 1);
  }

  /** The reference trace from a candidate met with its count: that
      candidate taken, then the trace of the next count from the one after. */
  lemma HitTrace(env: ScanEnv, p: nat, idx: nat, skip: int)
    requires p < |env.work| && IsCandidate(env.base, env.work[p])
    requires skip >= 0
    requires idx <= |env.tokens| && AllParse(env.tokens[idx..])
    ensures idx < |env.tokens| ==>
              && AllParse(env.tokens[idx + 1..])
              && TraceOf(env, p, skip, idx, skip) == [Take(p)] + TraceOf(env, p + 1, 0, idx + 1, ParseInt(env.tokens[idx]).value)
    ensures idx == |env.tokens| ==> TraceOf(env, p, skip, idx, skip) == [Take(p)] + []
  {
    var c' := CandsFrom(env.work, env.base, p + 1);
    assert CandsFrom(env.work, env.base, p) == [p] + c';
    var rest := Skips(env.tokens[idx..]);
    assert RemainingSkips(env, skip, idx, skip) == [0] + rest;
    TraceHit(p, c', rest);
    if idx < |env.tokens| {
      SkipsCons(env.tokens, idx);
      assert RemainingSkips(env, 0, idx + 1, ParseInt(env.tokens[idx]).value) == rest;
    } else {
      assert rest == [];
    }
  }

  /** The scan at a candidate met with its count: the draws for all codes,
      then, while tokens remain, the scan from the next index with the next count. */
  lemma HitScan(env: ScanEnv, p: nat, idx: nat, skip: int, cursor: nat, maps: CodeMaps)
    requires p < |env.work| && IsCandidate(env.base, env.work[p])
    requires skip >= 0
    requires forall c :: c in env.codes ==> c in maps
    requires env.ml.Some? ==> cursor <= |env.ml.value|
    requires idx <= |env.tokens| && AllParse(env.tokens[idx..])
    ensures var rec := Record(env, 0, Position(env, p), cursor, maps);
            && (rec.Failure? ==> Scan(env, p, skip, idx, skip, cursor, maps).Failure?)
            && (rec.Success? && idx == |env.tokens| ==> Scan(env, p, skip, idx, skip, cursor, maps) == rec)
            && (rec.Success? && idx < |env.tokens| ==>
                  Scan(env, p, skip, idx, skip, cursor, maps) ==
                  Scan(env, p + 1, 0, idx + 1, ParseInt(env.tokens[idx]).value, rec.value.1, rec.value.0))
  {
    if idx < |env.tokens| {
      assert env.tokens[idx] == env.tokens[idx..][0];
    }
  }
}
