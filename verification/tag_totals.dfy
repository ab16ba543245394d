/** What a whole MM tag decodes to, summed over its groups: how many sets it
    yields, where their keys lie, and how many likelihood bytes it draws. */
module TagTotals {
  import opened Results
  import opened JavaText
  import opened ModCodes
  import opened SkipScan
  import opened ScanReference
  import opened BaseModification

  // ---------------------------------------------------------------- sets and keys

  /** The sets a group that decodes yields: one per resolved code when it has
      skip counts, none for a header alone. */
  function GroupSets(mmi: string): nat {
    var tokens := Split(mmi, ',');
    if |tokens| >= 2 && |tokens[0]| >= 2 && CodePortion(tokens[0]).Success? then
      |ResolveCodes(CodePortion(tokens[0]).value)|
    else 0
  }

  function TagSets(groups: seq<string>): nat
    decreases |groups|
  {
    if |groups| == 0 then 0 else GroupSets(groups[0]) + TagSets(groups[1..])
  }

  /** Every key of every set is below `n`. */
  predicate KeysBelow(sets: seq<BaseModificationSet>, n: nat) {
    forall i, q :: 0 <= i < |sets| && q in sets[i].likelihoods ==> q < n
  }

  /** Groups that decode yield, in all, the sets their headers promise, and
      every key is a coordinate of the sequence. */
  lemma {:induction false} DecodeGroupsOutput(groups: seq<string>, work: seq<byte>, negative: bool, ml: Option<seq<byte>>, cursor: nat)
    requires ml.Some? ==> cursor <= |ml.value|
    ensures var r := DecodeGroups(groups, work, negative, ml, cursor);
            r.Success? ==> |r.value.0| == TagSets(groups) && KeysBelow(r.value.0, |work|)
    decreases |groups|
  {
    var r := DecodeGroups(groups, work, negative, ml, cursor);
    if |groups| > 0 && r.Success? {
      var head := DecodeGroup(groups[0], work, negative, ml, cursor);
      DecodeGroupShape(groups[0], work, negative, ml, cursor);
      DecodeGroupsOutput(groups[1..], work, negative, ml, head.value.1);
      var tail := DecodeGroups(groups[1..], work, negative, ml, head.value.1);
      assert r.value.0 == head.value.0 + tail.value.0;
      assert KeysBelow(head.value.0, |work|);
    }
  }

  /** A tag that decodes yields one set per resolved code of each group with
      skip counts, and every key of every set is a coordinate of the read. */
  lemma DecodedKeysInRange(mm: string, ml: Option<seq<byte>>, sequence: seq<byte>, negative: bool, complement: byte -> byte)
    ensures var r := GetBaseModificationSets(mm, ml, sequence, negative, complement);
            r.Success? ==>
              && |r.value| == TagSets(Split(mm, ';'))
              && forall i, q :: 0 <= i < |r.value| && q in r.value[i].likelihoods ==> q < |sequence|
  {
    DecodeGroupsOutput(Split(mm, ';'), WorkSequence(sequence, negative, complement), negative, ml, 0);
  }

  // ---------------------------------------------------------------- draws

  /** Whether a group's likelihood draws are known from its text and the
      sequence: a header alone, or a group whose skip counts all parse. */
  predicate Countable(mmi: string) {
    var tokens := Split(mmi, ',');
    (|tokens| == 1 && |tokens[0]| >= 2) || ReferenceApplies(tokens)
  }

  /** The likelihood bytes a countable group draws: one per selected
      position per code. */
  function GroupDraws(mmi: string, work: seq<byte>): nat {
    var tokens := Split(mmi, ',');
    if ReferenceApplies(tokens) then |Takes(GroupTrace(tokens, work))| * |GroupCodes(tokens)| else 0
  }

  function TagDraws(groups: seq<string>, work: seq<byte>): nat
    decreases |groups|
  {
    if |groups| == 0 then 0 else GroupDraws(groups[0], work) + TagDraws(groups[1..], work)
  }

  /** A countable group decodes exactly when the likelihood array holds its
      draws from the cursor on, and then moves the cursor past them. */
  lemma GroupDrawsCursor(mmi: string, work: seq<byte>, negative: bool, ml: Option<seq<byte>>, cursor: nat)
    requires ml.Some? ==> cursor <= |ml.value|
    requires Countable(mmi)
    ensures var r := DecodeGroup(mmi, work, negative, ml, cursor);
            var n := GroupDraws(mmi, work);
            && (r.Success? <==> ml.None? || cursor + n <= |ml.value|)
            && (r.Success? ==> r.value.1 == cursor + Width(ml, n))
            && (r.Failure? ==> ml.Some? && r.error == LikelihoodUnderrun(|ml.value|))
  {
    if ReferenceApplies(Split(mmi, ',')) {
      DecodeGroupMatchesReference(mmi, work, negative, ml, cursor);
    }
  }

  /** Countable groups decode exactly when the likelihood array holds all
      their draws from the cursor on; the cursor ends past them, and the one
      way to fail is running out of likelihoods. */
  lemma {:induction false} DecodeGroupsDraws(groups: seq<string>, work: seq<byte>, negative: bool, ml: Option<seq<byte>>, cursor: nat)
    requires ml.Some? ==> cursor <= |ml.value|
    requires forall i :: 0 <= i < |groups| ==> Countable(groups[i])
    ensures var r := DecodeGroups(groups, work, negative, ml, cursor);
            var n := TagDraws(groups, work);
            && (r.Success? <==> ml.None? || cursor + n <= |ml.value|)
            && (r.Success? ==> r.value.1 == cursor + Width(ml, n))
            && (r.Failure? ==> ml.Some? && r.error == LikelihoodUnderrun(|ml.value|))
    decreases |groups|
  {
    if |groups| > 0 {
      var n := GroupDraws(groups[0], work);
      GroupDrawsCursor(groups[0], work, negative, ml, cursor);
      var head := DecodeGroup(groups[0], work, negative, ml, cursor);
      if head.Success? {
        DecodeGroupsDraws(groups[1..], work, negative, ml, head.value.1);
      }
    }
  }

  /** A tag whose groups are all countable decodes exactly when the
      likelihood array holds every draw, and otherwise fails for running out
      of likelihoods. */
  lemma TagDrawsSuffice(mm: string, ml: Option<seq<byte>>, sequence: seq<byte>, negative: bool, complement: byte -> byte)
    requires forall i :: 0 <= i < |Split(mm, ';')| ==> Countable(Split(mm, ';')[i])
    ensures var r := GetBaseModificationSets(mm, ml, sequence, negative, complement);
            var n := TagDraws(Split(mm, ';'), WorkSequence(sequence, negative, complement));
            && (r.Success? <==> ml.None? || n <= |ml.value|)
            && (r.Failure? ==> ml.Some? && r.error == LikelihoodUnderrun(|ml.value|))
  {
    DecodeGroupsDraws(Split(mm, ';'), WorkSequence(sequence, negative, complement), negative, ml, 0);
  }
}
