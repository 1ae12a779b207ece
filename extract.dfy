/**
 * Record extraction (`scrape_data` without the HTTP fetch): the payload text
 * is split on the sentinel "PICARD", fragments of length at most one are
 * discarded, the last three characters of every kept fragment are cut off,
 * and the first kept fragment (the preamble) is dropped.
 */
module RecordExtractor {
  import opened Text

  /** The record delimiter of the payload (SEPCHAR). */
  const Sentinel: string := "PICARD"

  /** `fragment[:-3]`: Python clamps the slice, so fragments of three characters or fewer give "". */
  function Trim(fragment: string): (record: string)
    ensures |record| == if |fragment| <= 3 then 0 else |fragment| - 3
    ensures record == fragment[..|record|]
  {
    if |fragment| <= 3 then "" else fragment[..|fragment| - 3]
  }

  /** The list comprehension `[l[:-3] for l in fragments if len(l) > 1]`, over `fragments[from..]`. */
  function KeepTrimmed(fragments: seq<string>, from: nat): (kept: seq<string>)
    requires from <= |fragments|
    decreases |fragments| - from
    ensures |kept| <= |fragments| - from
  {
    if from == |fragments| then []
    else if |fragments[from]| > 1 then [Trim(fragments[from])] + KeepTrimmed(fragments, from + 1)
    else KeepTrimmed(fragments, from + 1)
  }

  /** The records of a payload: the kept fragments without the first one (`msglst[1:]`). */
  function Extract(payload: string): (records: seq<string>)
    ensures |records| < |Split(payload, Sentinel)|
  {
    var kept := KeepTrimmed(Split(payload, Sentinel), 0);
    if |kept| == 0 then [] else kept[1..]
  }

  /**
   * Reference definition of which fragments survive the length test: the
   * positions, from `from` on, of the fragments longer than one character,
   * in increasing order (none is omitted: see `LongPositionsComplete`).
   */
  function LongPositions(fragments: seq<string>, from: nat): (pos: seq<nat>)
    requires from <= |fragments|
    decreases |fragments| - from
    ensures forall k | 0 <= k < |pos| :: from <= pos[k] < |fragments| && |fragments[pos[k]]| > 1
    ensures forall k, l | 0 <= k < l < |pos| :: pos[k] < pos[l]
  {
    if from == |fragments| then []
    else if |fragments[from]| > 1 then [from] + LongPositions(fragments, from + 1)
    else LongPositions(fragments, from + 1)
  }

  /** Every fragment longer than one character, at or after `from`, has its position listed. */
  lemma {:induction false} LongPositionsComplete(fragments: seq<string>, from: nat, j: nat)
    requires from <= j < |fragments| && |fragments[j]| > 1
    decreases |fragments| - from
    ensures j in LongPositions(fragments, from)
  {
    if j > from {
      LongPositionsComplete(fragments, from + 1, j);
    }
  }

  /** The comprehension keeps, in order, exactly the trimmed fragments at the long positions. */
  lemma {:induction false} KeepTrimmedAtLongPositions(fragments: seq<string>, from: nat)
    requires from <= |fragments|
    decreases |fragments| - from
    ensures |KeepTrimmed(fragments, from)| == |LongPositions(fragments, from)|
    ensures forall k | 0 <= k < |LongPositions(fragments, from)| ::
      KeepTrimmed(fragments, from)[k] == Trim(fragments[LongPositions(fragments, from)[k]])
  {
    if from < |fragments| {
      KeepTrimmedAtLongPositions(fragments, from + 1);
      if |fragments[from]| > 1 {
        var kept, rest := KeepTrimmed(fragments, from), KeepTrimmed(fragments, from + 1);
        var pos, restPos := LongPositions(fragments, from), LongPositions(fragments, from + 1);
        assert kept == [Trim(fragments[from])] + rest;
        assert pos == [from] + restPos;
        forall k | 1 <= k < |pos|
          ensures kept[k] == Trim(fragments[pos[k]])
        {
          assert kept[k] == rest[k - 1] && pos[k] == restPos[k - 1];
        }
      }
    }
  }

  /**
   * The records are the trimmed long fragments of the payload, in payload
   * order, with the first one dropped: there is one record fewer than there
   * are long fragments, and none when there is no long fragment at all.
   */
  lemma ExtractSelectsLongFragments(payload: string)
    ensures var fragments := Split(payload, Sentinel);
            var pos := LongPositions(fragments, 0);
            && |Extract(payload)| == (if |pos| == 0 then 0 else |pos| - 1)
            && forall k | 0 <= k < |Extract(payload)| ::
                 Extract(payload)[k] == Trim(fragments[pos[k + 1]])
  {
    var fragments := Split(payload, Sentinel);
    KeepTrimmedAtLongPositions(fragments, 0);
  }

  /** No record contains the sentinel: each is a prefix of a sentinel-free fragment. */
  lemma ExtractedRecordsHaveNoSentinel(payload: string)
    ensures forall k | 0 <= k < |Extract(payload)| :: !Contains(Extract(payload)[k], Sentinel)
  {
    var fragments := Split(payload, Sentinel);
    var pos := LongPositions(fragments, 0);
    ExtractSelectsLongFragments(payload);
    SplitPiecesFree(payload, Sentinel);
    forall k | 0 <= k < |Extract(payload)|
      ensures !Contains(Extract(payload)[k], Sentinel)
    {
      var fragment := fragments[pos[k + 1]];
      PrefixWithout(fragment, Sentinel, |Trim(fragment)|);
    }
  }

  /** A payload without the sentinel is a single fragment, which is dropped: no records. */
  lemma NoSentinelNoRecords(payload: string)
    requires !Contains(payload, Sentinel)
    ensures Extract(payload) == []
  {
    var fragments := Split(payload, Sentinel);
    SplitSingle(payload, Sentinel);
    SplitJoin(payload, Sentinel);
    assert fragments == [payload];
    assert KeepTrimmed(fragments, 1) == [];
  }
}
