/** compressImageWithTargetSize (main.go:358-402): encode, measure, and
    lower the JPEG quality by 15 (never below 50) until the file is at most
    500 KiB or the quality is already at most 50, for at most four attempts.
    The encoder is a parameter: `encode(img, q)` is the size of the file
    written at quality q, or None when creating, encoding or measuring the
    file failed. */
module SizeSearch {
  import opened Outcomes
  import opened Raster

  const MaxFileSize: int := 500 * 1024
  const MaxAttempts: nat := 4
  const QualityFloor: int := 50
  const QualityStep: int := 15

  /** One encode: the quality used and the size measured, if any. */
  datatype Attempt = Attempt(quality: int, size: Option<nat>)

  /** The stopping test of main.go:387. */
  predicate Accepted(a: Attempt) {
    a.size.Some? && (a.size.value <= MaxFileSize || a.quality <= QualityFloor)
  }

  /** main.go:395-398: the next quality is 15 lower, but never below 50,
      so a retry from above the floor always lowers the quality. */
  function NextQuality(q: int): (n: int)
    ensures QualityFloor <= n
    ensures n == q - QualityStep || n == QualityFloor
    ensures q > QualityFloor ==> n < q
  {
    if q - QualityStep < QualityFloor then QualityFloor else q - QualityStep
  }

  /** The encodes the loop performs when `left` attempts remain and the
      current quality is `quality`. */
  function Attempts(encode: (Picture, int) -> Option<nat>, img: Picture, quality: int, left: nat): seq<Attempt>
    decreases left
  {
    if left == 0 then []
    else
      var a := Attempt(quality, encode(img, quality));
      if a.size.None? || Accepted(a) then [a]
      else [a] + Attempts(encode, img, NextQuality(quality), left - 1)
  }

  /** What the call returns after the given encodes: the output path unless
      the last encode failed. */
  function Outcome(trace: seq<Attempt>, outputPath: string): Result<string> {
    if trace != [] && trace[|trace| - 1].size.None? then Failure(WriteFailed) else Success(outputPath)
  }

  method CompressImageWithTargetSize(encode: (Picture, int) -> Option<nat>, img: Picture, outputPath: string, startQuality: int)
    returns (r: Result<string>, ghost trace: seq<Attempt>)
    ensures trace == Attempts(encode, img, startQuality, MaxAttempts)
    ensures r == Outcome(Attempts(encode, img, startQuality, MaxAttempts), outputPath)
  {
    var quality := startQuality;
    trace := [];
    for attempts := 0 to 4
      invariant |trace| == attempts
      invariant trace + Attempts(encode, img, quality, MaxAttempts - attempts) == Attempts(encode, img, startQuality, MaxAttempts)
      invariant attempts > 0 ==> trace[attempts - 1].size.Some?
    {
      var size := encode(img, quality);
      ghost var a, before := Attempt(quality, size), trace;
      ghost var next := NextQuality(quality);
      ghost var tail := Attempts(encode, img, next, MaxAttempts - attempts - 1);
      AttemptsStep(encode, img, quality, MaxAttempts - attempts);
      trace := trace + [a];
      if size.None? {
        return Failure(WriteFailed), trace;
      }
      if size.value <= MaxFileSize || quality <= 50 {
        return Success(outputPath), trace;
      }
      AppendRegroups(before, a, tail);
      quality := quality - 15;
      if quality < 50 {
        quality := 50;
      }
      assert quality == next;
    }
    r := Success(outputPath);
  }

  /** One step of the search: the first encode, then the rest unless it
      stops the search. */
  lemma AttemptsStep(encode: (Picture, int) -> Option<nat>, img: Picture, quality: int, left: nat)
    requires left > 0
    ensures var a := Attempt(quality, encode(img, quality));
      Attempts(encode, img, quality, left) ==
        if a.size.None? || Accepted(a) then [a] else [a] + Attempts(encode, img, NextQuality(quality), left - 1)
  {
  }

  lemma AppendRegroups(before: seq<Attempt>, a: Attempt, tail: seq<Attempt>)
    ensures before + ([a] + tail) == (before + [a]) + tail
  {
  }

  /** The quality of the k-th encode, counting from zero. */
  function ScheduledQuality(startQuality: int, k: nat): int {
    if k == 0 then startQuality else NextQuality(ScheduledQuality(startQuality, k - 1))
  }

  /** The search performs between one and `left` encodes, and stops on
      an encode that failed, was accepted, or used up the attempts. */
  lemma {:induction false} AttemptsLength(encode: (Picture, int) -> Option<nat>, img: Picture, startQuality: int, left: nat)
    requires left > 0
    ensures var t := Attempts(encode, img, startQuality, left);
      1 <= |t| <= left && (t[|t| - 1].size.None? || Accepted(t[|t| - 1]) || |t| == left)
  {
    AttemptsStep(encode, img, startQuality, left);
    var a := Attempt(startQuality, encode(img, startQuality));
    if !(a.size.None? || Accepted(a)) && left > 1 {
      AttemptsLength(encode, img, NextQuality(startQuality), left - 1);
    }
  }

  /** The k-th encode uses the k-th scheduled quality. */
  lemma {:induction false} AttemptsFollowSchedule(encode: (Picture, int) -> Option<nat>, img: Picture, startQuality: int, left: nat)
    ensures var t := Attempts(encode, img, startQuality, left);
      forall k :: 0 <= k < |t| ==> t[k].quality == ScheduledQuality(startQuality, k)
  {
    if left > 0 {
      AttemptsStep(encode, img, startQuality, left);
      var t := Attempts(encode, img, startQuality, left);
      var a := Attempt(startQuality, encode(img, startQuality));
      if !(a.size.None? || Accepted(a)) {
        var next := NextQuality(startQuality);
        var rest := Attempts(encode, img, next, left - 1);
        AttemptsFollowSchedule(encode, img, next, left - 1);
        forall k | 1 <= k < |t|
          ensures t[k].quality == ScheduledQuality(startQuality, k)
        {
          assert t[k] == rest[k - 1];
          ScheduleShift(startQuality, k - 1);
        }
      }
    }
  }

  /** Every encode but the last was measured above the ceiling at a
      quality above 50. */
  lemma {:induction false} OnlyTheLastIsAccepted(encode: (Picture, int) -> Option<nat>, img: Picture, startQuality: int, left: nat)
    ensures var t := Attempts(encode, img, startQuality, left);
      forall k :: 0 <= k < |t| - 1 ==> t[k].size.Some? && t[k].size.value > MaxFileSize && t[k].quality > QualityFloor
  {
    if left > 0 {
      AttemptsStep(encode, img, startQuality, left);
      var t := Attempts(encode, img, startQuality, left);
      var a := Attempt(startQuality, encode(img, startQuality));
      if !(a.size.None? || Accepted(a)) {
        var rest := Attempts(encode, img, NextQuality(startQuality), left - 1);
        OnlyTheLastIsAccepted(encode, img, NextQuality(startQuality), left - 1);
        forall k | 1 <= k < |t| - 1
          ensures t[k].size.Some? && t[k].size.value > MaxFileSize && t[k].quality > QualityFloor
        {
          assert t[k] == rest[k - 1];
        }
      }
    }
  }

  lemma {:induction false} ScheduleShift(startQuality: int, k: nat)
    ensures ScheduledQuality(NextQuality(startQuality), k) == ScheduledQuality(startQuality, k + 1)
  {
    if k > 0 {
      ScheduleShift(startQuality, k - 1);
    }
  }

  /** Every retry uses a quality of at least 50, and the quality never
      rises above the starting one. */
  lemma {:induction false} RetriesNeverBelowFloor(startQuality: int, k: nat)
    ensures k > 0 ==> ScheduledQuality(startQuality, k) >= QualityFloor
    ensures ScheduledQuality(startQuality, k) <= startQuality || ScheduledQuality(startQuality, k) == QualityFloor
  {
    if k > 0 {
      RetriesNeverBelowFloor(startQuality, k - 1);
    }
  }

  /** At most four encodes; when none fails, the output path is returned
      even if the 500 KiB ceiling was never met. */
  lemma {:induction false} SearchAlwaysReturnsPath(encode: (Picture, int) -> Option<nat>, img: Picture, outputPath: string, startQuality: int)
    requires forall q :: encode(img, q).Some?
    ensures |Attempts(encode, img, startQuality, MaxAttempts)| <= 4
    ensures Outcome(Attempts(encode, img, startQuality, MaxAttempts), outputPath) == Success(outputPath)
  {
    AttemptsLength(encode, img, startQuality, MaxAttempts);
  }

  /** From the highest adaptive quality, an encoder that never gets under
      the ceiling sees the qualities 90, 75, 60, 50. */
  lemma NeverSmallEnoughSchedule(encode: (Picture, int) -> Option<nat>, img: Picture)
    requires forall q :: encode(img, q).Some? && encode(img, q).value > MaxFileSize
    ensures var t := Attempts(encode, img, 90, MaxAttempts);
      |t| == 4 && t[0].quality == 90 && t[1].quality == 75 && t[2].quality == 60 && t[3].quality == 50
  {
  }
}
