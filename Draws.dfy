/** What one pass of the inner fill loop (PasswordGenMain.java, lines
    145-157) does with a run of random draws, as functions of the random
    source alone: which draws a pass rejects, and the characters it keeps. */
module Draws {
  import opened CharClasses
  import opened Validators

  /** The random source: nextInt(k, bound) is the k-th call of
      Random.nextInt(bound) in one run. Only its range is known. */
  ghost predicate DrawsInRange(nextInt: (nat, nat) -> nat) {
    forall k: nat, bound: nat :: 0 < bound ==> nextInt(k, bound) < bound
  }

  /** How many of the draws lo, ..., hi - 1 (with bound n) returned `idx`:
      the value of `repeats[idx]` in a pass that began with draw lo. */
  function Hits(nextInt: (nat, nat) -> nat, n: nat, lo: nat, hi: nat, idx: nat): (r: nat)
    requires lo <= hi
    ensures r <= hi - lo
    decreases hi - lo
  {
    if hi == lo then 0
    else Hits(nextInt, n, lo, hi - 1, idx) + (if nextInt(hi - 1, n) == idx then 1 else 0)
  }

  /** Draw k of a pass that began with draw lo is rejected: counting this
      draw, its index has come up more than `maxRepeat` times in the pass. */
  predicate Rejected(nextInt: (nat, nat) -> nat, n: nat, maxRepeat: int, lo: nat, k: nat)
    requires lo <= k
  {
    Hits(nextInt, n, lo, k + 1, nextInt(k, n)) > maxRepeat
  }

  /** How many of the draws lo, ..., hi - 1 the pass rejected. */
  function Rejections(nextInt: (nat, nat) -> nat, n: nat, maxRepeat: int, lo: nat, hi: nat): (r: nat)
    requires lo <= hi
    ensures r <= hi - lo
    decreases hi - lo
  {
    if hi == lo then 0
    else Rejections(nextInt, n, maxRepeat, lo, hi - 1) + (if Rejected(nextInt, n, maxRepeat, lo, hi - 1) then 1 else 0)
  }

  /** The characters the pass has placed after draws lo, ..., hi - 1: the
      alphabet character of every draw it did not reject, in draw order. */
  function Accepted(alphabet: string, nextInt: (nat, nat) -> nat, maxRepeat: int, lo: nat, hi: nat): (r: string)
    requires |alphabet| > 0 && DrawsInRange(nextInt) && lo <= hi
    ensures |r| + Rejections(nextInt, |alphabet|, maxRepeat, lo, hi) == hi - lo
    decreases hi - lo
  {
    if hi == lo then []
    else
      var placed := Accepted(alphabet, nextInt, maxRepeat, lo, hi - 1);
      if Rejected(nextInt, |alphabet|, maxRepeat, lo, hi - 1) then placed
      else placed + [alphabet[nextInt(hi - 1, |alphabet|)]]
  }

  /** The pass that began with draw lo stopped at draw hi because it had
      placed `length` characters, and not a draw later. */
  ghost predicate Completed(alphabet: string, length: int, maxRepeat: int, nextInt: (nat, nat) -> nat, lo: nat, hi: nat)
    requires |alphabet| > 0 && DrawsInRange(nextInt) && lo <= hi
  {
    |Accepted(alphabet, nextInt, maxRepeat, lo, hi)| == length
    && (hi == lo || |Accepted(alphabet, nextInt, maxRepeat, lo, hi - 1)| < length)
  }

  /** The pass that began with draw lo stopped at draw hi on a rejected
      draw, before it had placed `length` characters. */
  ghost predicate GaveUp(alphabet: string, length: int, maxRepeat: int, nextInt: (nat, nat) -> nat, lo: nat, hi: nat)
    requires |alphabet| > 0 && DrawsInRange(nextInt) && lo <= hi
  {
    lo < hi && Rejected(nextInt, |alphabet|, maxRepeat, lo, hi - 1)
    && |Accepted(alphabet, nextInt, maxRepeat, lo, hi)| < length
  }

  /** Every placed character is an alphabet character. */
  lemma {:induction false} AcceptedDrawnFrom(alphabet: string, nextInt: (nat, nat) -> nat, maxRepeat: int, lo: nat, hi: nat)
    requires |alphabet| > 0 && DrawsInRange(nextInt) && lo <= hi
    ensures forall i :: 0 <= i < |Accepted(alphabet, nextInt, maxRepeat, lo, hi)| ==>
      Accepted(alphabet, nextInt, maxRepeat, lo, hi)[i] in alphabet
    decreases hi - lo
  {
    if hi > lo {
      AcceptedDrawnFrom(alphabet, nextInt, maxRepeat, lo, hi - 1);
    }
  }

  /** With `maxRepeat <= 0` every draw is rejected and nothing is placed. */
  lemma {:induction false} AllRejected(alphabet: string, nextInt: (nat, nat) -> nat, maxRepeat: int, lo: nat, hi: nat)
    requires |alphabet| > 0 && DrawsInRange(nextInt) && lo <= hi
    requires maxRepeat <= 0
    ensures Accepted(alphabet, nextInt, maxRepeat, lo, hi) == []
    ensures Rejections(nextInt, |alphabet|, maxRepeat, lo, hi) == hi - lo
    decreases hi - lo
  {
    if hi > lo {
      AllRejected(alphabet, nextInt, maxRepeat, lo, hi - 1);
      assert Hits(nextInt, |alphabet|, lo, hi, nextInt(hi - 1, |alphabet|)) >= 1;
    }
  }

  /** How many of the draws lo, ..., hi - 1 returned `idx` and were kept. */
  function Kept(nextInt: (nat, nat) -> nat, n: nat, maxRepeat: int, lo: nat, hi: nat, idx: nat): (r: nat)
    requires lo <= hi
    ensures r <= hi - lo
    decreases hi - lo
  {
    if hi == lo then 0
    else
      var last := if nextInt(hi - 1, n) == idx && !Rejected(nextInt, n, maxRepeat, lo, hi - 1) then 1 else 0;
      Kept(nextInt, n, maxRepeat, lo, hi - 1, idx) + last
  }

  /** An index is kept no more often than it is drawn, and, once kept at
      all, at most `maxRepeat` times: the counter that decides a rejection
      is never rolled back, so it is never below the kept count. */
  lemma {:induction false} KeptCapped(nextInt: (nat, nat) -> nat, n: nat, maxRepeat: int, lo: nat, hi: nat, idx: nat)
    requires lo <= hi
    ensures Kept(nextInt, n, maxRepeat, lo, hi, idx) <= Hits(nextInt, n, lo, hi, idx)
    ensures Kept(nextInt, n, maxRepeat, lo, hi, idx) == 0 || Kept(nextInt, n, maxRepeat, lo, hi, idx) <= maxRepeat
    decreases hi - lo
  {
    if hi > lo {
      KeptCapped(nextInt, n, maxRepeat, lo, hi - 1, idx);
    }
  }

  /** Over a repeat-free alphabet, a character's count among the placed
      characters is the number of times its index was kept. */
  lemma {:induction false} CountAccepted(alphabet: string, nextInt: (nat, nat) -> nat, maxRepeat: int, lo: nat, hi: nat, idx: nat)
    requires |alphabet| > 0 && DrawsInRange(nextInt) && lo <= hi
    requires Distinct(alphabet) && idx < |alphabet|
    ensures Count(alphabet[idx], Accepted(alphabet, nextInt, maxRepeat, lo, hi))
      == Kept(nextInt, |alphabet|, maxRepeat, lo, hi, idx)
    decreases hi - lo
  {
    if hi > lo {
      CountAccepted(alphabet, nextInt, maxRepeat, lo, hi - 1, idx);
      var placed := Accepted(alphabet, nextInt, maxRepeat, lo, hi - 1);
      if !Rejected(nextInt, |alphabet|, maxRepeat, lo, hi - 1) {
        var d := nextInt(hi - 1, |alphabet|);
        assert (placed + [alphabet[d]])[..|placed|] == placed;
        assert alphabet[d] == alphabet[idx] <==> d == idx;
      }
    }
  }

  /** So a pass over a repeat-free alphabet never places a character more
      than `maxRepeat` times: its candidate passes hasMaxRepeat. */
  lemma AcceptedRespectsCap(alphabet: string, nextInt: (nat, nat) -> nat, maxRepeat: int, lo: nat, hi: nat)
    requires |alphabet| > 0 && DrawsInRange(nextInt) && lo <= hi
    requires Distinct(alphabet)
    ensures MaxRepeatOk(maxRepeat, Accepted(alphabet, nextInt, maxRepeat, lo, hi))
  {
    var s := Accepted(alphabet, nextInt, maxRepeat, lo, hi);
    AcceptedDrawnFrom(alphabet, nextInt, maxRepeat, lo, hi);
    forall i | 0 <= i < |s| ensures Count(s[i], s) <= maxRepeat {
      var idx :| 0 <= idx < |alphabet| && alphabet[idx] == s[i];
      CountAccepted(alphabet, nextInt, maxRepeat, lo, hi, idx);
      KeptCapped(nextInt, |alphabet|, maxRepeat, lo, hi, idx);
      CountZeroIff(s[i], s);
    }
  }
}
