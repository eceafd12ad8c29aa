/** The body of doMain (PasswordGenMain.java, lines 104-164): select the
    alphabet, reject a length below the floor, then a retry-until-valid loop
    that fills a candidate from random alphabet indices and keeps the first
    one that passes every validator, within a shared budget of tries. */
module Generator {
  import opened CharClasses
  import opened Alphabet
  import opened Validators
  import opened Draws

  /** Shortest password length doMain accepts. */
  const LowestLength: int := 6

  /** Ceiling on the count of attempts and rejected placements, shared by
      the outer and the inner loop. */
  const MaxTries: int := 10000

  /** The parsed numeric options of one call. */
  datatype Criteria = Criteria(
    length: int,
    minUpper: int,
    minLower: int,
    minDigit: int,
    minSpecial: int,
    maxRepeat: int)
  {
    /** The minimum count asked of a class. */
    function Min(cls: CharClass): int {
      match cls
      case Upper => minUpper
      case Lower => minLower
      case Digit => minDigit
      case Special => minSpecial
    }
  }

  datatype Outcome =
    | Password(value: string)  // the password doMain prints
    | LengthTooShort           // the ParseException for a length below LowestLength
    | Exhausted                // the RuntimeException once the tries run out

  /** Every character of `s` is one of the alphabet's. */
  predicate DrawnFrom(s: string, alphabet: string) {
    forall i :: 0 <= i < |s| ==> s[i] in alphabet
  }

  /** Trimming keeps a candidate drawn from the alphabet. */
  lemma TrimDrawnFrom(s: string, alphabet: string)
    requires DrawnFrom(s, alphabet)
    ensures DrawnFrom(Trim(s), alphabet)
  {
    var k := TrimStart(s);
    var t := Trim(s);
    TrimIsSlice(s);
    forall i | 0 <= i < |t| ensures t[i] in alphabet {
      assert t[i] == s[k + i];
    }
  }

  /** The exit test of the do-while loop on a trimmed candidate. */
  predicate Acceptable(generated: string, criteria: Criteria) {
    criteria.length == |generated|
    && CountIn(UpperChars, generated) >= criteria.minUpper
    && CountIn(LowerChars, generated) >= criteria.minLower
    && CountIn(DigitChars, generated) >= criteria.minDigit
    && CountIn(SpecialChars, generated) >= criteria.minSpecial
    && MaxRepeatOk(criteria.maxRepeat, generated)
  }

  /** The minimum an acceptable password meets for one class. */
  lemma AcceptableMeetsMin(generated: string, criteria: Criteria, cls: CharClass)
    requires Acceptable(generated, criteria)
    ensures CountIn(Chars(cls), generated) >= criteria.Min(cls)
  {
  }

  /** A character belongs to at most one class, so the four class counts of
      a string add up to no more than its length. */
  lemma {:induction false} ClassCountsWithinLength(s: string)
    ensures CountIn(UpperChars, s) + CountIn(LowerChars, s) + CountIn(DigitChars, s)
      + CountIn(SpecialChars, s) <= |s|
  {
    if s != [] {
      var c := s[|s| - 1];
      ClassCountsWithinLength(s[..|s| - 1]);
      var owner := ClassOf(c);
      assert c in UpperChars ==> owner == Some(Upper) by { assert UpperChars == Chars(Upper); }
      assert c in LowerChars ==> owner == Some(Lower) by { assert LowerChars == Chars(Lower); }
      assert c in DigitChars ==> owner == Some(Digit) by { assert DigitChars == Chars(Digit); }
      assert c in SpecialChars ==> owner == Some(Special) by { assert SpecialChars == Chars(Special); }
    }
  }

  /** Minima that together exceed the length can never all be met. */
  lemma MinimaBeyondLength(generated: string, criteria: Criteria)
    requires criteria.minUpper + criteria.minLower + criteria.minDigit + criteria.minSpecial > criteria.length
    ensures !Acceptable(generated, criteria)
  {
    ClassCountsWithinLength(generated);
  }

  /** When the selector names some class, a string drawn from its alphabet
      holds no character of a class it leaves out. */
  lemma UnnamedClassAbsent(selector: string, cls: CharClass, s: string)
    requires NamesAClass(selector) && Tag(cls) !in selector
    requires DrawnFrom(s, AlphabetFor(selector))
    ensures CountIn(Chars(cls), s) == 0
  {
    forall i | 0 <= i < |s| ensures s[i] !in Chars(cls) {
      if s[i] in Chars(cls) {
        ClassInclusion(selector, cls, s[i]);
      }
    }
    CountInBounds(Chars(cls), s);
  }

  /** So a password drawn from such an alphabet passes only if the minimum
      of every class left out is at most zero. */
  lemma UnnamedClassMinimum(selector: string, criteria: Criteria, s: string)
    requires NamesAClass(selector)
    requires DrawnFrom(s, AlphabetFor(selector)) && Acceptable(s, criteria)
    ensures forall cls :: Tag(cls) !in selector ==> criteria.Min(cls) <= 0
  {
    forall cls | Tag(cls) !in selector ensures criteria.Min(cls) <= 0 {
      UnnamedClassAbsent(selector, cls, s);
      AcceptableMeetsMin(s, criteria, cls);
    }
  }

  /** A filled candidate that starts or ends with the space loses it to the
      trim, and the shorter result fails the length test. */
  lemma BoundarySpaceRejected(candidate: string, criteria: Criteria)
    requires |candidate| == criteria.length > 0
    requires candidate[0] == ' ' || candidate[|candidate| - 1] == ' '
    ensures |Trim(candidate)| < |candidate|
    ensures !Acceptable(Trim(candidate), criteria)
  {
    TrimUnchangedIff(candidate);
  }

  /** Among alphabet characters only the space is trimmed, so the trim
      leaves a candidate unchanged exactly when neither end is the space. */
  lemma TrimOnlyStripsSpace(selector: string, candidate: string)
    requires DrawnFrom(candidate, AlphabetFor(selector))
    ensures Trim(candidate) == candidate <==>
      candidate == [] || (candidate[0] != ' ' && candidate[|candidate| - 1] != ' ')
  {
    TrimUnchangedIff(candidate);
    TrimmedIffNoBoundarySpace(selector, candidate);
  }

  lemma TrimmedIffNoBoundarySpace(selector: string, candidate: string)
    requires DrawnFrom(candidate, AlphabetFor(selector))
    ensures Trimmed(candidate) <==>
      candidate == [] || (candidate[0] != ' ' && candidate[|candidate| - 1] != ' ')
  {
    if candidate != [] {
      AlphabetBlank(selector, candidate[0]);
      AlphabetBlank(selector, candidate[|candidate| - 1]);
    }
  }

  /** The only alphabet character at or below the space is the space. */
  lemma AlphabetBlank(selector: string, c: char)
    requires c in AlphabetFor(selector)
    ensures c <= ' ' <==> c == ' '
  {
    AlphabetMembership(selector, c);
    BlankClassChars(c);
  }

  /** One pass of the inner for loop (lines 142-157): fill `length` slots
      left to right from random alphabet indices, starting with draw
      `draws0`. A draw that pushes its index's counter past `maxRepeat` is
      rejected: the slot is drawn again (the source steps `i` back) and a try
      is spent; reaching MaxTries abandons the pass. Counters are not rolled
      back on a rejection. */
  method FillCandidate(alphabet: string, length: nat, maxRepeat: int, nextInt: (nat, nat) -> nat,
                       tries0: int, draws0: nat)
    returns (complete: bool, candidate: string, tries: int, draws: nat)
    requires |alphabet| > 0 && DrawsInRange(nextInt)
    requires 0 < tries0 <= MaxTries
    ensures draws0 <= draws
    ensures tries == tries0 + Rejections(nextInt, |alphabet|, maxRepeat, draws0, draws)
    ensures candidate == Accepted(alphabet, nextInt, maxRepeat, draws0, draws)
    ensures complete ==> Completed(alphabet, length, maxRepeat, nextInt, draws0, draws)
    ensures complete ==> tries <= MaxTries && (tries > tries0 ==> tries < MaxTries)
    ensures !complete ==> GaveUp(alphabet, length, maxRepeat, nextInt, draws0, draws)
    ensures !complete ==> MaxTries <= tries <= MaxTries + 1 && (tries0 < MaxTries ==> tries == MaxTries)
    ensures complete ==> DrawnFrom(candidate, alphabet)
    ensures complete && Distinct(alphabet) ==> MaxRepeatOk(maxRepeat, candidate)
    ensures draws <= draws0 + length + (tries - tries0)
    ensures maxRepeat <= 0 && length > 0 ==> !complete && draws == draws0 + (tries - tries0)
  {
    var n := |alphabet|;
    var repeats := new int[n](_ => 0);
    var arr := new char[length];
    tries, draws := tries0, draws0;
    var i := 0;
    while i < length
      invariant 0 <= i <= length && draws0 <= draws
      invariant tries0 <= tries <= MaxTries && (tries > tries0 ==> tries < MaxTries)
      invariant tries == tries0 + Rejections(nextInt, n, maxRepeat, draws0, draws)
      invariant forall idx :: 0 <= idx < n ==> repeats[idx] == Hits(nextInt, n, draws0, draws, idx)
      invariant arr[..i] == Accepted(alphabet, nextInt, maxRepeat, draws0, draws)
      invariant draws > draws0 ==> |Accepted(alphabet, nextInt, maxRepeat, draws0, draws - 1)| < length
      invariant maxRepeat <= 0 ==> i == 0
      decreases MaxTries - tries, length - i
    {
      var idx := nextInt(draws, n);
      draws := draws + 1;
      arr[i] := alphabet[idx];
      repeats[idx] := repeats[idx] + 1;
      if repeats[idx] > maxRepeat {
        tries := tries + 1;
        if tries >= MaxTries {
          return false, arr[..i], tries, draws;
        }
      } else {
        i := i + 1;
      }
    }
    complete, candidate := true, arr[..];
    AcceptedDrawnFrom(alphabet, nextInt, maxRepeat, draws0, draws);
    if Distinct(alphabet) {
      AcceptedRespectsCap(alphabet, nextInt, maxRepeat, draws0, draws);
    }
  }

  /** Each list of attempt start draws is non-decreasing and ends by `end`. */
  predicate Sorted(starts: seq<nat>, end: nat) {
    (forall i, j :: 0 <= i < j < |starts| ==> starts[i] <= starts[j])
    && forall i :: 0 <= i < |starts| ==> starts[i] <= end
  }

  /** Rejected draws over all attempts: attempt p covers the draws from
      starts[p] to the next start, the last one up to `end`. */
  function TotalRejections(n: nat, maxRepeat: int, nextInt: (nat, nat) -> nat, starts: seq<nat>, end: nat): nat
    requires Sorted(starts, end)
    decreases |starts|
  {
    if starts == [] then 0
    else
      var m := |starts| - 1;
      assert Sorted(starts[..m], starts[m]);
      TotalRejections(n, maxRepeat, nextInt, starts[..m], starts[m]) + Rejections(nextInt, n, maxRepeat, starts[m], end)
  }

  /** The attempt from draw lo to draw hi filled a candidate, and the
      candidate failed the loop condition once trimmed. */
  ghost predicate Failed(alphabet: string, criteria: Criteria, nextInt: (nat, nat) -> nat, lo: nat, hi: nat)
    requires |alphabet| > 0 && DrawsInRange(nextInt) && lo <= hi
  {
    Completed(alphabet, criteria.length, criteria.maxRepeat, nextInt, lo, hi)
    && !Acceptable(Trim(Accepted(alphabet, nextInt, criteria.maxRepeat, lo, hi)), criteria)
  }

  /** Attempt p of the do-while began with draw starts[p], and draws 0 ..
      end - 1 were made in all; `tries` counts one per attempt and one per
      rejected draw; every attempt but the last filled a candidate that
      failed the loop condition. */
  ghost predicate Attempts(alphabet: string, criteria: Criteria, nextInt: (nat, nat) -> nat,
                           tries: int, starts: seq<nat>, end: nat)
    requires |alphabet| > 0 && DrawsInRange(nextInt)
  {
    && |starts| > 0 && starts[0] == 0 && Sorted(starts, end)
    && tries == |starts| + TotalRejections(|alphabet|, criteria.maxRepeat, nextInt, starts, end)
    && (SortedPrefix(starts, end);
        EarlierFailed(alphabet, criteria, nextInt, starts[..|starts| - 1], starts[|starts| - 1]))
  }

  /** A prefix of a sorted list of starts is sorted up to the next start. */
  lemma SortedPrefix(starts: seq<nat>, end: nat)
    requires |starts| > 0 && Sorted(starts, end)
    ensures Sorted(starts[..|starts| - 1], starts[|starts| - 1])
  {
  }

  /** Every attempt in `starts` filled a candidate that failed, the last
      of them ending at draw `end`. */
  ghost predicate EarlierFailed(alphabet: string, criteria: Criteria, nextInt: (nat, nat) -> nat,
                                starts: seq<nat>, end: nat)
    requires |alphabet| > 0 && DrawsInRange(nextInt) && Sorted(starts, end)
    decreases |starts|
  {
    starts == [] ||
    (SortedPrefix(starts, end);
     && EarlierFailed(alphabet, criteria, nextInt, starts[..|starts| - 1], starts[|starts| - 1])
     && Failed(alphabet, criteria, nextInt, starts[|starts| - 1], end))
  }

  /** Spelled out: attempt p, which ran from starts[p] up to the next
      start (or `end` for the last), filled a candidate that failed. */
  lemma {:induction false} EachEarlierFailed(alphabet: string, criteria: Criteria, nextInt: (nat, nat) -> nat,
                                             starts: seq<nat>, end: nat)
    requires |alphabet| > 0 && DrawsInRange(nextInt) && Sorted(starts, end)
    requires EarlierFailed(alphabet, criteria, nextInt, starts, end)
    ensures forall p :: 0 <= p < |starts| ==>
      Failed(alphabet, criteria, nextInt, starts[p], if p + 1 < |starts| then starts[p + 1] else end)
    decreases |starts|
  {
    if starts != [] {
      var m := |starts| - 1;
      SortedPrefix(starts, end);
      EachEarlierFailed(alphabet, criteria, nextInt, starts[..m], starts[m]);
      forall p | 0 <= p < |starts|
        ensures Failed(alphabet, criteria, nextInt, starts[p], if p + 1 < |starts| then starts[p + 1] else end)
      {
        if p < m {
          assert starts[..m][p] == starts[p];
          if p + 1 < m {
            assert starts[..m][p + 1] == starts[p + 1];
          }
        }
      }
    }
  }

  /** The do-while loop ran on this random source with these results: the
      attempts are as Attempts says, and the last one either filled an
      acceptable candidate, which is the password, or used up the budget.
      A filled attempt never had a rejection reach MaxTries, and an
      abandoned one stopped on the rejection that reached it. */
  ghost predicate RunOf(alphabet: string, criteria: Criteria, nextInt: (nat, nat) -> nat,
                        outcome: Outcome, tries: int, starts: seq<nat>, end: nat)
    requires |alphabet| > 0 && DrawsInRange(nextInt)
  {
    && Attempts(alphabet, criteria, nextInt, tries, starts, end)
    && var last := starts[|starts| - 1];
       var lastRejections := Rejections(nextInt, |alphabet|, criteria.maxRepeat, last, end);
       && (Completed(alphabet, criteria.length, criteria.maxRepeat, nextInt, last, end) ==>
            tries <= MaxTries && (tries < MaxTries || lastRejections == 0))
       && (outcome.Password? ==>
            Completed(alphabet, criteria.length, criteria.maxRepeat, nextInt, last, end)
            && outcome.value == Trim(Accepted(alphabet, nextInt, criteria.maxRepeat, last, end))
            && Acceptable(outcome.value, criteria))
       && (outcome.Exhausted? ==>
            (GaveUp(alphabet, criteria.length, criteria.maxRepeat, nextInt, last, end)
             && (tries == MaxTries || (tries == MaxTries + 1 && lastRejections == 1)))
            || (Failed(alphabet, criteria, nextInt, last, end) && tries == MaxTries))
       && !outcome.LengthTooShort?
  }

  /** The do-while loop (lines 134-164) over a non-empty alphabet. The
      ghost `starts` records the draw at which each attempt began. */
  method Generate(alphabet: string, criteria: Criteria, nextInt: (nat, nat) -> nat)
    returns (outcome: Outcome, tries: int, draws: nat, ghost starts: seq<nat>)
    requires |alphabet| > 0 && DrawsInRange(nextInt)
    requires criteria.length >= 0
    ensures RunOf(alphabet, criteria, nextInt, outcome, tries, starts, draws)
    ensures outcome.Password? ==> Acceptable(outcome.value, criteria) && 0 < tries <= MaxTries
    ensures outcome.Password? ==> DrawnFrom(outcome.value, alphabet)
    ensures outcome.Password? ==> Trimmed(outcome.value)
    ensures outcome.Exhausted? ==> MaxTries <= tries <= MaxTries + 1
    ensures draws <= DrawCap(criteria.length, tries)
    ensures criteria.maxRepeat <= 0 && criteria.length > 0 ==>
      outcome.Exhausted? && tries == MaxTries && draws == MaxTries - 1
  {
    tries, draws, starts := 0, 0, [];
    outcome := Exhausted;
    var stop := false;
    while !stop
      invariant 0 <= tries <= MaxTries + 1
      invariant draws <= DrawCap(criteria.length, tries)
      invariant !stop ==> tries <= MaxTries && AllFailed(alphabet, criteria, nextInt, tries, starts, draws)
      invariant stop ==> RunOf(alphabet, criteria, nextInt, outcome, tries, starts, draws)
      decreases MaxTries + 1 - tries, !stop
    {
      stop, outcome, tries, draws, starts := Attempt(alphabet, criteria, nextInt, tries, draws, starts);
    }
    RunOutcome(alphabet, criteria, nextInt, outcome, tries, starts, draws);
    if criteria.maxRepeat <= 0 && criteria.length > 0 {
      NothingKept(alphabet, criteria, nextInt, outcome, tries, starts, draws);
    }
  }

  /** One pass of the do-while body (lines 139-164): give up once the
      tries reach MaxTries, else spend a try and fill a candidate; stop
      with an outcome unless the candidate is filled and fails the loop
      condition. */
  method Attempt(alphabet: string, criteria: Criteria, nextInt: (nat, nat) -> nat,
                 tries0: int, draws0: nat, ghost starts0: seq<nat>)
    returns (stop: bool, outcome: Outcome, tries: int, draws: nat, ghost starts: seq<nat>)
    requires |alphabet| > 0 && DrawsInRange(nextInt)
    requires criteria.length >= 0 && 0 <= tries0 <= MaxTries
    requires draws0 <= DrawCap(criteria.length, tries0)
    requires AllFailed(alphabet, criteria, nextInt, tries0, starts0, draws0)
    ensures tries0 <= tries <= MaxTries + 1 && (!stop ==> tries0 < tries)
    ensures draws <= DrawCap(criteria.length, tries)
    ensures stop ==> RunOf(alphabet, criteria, nextInt, outcome, tries, starts, draws)
    ensures !stop ==> tries <= MaxTries && AllFailed(alphabet, criteria, nextInt, tries, starts, draws)
  {
    if tries0 >= MaxTries {
      BudgetSpent(alphabet, criteria, nextInt, tries0, starts0, draws0);
      return true, Exhausted, tries0, draws0, starts0;
    }
    tries := tries0 + 1;
    var complete, arr;
    complete, arr, tries, draws := FillCandidate(alphabet, criteria.length, criteria.maxRepeat, nextInt, tries, draws0);
    DrawBudget(criteria.length, tries0, tries, draws0, draws);
    NextAttempt(alphabet, criteria, nextInt, tries0, starts0, draws0, tries, draws);
    starts := starts0 + [draws0];
    assert starts[|starts| - 1] == draws0;
    if !complete {
      GaveUpRun(alphabet, criteria, nextInt, tries, starts, draws);
      return true, Exhausted, tries, draws, starts;
    }
    var generated, ok := Validate(arr, criteria);
    if ok {
      PasswordRun(alphabet, criteria, nextInt, tries, starts, draws);
      return true, Password(generated), tries, draws, starts;
    }
    stop, outcome := false, Exhausted;
  }

  /** An attempt that gave up on the rejection that reached MaxTries ends
      the run with Exhausted. */
  lemma GaveUpRun(alphabet: string, criteria: Criteria, nextInt: (nat, nat) -> nat,
                  tries: int, starts: seq<nat>, end: nat)
    requires |alphabet| > 0 && DrawsInRange(nextInt)
    requires Attempts(alphabet, criteria, nextInt, tries, starts, end)
    requires GaveUp(alphabet, criteria.length, criteria.maxRepeat, nextInt, starts[|starts| - 1], end)
    requires tries == MaxTries
      || (tries == MaxTries + 1 && Rejections(nextInt, |alphabet|, criteria.maxRepeat, starts[|starts| - 1], end) == 1)
    ensures RunOf(alphabet, criteria, nextInt, Exhausted, tries, starts, end)
  {
  }

  /** An attempt that filled a candidate which passes the loop condition
      once trimmed ends the run with that password. */
  lemma PasswordRun(alphabet: string, criteria: Criteria, nextInt: (nat, nat) -> nat,
                    tries: int, starts: seq<nat>, end: nat)
    requires |alphabet| > 0 && DrawsInRange(nextInt)
    requires Attempts(alphabet, criteria, nextInt, tries, starts, end)
    requires Completed(alphabet, criteria.length, criteria.maxRepeat, nextInt, starts[|starts| - 1], end)
    requires tries <= MaxTries
      && (tries < MaxTries || Rejections(nextInt, |alphabet|, criteria.maxRepeat, starts[|starts| - 1], end) == 0)
    requires Acceptable(Trim(Accepted(alphabet, nextInt, criteria.maxRepeat, starts[|starts| - 1], end)), criteria)
    ensures RunOf(alphabet, criteria, nextInt,
                  Password(Trim(Accepted(alphabet, nextInt, criteria.maxRepeat, starts[|starts| - 1], end))),
                  tries, starts, end)
  {
  }

  /** The budget check at the top of the do-while ends the run once every
      attempt so far failed and the tries reached MaxTries. */
  lemma BudgetSpent(alphabet: string, criteria: Criteria, nextInt: (nat, nat) -> nat,
                    tries: int, starts: seq<nat>, end: nat)
    requires |alphabet| > 0 && DrawsInRange(nextInt)
    requires AllFailed(alphabet, criteria, nextInt, tries, starts, end)
    requires tries == MaxTries
    ensures RunOf(alphabet, criteria, nextInt, Exhausted, tries, starts, end)
  {
  }

  /** A run that produced a password took between one and MaxTries tries,
      and the password is trimmed and drawn from the alphabet; a run that
      gave up took MaxTries tries, or one more when the last try was a
      rejection. */
  lemma RunOutcome(alphabet: string, criteria: Criteria, nextInt: (nat, nat) -> nat,
                   outcome: Outcome, tries: int, starts: seq<nat>, end: nat)
    requires |alphabet| > 0 && DrawsInRange(nextInt)
    requires RunOf(alphabet, criteria, nextInt, outcome, tries, starts, end)
    ensures outcome.Password? ==> 0 < tries <= MaxTries
    ensures outcome.Password? ==> DrawnFrom(outcome.value, alphabet) && Trimmed(outcome.value)
    ensures outcome.Exhausted? ==> MaxTries <= tries <= MaxTries + 1
  {
    if outcome.Password? {
      var last := starts[|starts| - 1];
      AcceptedDrawnFrom(alphabet, nextInt, criteria.maxRepeat, last, end);
      TrimDrawnFrom(Accepted(alphabet, nextInt, criteria.maxRepeat, last, end), alphabet);
    }
  }

  /** With `maxRepeat <= 0` and a positive length no attempt places a
      character: the first attempt rejects draw after draw until the
      MaxTries-th try, after MaxTries - 1 draws. */
  lemma NothingKept(alphabet: string, criteria: Criteria, nextInt: (nat, nat) -> nat,
                    outcome: Outcome, tries: int, starts: seq<nat>, end: nat)
    requires |alphabet| > 0 && DrawsInRange(nextInt)
    requires RunOf(alphabet, criteria, nextInt, outcome, tries, starts, end)
    requires criteria.maxRepeat <= 0 && criteria.length > 0
    ensures outcome.Exhausted? && tries == MaxTries && end == MaxTries - 1
  {
    var m := |starts| - 1;
    SortedPrefix(starts, end);
    if m > 0 {
      var prefix := starts[..m];
      SortedPrefix(prefix, starts[m]);
      AllRejected(alphabet, nextInt, criteria.maxRepeat, prefix[m - 1], starts[m]);
      assert false;
    }
    assert starts == [0];
    AllRejected(alphabet, nextInt, criteria.maxRepeat, 0, end);
    assert TotalRejections(|alphabet|, criteria.maxRepeat, nextInt, starts, end)
      == TotalRejections(|alphabet|, criteria.maxRepeat, nextInt, [], 0) + Rejections(nextInt, |alphabet|, criteria.maxRepeat, 0, end);
  }

  /** The state at the top of the do-while: no attempt yet, or every
      attempt so far failed and the counter never reached MaxTries on a
      rejection. */
  ghost predicate AllFailed(alphabet: string, criteria: Criteria, nextInt: (nat, nat) -> nat,
                            tries: int, starts: seq<nat>, end: nat)
    requires |alphabet| > 0 && DrawsInRange(nextInt)
  {
    if starts == [] then tries == 0 && end == 0
    else
      && Attempts(alphabet, criteria, nextInt, tries, starts, end)
      && Failed(alphabet, criteria, nextInt, starts[|starts| - 1], end)
      && (tries < MaxTries || Rejections(nextInt, |alphabet|, criteria.maxRepeat, starts[|starts| - 1], end) == 0)
  }

  /** One more attempt, from draw `next` to draw `end`, extends the record
      of attempts: it costs one try plus its rejections. */
  lemma NextAttempt(alphabet: string, criteria: Criteria, nextInt: (nat, nat) -> nat,
                    tries: int, starts: seq<nat>, next: nat, tries': int, end: nat)
    requires |alphabet| > 0 && DrawsInRange(nextInt)
    requires AllFailed(alphabet, criteria, nextInt, tries, starts, next)
    requires next <= end
    requires tries' == tries + 1 + Rejections(nextInt, |alphabet|, criteria.maxRepeat, next, end)
    ensures Attempts(alphabet, criteria, nextInt, tries', starts + [next], end)
  {
    if starts != [] {
      ExtendFailed(alphabet, criteria, nextInt, starts, next);
    }
    ExtendTotal(|alphabet|, criteria.maxRepeat, nextInt, starts, next, end);
  }

  /** Appending the next start keeps the list sorted, and its rejections
      are the earlier ones plus those of the new attempt. */
  lemma ExtendTotal(n: nat, maxRepeat: int, nextInt: (nat, nat) -> nat, starts: seq<nat>, next: nat, end: nat)
    requires Sorted(starts, next) && next <= end
    ensures Sorted(starts + [next], end)
    ensures TotalRejections(n, maxRepeat, nextInt, starts + [next], end) ==
      TotalRejections(n, maxRepeat, nextInt, starts, next) + Rejections(nextInt, n, maxRepeat, next, end)
  {
    assert (starts + [next])[..|starts|] == starts;
  }

  /** When the attempt that ended at `next` failed too, so did every
      attempt of the longer list. */
  lemma ExtendFailed(alphabet: string, criteria: Criteria, nextInt: (nat, nat) -> nat, starts: seq<nat>, next: nat)
    requires |alphabet| > 0 && DrawsInRange(nextInt)
    requires starts != [] && Sorted(starts, next)
    requires EarlierFailed(alphabet, criteria, nextInt, starts[..|starts| - 1], starts[|starts| - 1])
    requires Failed(alphabet, criteria, nextInt, starts[|starts| - 1], next)
    ensures Sorted((starts + [next])[..|starts|], next)
    ensures EarlierFailed(alphabet, criteria, nextInt, (starts + [next])[..|starts|], next)
  {
    assert (starts + [next])[..|starts|] == starts;
  }

  /** The loop's exit test: trim the candidate, then run every validator. */
  method Validate(candidate: string, criteria: Criteria) returns (generated: string, ok: bool)
    ensures generated == Trim(candidate)
    ensures ok <==> Acceptable(generated, criteria)
  {
    generated := Trim(candidate);
    var upperOk := HasMinRequired(UpperChars, generated, criteria.minUpper);
    var lowerOk := HasMinRequired(LowerChars, generated, criteria.minLower);
    var digitOk := HasMinRequired(DigitChars, generated, criteria.minDigit);
    var specialOk := HasMinRequired(SpecialChars, generated, criteria.minSpecial);
    var repeatOk := HasMaxRepeat(criteria.maxRepeat, generated);
    ok := criteria.length == |generated| && upperOk && lowerOk && digitOk && specialOk && repeatOk;
  }

  /** The most draws `tries` tries can take: a candidate's worth of
      accepted draws plus one rejected draw, per try. */
  function DrawCap(length: nat, tries: int): int
    decreases tries
  {
    if tries <= 0 then 0 else DrawCap(length, tries - 1) + length + 1
  }

  /** In closed form, the cap is length + 1 draws per try. */
  lemma {:induction false} DrawCapValue(length: nat, tries: nat)
    ensures DrawCap(length, tries) == (length + 1) * tries
    decreases tries
  {
    if tries > 0 {
      DrawCapValue(length, tries - 1);
    }
  }

  /** Draws stay within DrawCap across an attempt that spends at least one
      try: at most `length` accepted draws, and one per further try. */
  lemma {:induction false} DrawBudget(length: nat, t: int, t': int, d: int, d': int)
    requires 0 <= t < t'
    requires d <= DrawCap(length, t)
    requires d' <= d + length + (t' - t - 1)
    ensures d' <= DrawCap(length, t')
    decreases t' - t
  {
    if t' - t > 1 {
      DrawBudget(length, t, t' - 1, d, d' - 1 - length);
    }
  }

  /** More tries never lower the cap. */
  lemma {:induction false} DrawCapMonotone(length: nat, t: int, t': int)
    requires t <= t'
    ensures DrawCap(length, t) <= DrawCap(length, t')
    decreases t' - t
  {
    if t < t' {
      DrawCapMonotone(length, t, t' - 1);
    }
  }

  /** doMain after option parsing: select the alphabet, reject a length
      below the floor before any draw, then generate. The ghost `tries` and
      `starts` are the try counter and the start draws of the attempts. */
  method DoMain(selector: string, criteria: Criteria, nextInt: (nat, nat) -> nat)
    returns (outcome: Outcome, draws: nat, ghost tries: int, ghost starts: seq<nat>)
    requires DrawsInRange(nextInt)
    ensures outcome.LengthTooShort? <==> criteria.length < LowestLength
    ensures outcome.LengthTooShort? ==> draws == 0 && tries == 0 && starts == []
    ensures !outcome.LengthTooShort? ==> RunOf(AlphabetFor(selector), criteria, nextInt, outcome, tries, starts, draws)
    ensures !outcome.LengthTooShort? ==> draws <= DrawCap(criteria.length, MaxTries + 1)
    ensures outcome.Password? ==> |outcome.value| == criteria.length >= LowestLength
    ensures outcome.Password? ==> Trimmed(outcome.value)
    ensures outcome.Password? ==> Acceptable(outcome.value, criteria)
    ensures outcome.Password? ==> DrawnFrom(outcome.value, AlphabetFor(selector))
    ensures criteria.maxRepeat <= 0 ==> !outcome.Password?
    ensures criteria.minUpper + criteria.minLower + criteria.minDigit + criteria.minSpecial > criteria.length
      ==> !outcome.Password?
    ensures outcome.Password? && NamesAClass(selector) ==>
      forall cls :: Tag(cls) !in selector ==> criteria.Min(cls) <= 0
  {
    var alphabet := SelectAlphabet(selector);
    if criteria.length < LowestLength {
      return LengthTooShort, 0, 0, [];
    }
    outcome, tries, draws, starts := Generate(alphabet, criteria, nextInt);
    if outcome.Password? {
      if criteria.minUpper + criteria.minLower + criteria.minDigit + criteria.minSpecial > criteria.length {
        MinimaBeyondLength(outcome.value, criteria);
      }
      if NamesAClass(selector) {
        UnnamedClassMinimum(selector, criteria, outcome.value);
      }
    }
    DrawCapMonotone(criteria.length, tries, MaxTries + 1);
  }
}
