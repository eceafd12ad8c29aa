# Password generator core in Dafny

This project models the generation core of `PasswordGenMain`. That is a
command-line tool that prints one random password meeting a set of criteria:
- a target length;
- a minimum number of upper-case letters, lower-case letters, digits and
  special characters;
- a cap on how often any single character may occur.

The model follows `doMain` from the point where its options are known. It
covers:

- **Character classes** (module `CharClasses`). The four class strings
  UPPER, LOWER, DIGIT and SPECIAL, and DEFAULT_CHARS. The letter and digit
  classes are built as code-point ranges and SPECIAL as a 33-entry table.
  Lemmas show that each one equals the source literal character for
  character. Further lemmas show that:
  - the classes are pairwise disjoint;
  - no class string repeats a character;
  - the space is the only class character that a trim removes.
- **Alphabet selection** (module `Alphabet`). `SelectAlphabet` performs the
  four conditional `+=` appends and the fallback to DEFAULT_CHARS. It is
  proved equal to the specification function `AlphabetFor`. Lemmas about
  `AlphabetFor` give:
  - the iff between each selector letter and its class;
  - the fixed order upper, lower, digit, special;
  - that the alphabet is never empty;
  - that it has no repeated character.
- **Validators** (module `Validators`).
  - `HasMinRequired` and `HasMaxRepeat` are the source's counting loops.
    They are proved against `CountIn` and `MaxRepeatOk`.
  - `Trim` models the trim of the candidate: it strips characters at or
    below U+0020 from both ends.
- **Draws** (module `Draws`). What one pass of the inner loop does with a
  run of random draws, written as functions of the random source alone:
  - `Hits` is the value of a `repeats` counter;
  - `Rejected` says which draws push their counter past `maxRepeat`;
  - `Rejections` counts those draws;
  - `Accepted` lists the characters the pass keeps, in draw order.

  Lemmas show that a pass over a repeat-free alphabet never keeps a
  character more than `maxRepeat` times, and that with `maxRepeat <= 0` it
  keeps nothing.
- **Generation** (module `Generator`).
  - `FillCandidate` is the inner `for` loop. It fills a `char` array from
    random alphabet indices, increments a per-index counter array, and redraws
    a slot (and spends a try) when a counter passes `maxRepeat`. Its result
    and its try count are stated exactly in terms of the `Draws` functions.
  - `Attempt` is one pass of the `do … while` body, from the budget check
    to the loop condition.
  - `Generate` is the whole `do … while`, with the shared `tries` budget
    of 10,000.
  - `DoMain` adds the alphabet selection and the length floor of 6.

  The ghost predicate `RunOf` says what a finished run did. Attempt p
  began with draw `starts[p]`. Every attempt but the last filled a
  candidate that failed the loop condition. `tries` is one per attempt plus
  one per rejected draw. The last attempt either produced the password, or
  ended at the budget: it gave up on the rejection that took `tries` to
  10,000, or it failed the loop condition with `tries` at 10,000.
  `Generate` and `DoMain` return this trace as ghost outputs and ensure
  `RunOf`. So `Exhausted` is only returned after that much work was done.

Randomness is a parameter. `nextInt(k, bound)` is the value that the k-th
call of `Random.nextInt(bound)` returns in one run. Only its range is known
(`DrawsInRange`), so every guarantee holds for every sequence of draws.
Failures are values of the `Outcome` datatype:
- `LengthTooShort` stands for the `ParseException` of the length floor;
- `Exhausted` stands for the `RuntimeException` after the retry budget.

Facts about the constants and the selection:
- SPECIAL (line 52) has 33 characters. They are exactly the printable
  ASCII characters that are neither letters nor digits, the space included.
- DEFAULT_CHARS (line 53) is UPPER + DIGIT + LOWER + SPECIAL. The selector
  path appends in the order UPPER, LOWER, DIGIT, SPECIAL.
  `Alphabet.DefaultSameChars` shows that the two alphabets hold the same
  characters. `Alphabet.DefaultOrderDiffers` shows that they are different
  sequences.
- Selecting several classes never duplicates a character, because the classes
  are disjoint (`Alphabet.AlphabetDistinct`).

On the failure path the try counter can reach 10,001. This happens when the
outer attempt has already taken it to 10,000 and the inner loop then rejects
a draw. Neither exception reports the counter: both messages (lines 140 and
154) name the constant `maxTries`. So the value 10,001 is never observable.
The model keeps it anyway: `Generate` bounds `tries` by `MaxTries + 1` on
exhaustion and by `MaxTries` on success.

## Model

All source cells refer to `src/main/java/org/carthageking/mc/mcck/passwordgen/PasswordGenMain.java`.

| member | source | states |
|---|---|---|
| CharClasses.RangesSpelledOut | src/main/java/org/carthageking/mc/mcck/passwordgen/PasswordGenMain.java:49-51 | LOWER, UPPER and DIGIT are exactly the source literals |
| CharClasses.SpecialSpelledOut | src/main/java/org/carthageking/mc/mcck/passwordgen/PasswordGenMain.java:52 | SPECIAL is exactly the source literal, including the backslash, the space and both quotes |
| CharClasses.LetterAndDigitLayout | src/main/java/org/carthageking/mc/mcck/passwordgen/PasswordGenMain.java:49-51 | the letter classes have 26 characters and DIGIT has 10; position i holds the i-th code point after 'A', 'a' or '0' |
| CharClasses.SpecialPositions | src/main/java/org/carthageking/mc/mcck/passwordgen/PasswordGenMain.java:52 | SPECIAL has 33 characters, and `SpecialPos` returns the index of each of them |
| CharClasses.SpecialDistinct | src/main/java/org/carthageking/mc/mcck/passwordgen/PasswordGenMain.java:52 | no character occurs twice in SPECIAL |
| CharClasses.SpecialMembership | src/main/java/org/carthageking/mc/mcck/passwordgen/PasswordGenMain.java:52 | a character is in SPECIAL iff it has a table position; every special character is printable ASCII and neither a letter nor a digit |
| CharClasses.UpperMembership | src/main/java/org/carthageking/mc/mcck/passwordgen/PasswordGenMain.java:50 | a character is in UPPER iff it lies between 'A' and 'Z' |
| CharClasses.LowerMembership | src/main/java/org/carthageking/mc/mcck/passwordgen/PasswordGenMain.java:49 | a character is in LOWER iff it lies between 'a' and 'z' |
| CharClasses.DigitMembership | src/main/java/org/carthageking/mc/mcck/passwordgen/PasswordGenMain.java:51 | a character is in DIGIT iff it lies between '0' and '9' |
| CharClasses.ClassOf | src/main/java/org/carthageking/mc/mcck/passwordgen/PasswordGenMain.java:49-52 | a character is in the string of class cls exactly when its class is `Some(cls)`, so it belongs to at most one class |
| CharClasses.ClassesDisjoint | src/main/java/org/carthageking/mc/mcck/passwordgen/PasswordGenMain.java:49-52 | two different class strings have no character in common |
| CharClasses.ClassCharsDistinct | src/main/java/org/carthageking/mc/mcck/passwordgen/PasswordGenMain.java:49-52 | no class string repeats a character |
| CharClasses.BlankClassChars | src/main/java/org/carthageking/mc/mcck/passwordgen/PasswordGenMain.java:52 | among class characters, only the space is at or below U+0020, and the space is special |
| Alphabet.ChosenFrom | src/main/java/org/carthageking/mc/mcck/passwordgen/PasswordGenMain.java:107-118 | the result holds exactly the classes of the given order whose tag letter is in the selector; it is empty iff no such class exists |
| Alphabet.ChosenFromRanked | src/main/java/org/carthageking/mc/mcck/passwordgen/PasswordGenMain.java:107-118 | choosing keeps the relative order of the classes |
| Alphabet.Chosen | src/main/java/org/carthageking/mc/mcck/passwordgen/PasswordGenMain.java:107-118 | a class is chosen iff its letter (A, a, D, S) occurs in the selector |
| Alphabet.ChosenEmpty | src/main/java/org/carthageking/mc/mcck/passwordgen/PasswordGenMain.java:107-119 | nothing is chosen iff the selector contains none of the four letters |
| Alphabet.Concat | src/main/java/org/carthageking/mc/mcck/passwordgen/PasswordGenMain.java:106-118 | joining at least one class gives a non-empty string |
| Alphabet.ConcatMembership | src/main/java/org/carthageking/mc/mcck/passwordgen/PasswordGenMain.java:106-118 | a character is in the joined string iff its class is one of those joined |
| Alphabet.ClassCharsNonEmpty | src/main/java/org/carthageking/mc/mcck/passwordgen/PasswordGenMain.java:49-52 | every class string is non-empty |
| Alphabet.AlphabetFor | src/main/java/org/carthageking/mc/mcck/passwordgen/PasswordGenMain.java:105-121 | the alphabet is never empty, and it is DEFAULT_CHARS when the selector names no class |
| Alphabet.AlphabetInSelectorOrder | src/main/java/org/carthageking/mc/mcck/passwordgen/PasswordGenMain.java:106-118 | when a class is named, the alphabet is the named classes joined in the order upper, lower, digit, special, whatever the order of the selector letters |
| Alphabet.JoinSelected | src/main/java/org/carthageking/mc/mcck/passwordgen/PasswordGenMain.java:106-118 | the four conditional appends produce the chosen classes joined in selector order |
| Alphabet.AppendIfNamed | src/main/java/org/carthageking/mc/mcck/passwordgen/PasswordGenMain.java:107-109 | one conditional append extends the joined string by the class exactly when its letter is in the selector |
| Alphabet.SelectAlphabet | src/main/java/org/carthageking/mc/mcck/passwordgen/PasswordGenMain.java:105-121 | the alphabet built step by step, with its fallback, equals `AlphabetFor(selector)` |
| Alphabet.AlphabetMembership | src/main/java/org/carthageking/mc/mcck/passwordgen/PasswordGenMain.java:105-121 | a character is in the alphabet iff it belongs to a class, and either no class is named or the selector names its class |
| Alphabet.DefaultMembership | src/main/java/org/carthageking/mc/mcck/passwordgen/PasswordGenMain.java:53 | DEFAULT_CHARS holds exactly the characters of the four classes |
| Alphabet.ClassInclusion | src/main/java/org/carthageking/mc/mcck/passwordgen/PasswordGenMain.java:107-118 | when a class is named, a class character is in the alphabet iff the selector contains that class's letter |
| Alphabet.ConcatDistinct | src/main/java/org/carthageking/mc/mcck/passwordgen/PasswordGenMain.java:106-118 | joining classes in strictly increasing order repeats no character |
| Alphabet.AlphabetDistinct | src/main/java/org/carthageking/mc/mcck/passwordgen/PasswordGenMain.java:105-121 | no alphabet repeats a character, so alphabet indices and characters correspond one to one |
| Alphabet.DefaultDistinct | src/main/java/org/carthageking/mc/mcck/passwordgen/PasswordGenMain.java:53 | DEFAULT_CHARS repeats no character |
| Alphabet.DefaultSameChars | src/main/java/org/carthageking/mc/mcck/passwordgen/PasswordGenMain.java:53 | naming no class and naming all four classes give the same characters |
| Alphabet.DefaultOrderDiffers | src/main/java/org/carthageking/mc/mcck/passwordgen/PasswordGenMain.java:53 | but the order differs: position 26 is '0' in the default alphabet and 'a' in the all-classes alphabet |
| Validators.Count | src/main/java/org/carthageking/mc/mcck/passwordgen/PasswordGenMain.java:172-177 | an occurrence count never exceeds the length of the string |
| Validators.CountZeroIff | src/main/java/org/carthageking/mc/mcck/passwordgen/PasswordGenMain.java:172-177 | a character's count is zero iff the character does not occur |
| Validators.CountAppend | src/main/java/org/carthageking/mc/mcck/passwordgen/PasswordGenMain.java:172-177 | the count over a concatenation is the sum of the counts over its parts |
| Validators.CountIn | src/main/java/org/carthageking/mc/mcck/passwordgen/PasswordGenMain.java:186-192 | the number of positions whose character is in `charstr` never exceeds the length |
| Validators.CountInBounds | src/main/java/org/carthageking/mc/mcck/passwordgen/PasswordGenMain.java:186-192 | that count equals the length iff every character is in `charstr`, and is zero iff none is |
| Validators.IndexOf | src/main/java/org/carthageking/mc/mcck/passwordgen/PasswordGenMain.java:189 | returns -1 iff the character is absent; otherwise it returns the first position holding it |
| Validators.HasMinRequired | src/main/java/org/carthageking/mc/mcck/passwordgen/PasswordGenMain.java:185-194 | returns true iff the number of positions whose character is in `charstr` is at least `minRequired` |
| Validators.HasMaxRepeat | src/main/java/org/carthageking/mc/mcck/passwordgen/PasswordGenMain.java:169-183 | returns true iff every position's character occurs at most `maxRepeat` times; it is true on the empty string |
| Validators.MaxRepeatOkPerChar | src/main/java/org/carthageking/mc/mcck/passwordgen/PasswordGenMain.java:169-183 | the per-position check is equivalent to a per-character one: every character that occurs has count at most `maxRepeat` |
| Validators.MaxRepeatOkSlice | src/main/java/org/carthageking/mc/mcck/passwordgen/PasswordGenMain.java:169-183 | every substring of a string that passes the repeat check passes it too |
| Validators.TrimLeading | src/main/java/org/carthageking/mc/mcck/passwordgen/PasswordGenMain.java:158 | the result is a suffix of the input, and it is empty or starts above U+0020 |
| Validators.TrimTrailing | src/main/java/org/carthageking/mc/mcck/passwordgen/PasswordGenMain.java:158 | the result is a prefix of the input, and it is empty or ends above U+0020 |
| Validators.Trim | src/main/java/org/carthageking/mc/mcck/passwordgen/PasswordGenMain.java:158 | the trimmed string is no longer than the input, and it is empty or starts and ends above U+0020 |
| Validators.TrimLeadingDropsBlanks | src/main/java/org/carthageking/mc/mcck/passwordgen/PasswordGenMain.java:158 | every character dropped at the front is at or below U+0020 |
| Validators.TrimTrailingDropsBlanks | src/main/java/org/carthageking/mc/mcck/passwordgen/PasswordGenMain.java:158 | every character dropped at the back is at or below U+0020 |
| Validators.TrimIsSlice | src/main/java/org/carthageking/mc/mcck/passwordgen/PasswordGenMain.java:158 | the trimmed string is a contiguous slice of the input |
| Validators.TrimDropsOnlyBlanks | src/main/java/org/carthageking/mc/mcck/passwordgen/PasswordGenMain.java:158 | everything outside that slice is at or below U+0020 |
| Validators.TrimUnchangedIff | src/main/java/org/carthageking/mc/mcck/passwordgen/PasswordGenMain.java:158 | the trim changes nothing iff neither end is at or below U+0020; a changed string is strictly shorter |
| Validators.TrimKeepsMaxRepeat | src/main/java/org/carthageking/mc/mcck/passwordgen/PasswordGenMain.java:158-164 | a candidate that passes the repeat check still passes it after the trim |
| Draws.Hits | src/main/java/org/carthageking/mc/mcck/passwordgen/PasswordGenMain.java:145-149 | the `repeats[idx]` counter of a pass: how many of its draws returned `idx`, never more than the number of draws |
| Draws.Rejections | src/main/java/org/carthageking/mc/mcck/passwordgen/PasswordGenMain.java:150-152 | the extra tries a pass spends: the number of its draws that pushed their counter past `maxRepeat`, never more than the number of draws |
| Draws.Accepted | src/main/java/org/carthageking/mc/mcck/passwordgen/PasswordGenMain.java:145-151 | the characters a pass keeps; their number plus the rejections is the number of draws |
| Draws.AcceptedDrawnFrom | src/main/java/org/carthageking/mc/mcck/passwordgen/PasswordGenMain.java:146-148 | every kept character is an alphabet character |
| Draws.AllRejected | src/main/java/org/carthageking/mc/mcck/passwordgen/PasswordGenMain.java:149-152 | with `maxRepeat <= 0` every draw is rejected: nothing is kept and every draw costs a try |
| Draws.KeptCapped | src/main/java/org/carthageking/mc/mcck/passwordgen/PasswordGenMain.java:149-151 | an index is kept no more often than drawn and, once kept, at most `maxRepeat` times, because the counter is never decremented on a rejection |
| Draws.CountAccepted | src/main/java/org/carthageking/mc/mcck/passwordgen/PasswordGenMain.java:145-151 | over a repeat-free alphabet, a character's count among the kept characters is the number of times its index was kept |
| Draws.AcceptedRespectsCap | src/main/java/org/carthageking/mc/mcck/passwordgen/PasswordGenMain.java:145-157 | so the kept characters of a repeat-free alphabet pass the repeat check |
| Generator.TrimDrawnFrom | src/main/java/org/carthageking/mc/mcck/passwordgen/PasswordGenMain.java:158 | trimming a string drawn from the alphabet leaves a string drawn from it |
| Generator.AcceptableMeetsMin | src/main/java/org/carthageking/mc/mcck/passwordgen/PasswordGenMain.java:160-163 | an accepted password meets the minimum of each class |
| Generator.ClassCountsWithinLength | src/main/java/org/carthageking/mc/mcck/passwordgen/PasswordGenMain.java:160-163 | the four class counts of a string add up to at most its length |
| Generator.MinimaBeyondLength | src/main/java/org/carthageking/mc/mcck/passwordgen/PasswordGenMain.java:159-164 | if the four minima add up to more than the length, no string passes the loop condition |
| Generator.UnnamedClassAbsent | src/main/java/org/carthageking/mc/mcck/passwordgen/PasswordGenMain.java:107-118 | when the selector names some classes, a string drawn from the alphabet has no character of the classes it omits |
| Generator.UnnamedClassMinimum | src/main/java/org/carthageking/mc/mcck/passwordgen/PasswordGenMain.java:159-164 | so such a string can be accepted only if every omitted class has a minimum of at most zero |
| Generator.BoundarySpaceRejected | src/main/java/org/carthageking/mc/mcck/passwordgen/PasswordGenMain.java:158-159 | a full-length candidate that begins or ends with a space becomes shorter under the trim and fails the length test |
| Generator.TrimOnlyStripsSpace | src/main/java/org/carthageking/mc/mcck/passwordgen/PasswordGenMain.java:158 | for a candidate drawn from the alphabet, the trim changes it iff it begins or ends with the space |
| Generator.TrimmedIffNoBoundarySpace | src/main/java/org/carthageking/mc/mcck/passwordgen/PasswordGenMain.java:158 | a candidate drawn from the alphabet has trimmed ends iff neither end is the space |
| Generator.AlphabetBlank | src/main/java/org/carthageking/mc/mcck/passwordgen/PasswordGenMain.java:52 | the only alphabet character at or below U+0020 is the space |
| Generator.FillCandidate | src/main/java/org/carthageking/mc/mcck/passwordgen/PasswordGenMain.java:142-157 | the candidate is `Accepted` over exactly the draws made, and `tries` grows by exactly `Rejections`. When it completes, the last draw placed the `length`-th character; the candidate is drawn from the alphabet and, for a repeat-free alphabet, already passes the repeat check. When it gives up, the last draw was a rejection that took `tries` to 10,000 (10,001 if it started there). With `maxRepeat <= 0` and a positive length it always gives up, one try per draw. |
| Generator.Validate | src/main/java/org/carthageking/mc/mcck/passwordgen/PasswordGenMain.java:158-164 | the loop condition: trims the candidate, and accepts iff the trimmed string has the target length, meets all four minima and passes the repeat check |
| Generator.EachEarlierFailed | src/main/java/org/carthageking/mc/mcck/passwordgen/PasswordGenMain.java:158-164 | in the recorded run, every attempt before the last filled a candidate, and that candidate failed the loop condition |
| Generator.BudgetSpent | src/main/java/org/carthageking/mc/mcck/passwordgen/PasswordGenMain.java:139-141 | the budget check at the top of the loop ends the run with `Exhausted` once every earlier attempt failed and `tries` is 10,000 |
| Generator.GaveUpRun | src/main/java/org/carthageking/mc/mcck/passwordgen/PasswordGenMain.java:150-155 | an attempt that stopped on the rejection that reached 10,000 ends the run with `Exhausted` |
| Generator.PasswordRun | src/main/java/org/carthageking/mc/mcck/passwordgen/PasswordGenMain.java:158-164 | an attempt whose trimmed candidate passes the loop condition ends the run with that password |
| Generator.Attempt | src/main/java/org/carthageking/mc/mcck/passwordgen/PasswordGenMain.java:139-164 | one pass of the loop body: either the run ends and `RunOf` holds, or one more failed attempt is recorded and `tries` grew |
| Generator.Generate | src/main/java/org/carthageking/mc/mcck/passwordgen/PasswordGenMain.java:134-164 | the run is `RunOf` the random source: the attempts, the failures of all but the last, and `tries` as attempts plus rejections. A returned password is acceptable, is drawn from the alphabet, and has trimmed ends, after at most 10,000 tries. Exhaustion happens with tries at 10,000 or 10,001. Total draws are at most `length + 1` per try. With `maxRepeat <= 0` and a positive length it always fails after exactly 10,000 tries and 9,999 draws. |
| Generator.RunOutcome | src/main/java/org/carthageking/mc/mcck/passwordgen/PasswordGenMain.java:134-164 | in any run: a password comes after 1 to 10,000 tries, is trimmed and is drawn from the alphabet; exhaustion comes at 10,000 or 10,001 tries |
| Generator.NothingKept | src/main/java/org/carthageking/mc/mcck/passwordgen/PasswordGenMain.java:139-155 | a run with `maxRepeat <= 0` and a positive length keeps no character: its only attempt ends with `Exhausted` at 10,000 tries after 9,999 draws |
| Generator.DoMain | src/main/java/org/carthageking/mc/mcck/passwordgen/PasswordGenMain.java:104-164 | length below 6 iff rejected, and then with no draw at all. Otherwise the run is `RunOf` the selected alphabet, with at most `(length + 1) * 10001` draws. A password has exactly the requested length, trimmed ends, only alphabet characters, all four minima and the repeat cap. There is never a password when `maxRepeat <= 0`, when the minima exceed the length, or when an omitted class has a positive minimum. |

## Left out

- `main`, `creatOptions` and `displayUsage` (lines 55-102) are left out. They are command-line parsing, help text, `System.exit` and standard-error output from a foreign library.
- Option parsing is left out (`Integer.parseInt`, the trims of option values, and the defaults of lines 45-47 and "AaDS" at line 105). The selector and the criteria are parsed inputs. The trim of the selector cannot change which of the letters A, a, D, S it contains, so it is not modelled.
- The distribution of `java.util.Random` is left out. Each draw is an arbitrary index in range, given by the `nextInt` parameter. Uniformity, and any probability of success, are not modelled.
- Printing the password (line 166) and the exception message texts are left out. The outcome is returned as a value of `Outcome`.
- Java `int` overflow is not modelled: criteria and counters are unbounded integers. `tries` itself never exceeds 10,001.
- Allocation failure is not modelled. A huge `length` would make `new char[length]` raise OutOfMemoryError.
- The letter and digit class strings are defined as code-point ranges, and SPECIAL as an indexed table. `CharClasses.RangesSpelledOut` and `CharClasses.SpecialSpelledOut` prove that these equal the source literals.
- The Java `char` is a UTF-16 code unit and the model's `char` a Unicode scalar value. They agree here, because every character involved is ASCII.
