/** The checks a finished candidate must pass (PasswordGenMain.java,
    lines 169-194) and the trim applied to it first (line 158). */
module Validators {

  /** Number of occurrences of `c` in `s`. */
  function Count(c: char, s: string): (r: nat)
    ensures r <= |s|
  {
    if s == [] then 0
    else Count(c, s[..|s| - 1]) + (if s[|s| - 1] == c then 1 else 0)
  }

  /** A character is counted zero times exactly when it does not occur. */
  lemma {:induction false} CountZeroIff(c: char, s: string)
    ensures Count(c, s) == 0 <==> c !in s
  {
    if s != [] {
      var init := s[..|s| - 1];
      CountZeroIff(c, init);
      assert s == init + [s[|s| - 1]];
    }
  }

  /** Number of positions of `s` whose character occurs in `charstr`. */
  function CountIn(charstr: string, s: string): (r: nat)
    ensures r <= |s|
  {
    if s == [] then 0
    else CountIn(charstr, s[..|s| - 1]) + (if s[|s| - 1] in charstr then 1 else 0)
  }

  /** CountIn reaches |s| exactly when every character is in `charstr`, and
      is zero exactly when none is. */
  lemma {:induction false} CountInBounds(charstr: string, s: string)
    ensures CountIn(charstr, s) == |s| <==> forall i :: 0 <= i < |s| ==> s[i] in charstr
    ensures CountIn(charstr, s) == 0 <==> forall i :: 0 <= i < |s| ==> s[i] !in charstr
  {
    if s != [] {
      var init := s[..|s| - 1];
      CountInBounds(charstr, init);
      assert forall i :: 0 <= i < |init| ==> init[i] == s[i];
    }
  }

  /** Every character of `s` occurs at most `maxRepeat` times in `s`. */
  predicate MaxRepeatOk(maxRepeat: int, s: string) {
    forall i {:trigger Count(s[i], s)} :: 0 <= i < |s| ==> Count(s[i], s) <= maxRepeat
  }

  /** String.indexOf for one character: the first index of `c`, or -1. */
  method IndexOf(s: string, c: char) returns (r: int)
    ensures -1 <= r < |s|
    ensures r == -1 <==> c !in s
    ensures r >= 0 ==> s[r] == c && c !in s[..r]
  {
    r := 0;
    while r < |s|
      invariant 0 <= r <= |s|
      invariant c !in s[..r]
    {
      if s[r] == c {
        return;
      }
      assert s[..r + 1] == s[..r] + [s[r]];
      r := r + 1;
    }
    assert s[..r] == s;
    r := -1;
  }

  /** hasMinRequired: at least `minRequired` characters of `genstr` occur
      in `charstr`. */
  method HasMinRequired(charstr: string, genstr: string, minRequired: int) returns (b: bool)
    ensures b <==> CountIn(charstr, genstr) >= minRequired
  {
    var count := 0;
    for i := 0 to |genstr|
      invariant count == CountIn(charstr, genstr[..i])
    {
      var c := genstr[i];
      var at := IndexOf(charstr, c);
      if at >= 0 {
        count := count + 1;
      }
      assert genstr[..i + 1][..i] == genstr[..i];
    }
    assert genstr[..|genstr|] == genstr;
    b := count >= minRequired;
  }

  /** hasMaxRepeat: no character of `generated` occurs more than
      `maxRepeat` times. */
  method HasMaxRepeat(maxRepeat: int, generated: string) returns (b: bool)
    ensures b <==> MaxRepeatOk(maxRepeat, generated)
  {
    for i := 0 to |generated|
      invariant forall k :: 0 <= k < i ==> Count(generated[k], generated) <= maxRepeat
    {
      var rc := generated[i];
      var repeat := 0;
      for j := 0 to |generated|
        invariant repeat == Count(rc, generated[..j])
      {
        if rc == generated[j] {
          repeat := repeat + 1;
        }
        assert generated[..j + 1][..j] == generated[..j];
      }
      assert generated[..|generated|] == generated;
      assert repeat == Count(generated[i], generated);
      if repeat > maxRepeat {
        return false;
      }
    }
    return true;
  }

  /** Counting distributes over concatenation. */
  lemma {:induction false} CountAppend(c: char, a: string, b: string)
    ensures Count(c, a + b) == Count(c, a) + Count(c, b)
  {
    if b != [] {
      var b' := b[..|b| - 1];
      assert (a + b)[..|a + b| - 1] == a + b';
      CountAppend(c, a, b');
    } else {
      assert a + b == a;
    }
  }

  /** A slice holds no more occurrences of a character than the whole. */
  lemma CountSlice(c: char, s: string, lo: nat, hi: nat)
    requires lo <= hi <= |s|
    ensures Count(c, s[lo..hi]) <= Count(c, s)
  {
    assert s == s[..lo] + s[lo..hi] + s[hi..];
    CountAppend(c, s[..lo] + s[lo..hi], s[hi..]);
    CountAppend(c, s[..lo], s[lo..hi]);
  }

  /** The repeat bound carries over to every slice. */
  lemma MaxRepeatOkSlice(maxRepeat: int, s: string, lo: nat, hi: nat)
    requires lo <= hi <= |s|
    requires MaxRepeatOk(maxRepeat, s)
    ensures MaxRepeatOk(maxRepeat, s[lo..hi])
  {
    var t := s[lo..hi];
    forall i | 0 <= i < |t| ensures Count(t[i], t) <= maxRepeat {
      CountSlice(t[i], s, lo, hi);
      assert t[i] == s[lo + i];
    }
  }

  /** The repeat bound stated per character rather than per position. */
  lemma MaxRepeatOkPerChar(maxRepeat: int, s: string)
    ensures MaxRepeatOk(maxRepeat, s) <==> forall c :: c in s ==> Count(c, s) <= maxRepeat
  {
    if MaxRepeatOk(maxRepeat, s) {
      forall c | c in s ensures Count(c, s) <= maxRepeat {
        var i :| 0 <= i < |s| && s[i] == c;
      }
    } else {
      var i :| 0 <= i < |s| && Count(s[i], s) > maxRepeat;
      assert s[i] in s;
    }
  }

  /** Neither end of `s` is at or below U+0020. */
  predicate Trimmed(s: string) {
    s == [] || (s[0] > ' ' && s[|s| - 1] > ' ')
  }

  /** String.trim, first half: drop leading characters at or below U+0020. */
  function TrimLeading(s: string): (r: string)
    ensures |r| <= |s| && r == s[|s| - |r|..]
    ensures r != [] ==> r[0] > ' '
  {
    if s != [] && s[0] <= ' ' then TrimLeading(s[1..]) else s
  }

  /** String.trim, second half: drop trailing characters at or below U+0020. */
  function TrimTrailing(s: string): (r: string)
    ensures |r| <= |s| && r == s[..|r|]
    ensures r != [] ==> r[|r| - 1] > ' '
  {
    if s != [] && s[|s| - 1] <= ' ' then TrimTrailing(s[..|s| - 1]) else s
  }

  /** StringUtils.trimToEmpty of a non-null string: String.trim. */
  function Trim(s: string): (r: string)
    ensures |r| <= |s|
    ensures Trimmed(r)
  {
    var lead := TrimLeading(s);
    var r := TrimTrailing(lead);
    assert r != [] ==> r[0] == lead[0];
    r
  }

  /** Only characters at or below U+0020 are dropped from the front. */
  lemma {:induction false} TrimLeadingDropsBlanks(s: string)
    ensures forall i :: 0 <= i < |s| - |TrimLeading(s)| ==> s[i] <= ' '
  {
    if s != [] && s[0] <= ' ' {
      TrimLeadingDropsBlanks(s[1..]);
      forall i | 0 < i < |s| - |TrimLeading(s)| ensures s[i] <= ' ' {
        assert s[i] == s[1..][i - 1];
      }
    }
  }

  /** Only characters at or below U+0020 are dropped from the back. */
  lemma {:induction false} TrimTrailingDropsBlanks(s: string)
    ensures forall i :: |TrimTrailing(s)| <= i < |s| ==> s[i] <= ' '
  {
    if s != [] && s[|s| - 1] <= ' ' {
      TrimTrailingDropsBlanks(s[..|s| - 1]);
      forall i | |TrimTrailing(s)| <= i < |s| - 1 ensures s[i] <= ' ' {
        assert s[i] == s[..|s| - 1][i];
      }
    }
  }

  /** Index in `s` of the first character Trim keeps. */
  function TrimStart(s: string): nat {
    |s| - |TrimLeading(s)|
  }

  /** The trimmed string is a slice of the original, starting at TrimStart. */
  lemma TrimIsSlice(s: string)
    ensures TrimStart(s) + |Trim(s)| <= |s|
    ensures Trim(s) == s[TrimStart(s)..TrimStart(s) + |Trim(s)|]
  {
    var lead := TrimLeading(s);
    var r := TrimTrailing(lead);
    PrefixOfSuffix(s, TrimStart(s), |r|);
  }

  lemma PrefixOfSuffix(s: string, k: nat, m: nat)
    requires k + m <= |s|
    ensures s[k..][..m] == s[k..k + m]
  {
  }

  /** Everything outside that slice is at or below U+0020. */
  lemma TrimDropsOnlyBlanks(s: string)
    ensures forall i :: 0 <= i < TrimStart(s) ==> s[i] <= ' '
    ensures forall i :: TrimStart(s) + |Trim(s)| <= i < |s| ==> s[i] <= ' '
  {
    var lead := TrimLeading(s);
    var k := TrimStart(s);
    TrimLeadingDropsBlanks(s);
    TrimTrailingDropsBlanks(lead);
    forall i | k + |Trim(s)| <= i < |s| ensures s[i] <= ' ' {
      assert lead == s[k..];
      assert s[i] == lead[i - k];
    }
  }

  /** Trimming changes a string exactly when one of its ends is at or below
      U+0020, and a changed string is shorter. */
  lemma TrimUnchangedIff(s: string)
    ensures Trim(s) == s <==> Trimmed(s)
    ensures Trim(s) != s ==> |Trim(s)| < |s|
  {
    if Trimmed(s) && s != [] {
      assert TrimLeading(s) == s;
      assert TrimTrailing(s) == s;
    }
    TrimIsSlice(s);
    if |Trim(s)| == |s| {
      assert s[0..|s|] == s;
    }
  }

  /** A repeat-bounded string stays repeat-bounded once trimmed. */
  lemma TrimKeepsMaxRepeat(maxRepeat: int, s: string)
    requires MaxRepeatOk(maxRepeat, s)
    ensures MaxRepeatOk(maxRepeat, Trim(s))
  {
    var t := Trim(s);
    var k := TrimStart(s);
    TrimIsSlice(s);
    MaxRepeatOkSlice(maxRepeat, s, k, k + |t|);
    assert MaxRepeatOk(maxRepeat, s[k..k + |t|]);
    assert t == s[k..k + |t|];
  }
}
