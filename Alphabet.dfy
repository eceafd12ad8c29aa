/** Building the alphabet from the class-selector string
    (PasswordGenMain.java, lines 105-121). */
module Alphabet {
  import opened CharClasses

  /** The order in which the selector path appends classes. */
  const SelectorOrder: seq<CharClass> := [Upper, Lower, Digit, Special]

  /** Position of a class in SelectorOrder. */
  function Rank(cls: CharClass): nat {
    match cls
    case Upper => 0
    case Lower => 1
    case Digit => 2
    case Special => 3
  }

  predicate StrictlyRanked(classes: seq<CharClass>) {
    forall i, j :: 0 <= i < j < |classes| ==> Rank(classes[i]) < Rank(classes[j])
  }

  /** The classes of `order` whose tag letter occurs in the selector, kept
      in the order of `order`. */
  function ChosenFrom(order: seq<CharClass>, selector: string): (r: seq<CharClass>)
    ensures forall cls :: cls in r <==> cls in order && Tag(cls) in selector
    ensures r == [] <==> forall cls :: cls in order ==> Tag(cls) !in selector
  {
    if order == [] then []
    else
      var last := order[|order| - 1];
      var init := ChosenFrom(order[..|order| - 1], selector);
      if Tag(last) in selector then init + [last] else init
  }

  /** Choosing keeps the order of the classes it chooses from. */
  lemma {:induction false} ChosenFromRanked(order: seq<CharClass>, selector: string)
    requires StrictlyRanked(order)
    ensures StrictlyRanked(ChosenFrom(order, selector))
  {
    if order != [] {
      var last := order[|order| - 1];
      var init := order[..|order| - 1];
      var chosen := ChosenFrom(init, selector);
      ChosenFromRanked(init, selector);
      if Tag(last) in selector {
        var r := chosen + [last];
        forall i, j | 0 <= i < j < |r| ensures Rank(r[i]) < Rank(r[j]) {
          if j == |chosen| {
            assert r[i] == chosen[i] && r[i] in chosen;
            var k :| 0 <= k < |init| && init[k] == r[i];
            assert order[k] == init[k];
          } else {
            assert r[i] == chosen[i] && r[j] == chosen[j];
          }
        }
      }
    }
  }

  /** True when the selector names at least one class. */
  predicate NamesAClass(selector: string) {
    'A' in selector || 'a' in selector || 'D' in selector || 'S' in selector
  }

  /** The classes the selector asks for, in selector order. */
  function Chosen(selector: string): (r: seq<CharClass>)
    ensures forall cls :: cls in r <==> Tag(cls) in selector
  {
    assert forall cls :: SelectorOrder[Rank(cls)] == cls;
    ChosenFrom(SelectorOrder, selector)
  }

  /** The selector chooses nothing exactly when it names no class. */
  lemma ChosenEmpty(selector: string)
    ensures Chosen(selector) == [] <==> !NamesAClass(selector)
  {
    assert Upper in SelectorOrder && Lower in SelectorOrder && Digit in SelectorOrder && Special in SelectorOrder;
    assert NamesAClass(selector) <==>
      Tag(Upper) in selector || Tag(Lower) in selector || Tag(Digit) in selector || Tag(Special) in selector;
  }

  /** The reference strings of the given classes, one after the other. */
  function Concat(classes: seq<CharClass>): (r: string)
    ensures classes != [] ==> r != []
  {
    if classes == [] then ""
    else
      var last := classes[|classes| - 1];
      assert |Chars(last)| > 0 by { ClassCharsNonEmpty(last); }
      Concat(classes[..|classes| - 1]) + Chars(last)
  }

  /** A character is in the concatenation exactly when its class is one of
      the classes joined. */
  lemma {:induction false} ConcatMembership(classes: seq<CharClass>, c: char)
    ensures c in Concat(classes) <==> ClassOf(c).Some? && ClassOf(c).value in classes
  {
    if classes != [] {
      var last := classes[|classes| - 1];
      var init := classes[..|classes| - 1];
      ConcatMembership(init, c);
      assert classes == init + [last];
      assert c in Concat(classes) <==> c in Concat(init) || c in Chars(last);
    }
  }

  lemma ClassCharsNonEmpty(cls: CharClass)
    ensures |Chars(cls)| > 0
  {
    LetterAndDigitLayout();
    SpecialPositions();
  }

  /** The alphabet for a selector: the chosen classes concatenated, or the
      default alphabet when that is empty. */
  function AlphabetFor(selector: string): (r: string)
    ensures |r| > 0
    ensures !NamesAClass(selector) ==> r == DefaultChars
  {
    ChosenEmpty(selector);
    var chosen := Concat(Chosen(selector));
    if chosen == "" then DefaultChars else chosen
  }

  /** When the selector names a class, the alphabet is the named classes
      joined in the fixed order upper, lower, digit, special, whatever order
      the selector letters come in. */
  lemma AlphabetInSelectorOrder(selector: string)
    requires NamesAClass(selector)
    ensures AlphabetFor(selector) == Concat(Chosen(selector))
    ensures StrictlyRanked(Chosen(selector))
  {
    ChosenEmpty(selector);
    ChosenFromRanked(SelectorOrder, selector);
  }

  /** The selector path of the source: the named classes appended one
      after the other, in selector order. */
  method JoinSelected(selector: string) returns (alphabet: string)
    ensures alphabet == Concat(Chosen(selector))
  {
    alphabet := "";
    ghost var chosen: seq<CharClass> := [];
    alphabet := AppendIfNamed(alphabet, chosen, selector, Upper);
    chosen := chosen + Pick('A' in selector, Upper);
    alphabet := AppendIfNamed(alphabet, chosen, selector, Lower);
    chosen := chosen + Pick('a' in selector, Lower);
    alphabet := AppendIfNamed(alphabet, chosen, selector, Digit);
    chosen := chosen + Pick('D' in selector, Digit);
    alphabet := AppendIfNamed(alphabet, chosen, selector, Special);
    chosen := chosen + Pick('S' in selector, Special);
    ChosenUnfolds(selector);
  }

  /** One `if` of the selector path: append the class's characters when the
      selector holds its letter. */
  method AppendIfNamed(alphabet: string, ghost chosen: seq<CharClass>, selector: string, cls: CharClass)
    returns (extended: string)
    requires alphabet == Concat(chosen)
    ensures extended == Concat(chosen + Pick(Tag(cls) in selector, cls))
  {
    AppendPick(alphabet, chosen, Tag(cls) in selector, cls);
    extended := alphabet;
    if Tag(cls) in selector {
      extended := alphabet + Chars(cls);
    }
  }

  /** The alphabet of doMain: the selected classes, or the default alphabet
      when that leaves it empty. */
  method SelectAlphabet(selector: string) returns (alphabet: string)
    ensures alphabet == AlphabetFor(selector)
  {
    alphabet := JoinSelected(selector);
    AlphabetForUnfolds(selector, alphabet);
    if alphabet == "" {
      alphabet := DefaultChars;
    }
  }

  lemma AlphabetForUnfolds(selector: string, joined: string)
    requires joined == Concat(Chosen(selector))
    ensures AlphabetFor(selector) == if joined == "" then DefaultChars else joined
  {
  }

  /** The class, as a one-element sequence, when its letter was given. */
  function Pick(given: bool, cls: CharClass): seq<CharClass> {
    if given then [cls] else []
  }

  /** One step of SelectAlphabet: appending a class's characters when its
      letter was given keeps the alphabet equal to the concatenation of the
      classes picked so far. */
  lemma AppendPick(alphabet: string, classes: seq<CharClass>, given: bool, cls: CharClass)
    requires alphabet == Concat(classes)
    ensures (if given then alphabet + Chars(cls) else alphabet) == Concat(classes + Pick(given, cls))
  {
    if given {
      AppendClass(classes, cls);
    } else {
      assert classes + Pick(given, cls) == classes;
    }
  }

  lemma AppendClass(classes: seq<CharClass>, cls: CharClass)
    ensures Concat(classes + [cls]) == Concat(classes) + Chars(cls)
  {
    assert (classes + [cls])[..|classes|] == classes;
  }

  /** The classes chosen by a selector, written out tag by tag. */
  lemma ChosenUnfolds(selector: string)
    ensures Chosen(selector) ==
      [] + Pick('A' in selector, Upper) + Pick('a' in selector, Lower)
      + Pick('D' in selector, Digit) + Pick('S' in selector, Special)
  {
    var o4 := SelectorOrder;
    var o3 := [Upper, Lower, Digit];
    var o2 := [Upper, Lower];
    var o1 := [Upper];
    assert o4[..3] == o3 && o3[..2] == o2 && o2[..1] == o1 && o1[..0] == [];
    var c0: seq<CharClass> := [];
    assert ChosenFrom(o1[..0], selector) == c0;
    var c1 := ChosenFrom(o1, selector);
    assert c1 == c0 + Pick('A' in selector, Upper);
    var c2 := ChosenFrom(o2, selector);
    assert c2 == c1 + Pick('a' in selector, Lower);
    var c3 := ChosenFrom(o3, selector);
    assert c3 == c2 + Pick('D' in selector, Digit);
    assert Chosen(selector) == c3 + Pick('S' in selector, Special);
  }

  /** A character is in the alphabet exactly when it belongs to a class the
      selector names, or to any class when the selector names none. */
  lemma AlphabetMembership(selector: string, c: char)
    ensures c in AlphabetFor(selector) <==>
      ClassOf(c).Some? && (!NamesAClass(selector) || Tag(ClassOf(c).value) in selector)
  {
    ChosenEmpty(selector);
    if !NamesAClass(selector) {
      DefaultMembership(c);
    } else {
      assert AlphabetFor(selector) == Concat(Chosen(selector));
      ConcatMembership(Chosen(selector), c);
    }
  }

  /** Every class character is in the default alphabet, and nothing else. */
  lemma DefaultMembership(c: char)
    ensures c in DefaultChars <==> ClassOf(c).Some?
  {
    var u, d, l, s := UpperChars, DigitChars, LowerChars, SpecialChars;
    assert c in DefaultChars <==> c in u || c in d || c in l || c in s;
    assert c in Chars(Upper) <==> c in u;
  }

  /** When the selector names a class at all, each class is wholly in the
      alphabet if its letter is in the selector and wholly absent if not. */
  lemma ClassInclusion(selector: string, cls: CharClass, c: char)
    requires NamesAClass(selector)
    requires c in Chars(cls)
    ensures c in AlphabetFor(selector) <==> Tag(cls) in selector
  {
    AlphabetMembership(selector, c);
  }

  /** The concatenation of distinct classes lists no character twice. */
  lemma {:induction false} ConcatDistinct(classes: seq<CharClass>)
    requires StrictlyRanked(classes)
    ensures Distinct(Concat(classes))
  {
    if classes != [] {
      var last := classes[|classes| - 1];
      var init := classes[..|classes| - 1];
      ConcatDistinct(init);
      ClassCharsDistinct(last);
      forall c | c in Concat(init) ensures c !in Chars(last) {
        ConcatMembership(init, c);
        var k :| 0 <= k < |init| && init[k] == ClassOf(c).value;
      }
      DistinctAppend(Concat(init), Chars(last));
    }
  }

  /** No alphabet lists a character twice, so a character's alphabet index
      is unique. */
  lemma AlphabetDistinct(selector: string)
    ensures Distinct(AlphabetFor(selector))
  {
    ChosenEmpty(selector);
    if NamesAClass(selector) {
      ChosenFromRanked(SelectorOrder, selector);
      ConcatDistinct(Chosen(selector));
    } else {
      DefaultDistinct();
    }
  }

  lemma DefaultDistinct()
    ensures Distinct(DefaultChars)
  {
    ClassCharsDistinct(Upper);
    ClassCharsDistinct(Digit);
    ClassCharsDistinct(Lower);
    ClassCharsDistinct(Special);
    ClassesDisjoint(Upper, Digit);
    ClassesDisjoint(Upper, Lower);
    ClassesDisjoint(Upper, Special);
    ClassesDisjoint(Digit, Lower);
    ClassesDisjoint(Digit, Special);
    ClassesDisjoint(Lower, Special);
    DistinctJoin4(Chars(Upper), Chars(Digit), Chars(Lower), Chars(Special));
  }

  /** Four distinct, pairwise disjoint strings joined in order. */
  lemma DistinctJoin4(s1: string, s2: string, s3: string, s4: string)
    requires Distinct(s1) && Distinct(s2) && Distinct(s3) && Distinct(s4)
    requires forall c :: c in s1 ==> c !in s2 && c !in s3 && c !in s4
    requires forall c :: c in s2 ==> c !in s3 && c !in s4
    requires forall c :: c in s3 ==> c !in s4
    ensures Distinct(s1 + s2 + s3 + s4)
  {
    DistinctAppend(s1, s2);
    DistinctAppend(s1 + s2, s3);
    DistinctAppend(s1 + s2 + s3, s4);
  }

  /** The alphabet of a selector naming no class (the default alphabet)
      holds the same characters as that of a selector naming all four. */
  lemma DefaultSameChars(none: string, all: string, c: char)
    requires !NamesAClass(none)
    requires 'A' in all && 'a' in all && 'D' in all && 'S' in all
    ensures c in AlphabetFor(none) <==> c in AlphabetFor(all)
  {
    AlphabetMembership(none, c);
    AlphabetMembership(all, c);
  }

  /** ... but in another order: the 27th character of the default alphabet
      is a digit, that of the alphabet naming all four classes a lower-case
      letter. */
  lemma DefaultOrderDiffers(none: string, all: string)
    requires !NamesAClass(none)
    requires 'A' in all && 'a' in all && 'D' in all && 'S' in all
    ensures |AlphabetFor(none)| > 26 && AlphabetFor(none)[26] == '0'
    ensures |AlphabetFor(all)| > 26 && AlphabetFor(all)[26] == 'a'
  {
    DefaultDigitAt26();
    AllClassesLowerAt26(all);
  }

  lemma DefaultDigitAt26()
    ensures |DefaultChars| > 26 && DefaultChars[26] == '0'
  {
    LetterAndDigitLayout();
    var ud := UpperChars + DigitChars;
    assert ud[26] == '0';
    assert DefaultChars == ud + LowerChars + SpecialChars;
  }

  lemma AllClassesLowerAt26(all: string)
    requires 'A' in all && 'a' in all && 'D' in all && 'S' in all
    ensures |AlphabetFor(all)| > 26 && AlphabetFor(all)[26] == 'a'
  {
    ChosenUnfolds(all);
    var classes: seq<CharClass> := [Upper, Lower, Digit, Special];
    assert Chosen(all) == classes;
    var upperLower := UpperLowerPrefix();
    assert classes[..3][..2] == [Upper, Lower];
    var ul := Concat(classes[..3][..2]);
    assert ul == upperLower;
    var uld := Concat(classes[..3]);
    assert uld == ul + Chars(Digit);
    assert Concat(classes) == uld + Chars(Special);
  }

  lemma UpperLowerPrefix() returns (upperLower: string)
    ensures upperLower == Concat([Upper, Lower]) && |upperLower| >= 27 && upperLower[26] == 'a'
  {
    LetterAndDigitLayout();
    assert [Upper, Lower][..1] == [Upper] && [Upper][..0] == [];
    upperLower := Concat([Upper, Lower]);
    assert upperLower == UpperChars + LowerChars;
  }
}
