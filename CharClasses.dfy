/** The four fixed character classes a password is drawn from, their
    reference strings, and the facts that they partition the characters
    they contain. */
module CharClasses {

  datatype Option<T> = None | Some(value: T)

  /** The `n` consecutive characters starting at `first`. */
  function CharRange(first: char, n: nat): (r: string)
    requires first as int + n <= 0xD800
    ensures |r| == n
    ensures forall i :: 0 <= i < n ==> r[i] as int == first as int + i
  {
    seq(n, i requires 0 <= i < n => (first as int + i) as char)
  }

  /** "abcdefghijklmnopqrstuvwxyz", written as the range it spells. */
  const LowerChars: string := CharRange('a', 26)
  /** "ABCDEFGHIJKLMNOPQRSTUVWXYZ". */
  const UpperChars: string := CharRange('A', 26)
  /** "0123456789". */
  const DigitChars: string := CharRange('0', 10)
  /** The special characters in source order: every printable ASCII
      character that is neither a letter nor a digit, the space included. */
  function SpecialCharAt(i: nat): char {
    match i
    case 0 => '`'
    case 1 => '~'
    case 2 => '!'
    case 3 => '@'
    case 4 => '#'
    case 5 => '$'
    case 6 => '%'
    case 7 => '^'
    case 8 => '&'
    case 9 => '*'
    case 10 => '('
    case 11 => ')'
    case 12 => '-'
    case 13 => '_'
    case 14 => '='
    case 15 => '+'
    case 16 => '\\'
    case 17 => ' '
    case 18 => '|'
    case 19 => ']'
    case 20 => '}'
    case 21 => '['
    case 22 => '{'
    case 23 => '\''
    case 24 => '\"'
    case 25 => ';'
    case 26 => ':'
    case 27 => '/'
    case 28 => '?'
    case 29 => '.'
    case 30 => '>'
    case 31 => ','
    case _ => '<'
  }

  /** The first `n` characters listed by SpecialCharAt. */
  function SpecialTable(n: nat): (r: string)
    ensures |r| == n
    ensures forall i :: 0 <= i < n ==> r[i] == SpecialCharAt(i)
  {
    seq(n, i requires 0 <= i < n => SpecialCharAt(i))
  }

  /** The 33 special characters. */
  const SpecialChars: string := SpecialTable(33)

  /** The alphabet used when the selector names no class. Its order
      (upper, digit, lower, special) differs from the order in which the
      selector path appends classes. */
  const DefaultChars: string := UpperChars + DigitChars + LowerChars + SpecialChars

  datatype CharClass = Upper | Lower | Digit | Special

  /** The reference string of a class. */
  function Chars(cls: CharClass): string {
    match cls
    case Upper => UpperChars
    case Lower => LowerChars
    case Digit => DigitChars
    case Special => SpecialChars
  }

  /** The selector letter that asks for a class. */
  function Tag(cls: CharClass): char {
    match cls
    case Upper => 'A'
    case Lower => 'a'
    case Digit => 'D'
    case Special => 'S'
  }

  /** No character occurs twice. */
  predicate Distinct(s: string) {
    forall i, j :: 0 <= i < j < |s| ==> s[i] != s[j]
  }

  predicate IsUpper(c: char) { 'A' <= c <= 'Z' }
  predicate IsLower(c: char) { 'a' <= c <= 'z' }
  predicate IsDigit(c: char) { '0' <= c <= '9' }

  /** The ranges are the literals they stand for. */
  lemma RangesSpelledOut()
    ensures LowerChars == "abcdefghijklmnopqrstuvwxyz"
    ensures UpperChars == "ABCDEFGHIJKLMNOPQRSTUVWXYZ"
    ensures DigitChars == "0123456789"
  {
  }

  /** The special class spelled out, character for character. */
  lemma SpecialSpelledOut()
    ensures SpecialChars == "`~!@#$%^&*()-_=+\\ |]}[{'\";:/?.>,<"
  {
  }

  lemma LetterAndDigitLayout()
    ensures |UpperChars| == 26 && |LowerChars| == 26 && |DigitChars| == 10
    ensures forall i :: 0 <= i < |UpperChars| ==> UpperChars[i] as int == 'A' as int + i
    ensures forall i :: 0 <= i < |LowerChars| ==> LowerChars[i] as int == 'a' as int + i
    ensures forall i :: 0 <= i < |DigitChars| ==> DigitChars[i] as int == '0' as int + i
  {
  }

  /** The index of a special character in SpecialChars, -1 for any other
      character. */
  function SpecialPos(c: char): int {
    match c
    case '`' => 0
    case '~' => 1
    case '!' => 2
    case '@' => 3
    case '#' => 4
    case '$' => 5
    case '%' => 6
    case '^' => 7
    case '&' => 8
    case '*' => 9
    case '(' => 10
    case ')' => 11
    case '-' => 12
    case '_' => 13
    case '=' => 14
    case '+' => 15
    case '\\' => 16
    case ' ' => 17
    case '|' => 18
    case ']' => 19
    case '}' => 20
    case '[' => 21
    case '{' => 22
    case '\'' => 23
    case '\"' => 24
    case ';' => 25
    case ':' => 26
    case '/' => 27
    case '?' => 28
    case '.' => 29
    case '>' => 30
    case ',' => 31
    case '<' => 32
    case _ => -1
  }

  lemma SpecialPositions()
    ensures |SpecialChars| == 33
    ensures forall i :: 0 <= i < |SpecialChars| ==> SpecialPos(SpecialChars[i]) == i
  {
  }

  lemma SpecialDistinct()
    ensures Distinct(SpecialChars)
  {
    SpecialPositions();
  }

  /** SpecialPos finds each character it maps to an index. */
  lemma SpecialAt(c: char)
    ensures SpecialPos(c) >= 0 ==>
      SpecialPos(c) < |SpecialChars| && SpecialChars[SpecialPos(c)] == c
  {
  }

  /** Every special character is printable ASCII and not alphanumeric. */
  lemma SpecialRange(c: char)
    ensures SpecialPos(c) >= 0 ==>
      ' ' <= c <= '~' && !IsUpper(c) && !IsLower(c) && !IsDigit(c)
  {
  }

  lemma SpecialMembership(c: char)
    ensures c in SpecialChars <==> SpecialPos(c) >= 0
    ensures c in SpecialChars ==> ' ' <= c <= '~' && !IsUpper(c) && !IsLower(c) && !IsDigit(c)
  {
    SpecialPositions();
    SpecialAt(c);
    SpecialRange(c);
  }

  lemma UpperMembership(c: char)
    ensures c in UpperChars <==> IsUpper(c)
  {
    LetterAndDigitLayout();
    if IsUpper(c) {
      assert UpperChars[c as int - 'A' as int] == c;
    }
  }

  lemma LowerMembership(c: char)
    ensures c in LowerChars <==> IsLower(c)
  {
    LetterAndDigitLayout();
    if IsLower(c) {
      assert LowerChars[c as int - 'a' as int] == c;
    }
  }

  lemma DigitMembership(c: char)
    ensures c in DigitChars <==> IsDigit(c)
  {
    LetterAndDigitLayout();
    if IsDigit(c) {
      assert DigitChars[c as int - '0' as int] == c;
    }
  }

  /** The class a character belongs to, if any; the classes are pairwise
      disjoint, so there is at most one. */
  function ClassOf(c: char): (r: Option<CharClass>)
    ensures forall cls :: c in Chars(cls) <==> r == Some(cls)
  {
    UpperMembership(c);
    LowerMembership(c);
    DigitMembership(c);
    SpecialMembership(c);
    if IsUpper(c) then Some(Upper)
    else if IsLower(c) then Some(Lower)
    else if IsDigit(c) then Some(Digit)
    else if SpecialPos(c) >= 0 then Some(Special)
    else None
  }

  /** No character belongs to two classes. */
  lemma ClassesDisjoint(c1: CharClass, c2: CharClass)
    requires c1 != c2
    ensures forall c :: c in Chars(c1) ==> c !in Chars(c2)
  {
    forall c | c in Chars(c1) ensures c !in Chars(c2) {
      assert ClassOf(c) == Some(c1);
    }
  }

  /** Each reference string lists its characters once. */
  lemma ClassCharsDistinct(cls: CharClass)
    ensures Distinct(Chars(cls))
  {
    LetterAndDigitLayout();
    SpecialDistinct();
  }

  /** Among class characters only the space is at or below U+0020, the
      characters String.trim strips; the space belongs to the special class. */
  lemma BlankClassChars(c: char)
    requires ClassOf(c).Some?
    ensures c <= ' ' <==> c == ' '
    ensures c == ' ' ==> ClassOf(c) == Some(Special)
  {
    SpecialMembership(c);
    SpecialMembership(' ');
    UpperMembership(c);
    LowerMembership(c);
    DigitMembership(c);
  }

  /** Joining two strings without repeats and with no character in common
      gives a string without repeats. */
  lemma DistinctAppend(a: string, b: string)
    requires Distinct(a) && Distinct(b)
    requires forall c :: c in a ==> c !in b
    ensures Distinct(a + b)
  {
    var ab := a + b;
    forall i, j | 0 <= i < j < |ab| ensures ab[i] != ab[j] {
      if j < |a| {
        assert ab[i] == a[i] && ab[j] == a[j];
      } else if i >= |a| {
        assert ab[i] == b[i - |a|] && ab[j] == b[j - |a|];
      } else {
        assert ab[i] == a[i] && ab[j] == b[j - |a|];
        assert a[i] in a;
      }
    }
  }
}
