/** The two text tests the explanation validator makes: word counts and substrings, case folded.
    Letters outside ASCII fold to themselves. */
module Wording {

  /** The characters `str.split` separates words at. */
  predicate IsSpace(c: char) {
    var n := c as int;
    || 0x9 <= n <= 0xD || 0x1C <= n <= 0x20 || n == 0x85 || n == 0xA0 || n == 0x1680
    || 0x2000 <= n <= 0x200A || n == 0x2028 || n == 0x2029 || n == 0x202F || n == 0x205F || n == 0x3000
  }

  function LowerChar(c: char): char {
    if 'A' <= c <= 'Z' then (c as int + 32) as char else c
  }

  /** ASCII part of `str.lower`. */
  function Lower(s: string): (r: string)
    ensures |r| == |s| && forall i :: 0 <= i < |s| ==> r[i] == LowerChar(s[i])
  {
    seq(|s|, i requires 0 <= i < |s| => LowerChar(s[i]))
  }

  lemma LowerConcat(a: string, b: string)
    ensures Lower(a + b) == Lower(a) + Lower(b)
  {
  }

  predicate At(text: string, i: nat, needle: string) {
    i + |needle| <= |text| && text[i..i + |needle|] == needle
  }

  /** `needle in text`. */
  predicate Contains(text: string, needle: string) {
    exists i :: 0 <= i <= |text| && At(text, i, needle)
  }

  /** Two texts with a space between them. */
  function Join(a: string, b: string): string {
    a + " " + b
  }

  /** Words begun in `s`, when the character before it is inside a word or not. */
  function WordsFrom(s: string, inside: bool): nat {
    if s == [] then 0
    else if IsSpace(s[0]) then WordsFrom(s[1..], false)
    else (if inside then 0 else 1) + WordsFrom(s[1..], true)
  }

  /** `len(text.split())`. */
  function Words(s: string): nat {
    WordsFrom(s, false)
  }

  predicate Blank(s: string) {
    forall i :: 0 <= i < |s| ==> IsSpace(s[i])
  }

  lemma {:induction false} WordsSplit(a: string, b: string, inside: bool)
    ensures WordsFrom(Join(a, b), inside) == WordsFrom(a, inside) + Words(b)
  {
    if a == [] {
      assert Join(a, b) == " " + b;
      assert (" " + b)[1..] == b;
    } else {
      assert Join(a, b)[1..] == Join(a[1..], b);
      WordsSplit(a[1..], b, !IsSpace(a[0]));
    }
  }

  lemma {:induction false} WordsOfText(s: string, i: nat, inside: bool)
    requires i < |s| && !IsSpace(s[i])
    ensures WordsFrom(s, inside) >= 1 || inside
  {
    if IsSpace(s[0]) {
      WordsOfText(s[1..], i - 1, false);
    }
  }

  /** Text that is not blank has a word. */
  lemma SomeWord(s: string)
    requires !Blank(s)
    ensures Words(s) >= 1
  {
    var i :| 0 <= i < |s| && !IsSpace(s[i]);
    WordsOfText(s, i, false);
  }

  lemma AtChars(text: string, i: nat, needle: string)
    requires At(text, i, needle)
    ensures forall q :: i <= q < i + |needle| ==> text[q] in needle
  {
    forall q | i <= q < i + |needle| ensures text[q] in needle {
      assert text[i..i + |needle|][q - i] == text[q];
    }
  }

  /** A needle without the separator lies on one side of it. */
  lemma SplitContains(a: string, c: char, b: string, needle: string)
    requires c !in needle && needle != ""
    ensures Contains(a + [c] + b, needle) ==> Contains(a, needle) || Contains(b, needle)
  {
    var text, n := a + [c] + b, |needle|;
    if Contains(text, needle) {
      var i :| 0 <= i <= |text| && At(text, i, needle);
      AtChars(text, i, needle);
      assert text[|a|] == c;
      if i + n <= |a| {
        assert a[i..i + n] == text[i..i + n];
        assert At(a, i, needle);
      } else {
        assert b[i - |a| - 1..i - |a| - 1 + n] == text[i..i + n];
        assert At(b, i - |a| - 1, needle);
      }
    }
  }

  lemma ContainsOnRight(a: string, b: string, needle: string)
    requires Contains(b, needle)
    ensures Contains(a + b, needle)
  {
    var i :| 0 <= i <= |b| && At(b, i, needle);
    assert (a + b)[|a| + i..|a| + i + |needle|] == b[i..i + |needle|];
    assert At(a + b, |a| + i, needle);
  }

  lemma ContainsOnLeft(a: string, b: string, needle: string)
    requires Contains(a, needle)
    ensures Contains(a + b, needle)
  {
    var i :| 0 <= i <= |a| && At(a, i, needle);
    assert (a + b)[i..i + |needle|] == a[i..i + |needle|];
    assert At(a + b, i, needle);
  }

  // ---------------------------------------------------------------- the template's summary

  const CAUSAL := "probable root cause"
  const CONFIRMED := "confirmed"

  /** The wording the validator accepts. */
  predicate CausalWording(summary: string) {
    Contains(Lower(summary), CAUSAL) && Words(summary) >= 8 && !Contains(Lower(summary), CONFIRMED)
  }

  /** "{cause} affecting {entity}." */
  function Effect(cause: string, entity: string): string {
    Join(cause, Join("affecting", entity + "."))
  }

  /** "The probable root cause is {cause} affecting {entity}." It starts and ends with printed
      characters, so stripping it changes nothing. */
  function Summary(cause: string, entity: string): string {
    Join("The", Join("probable", Join("root", Join("cause", Join("is", Effect(cause, entity))))))
  }

  lemma SummaryIsCausal(cause: string, entity: string)
    ensures Contains(Lower(Summary(cause, entity)), CAUSAL)
  {
    var rest := Join("is", Effect(cause, entity));
    assert Summary(cause, entity) == "The " + (CAUSAL + (" " + rest));
    LowerConcat("The ", CAUSAL + (" " + rest));
    LowerConcat(CAUSAL, " " + rest);
    assert Lower(CAUSAL) == CAUSAL;
    assert At(CAUSAL, 0, CAUSAL);
    ContainsOnLeft(CAUSAL, Lower(" " + rest), CAUSAL);
    ContainsOnRight(Lower("The "), CAUSAL + Lower(" " + rest), CAUSAL);
  }

  lemma PrintedWord(word: string)
    requires word != "" && !IsSpace(word[0])
    ensures Words(word) >= 1
  {
    assert !Blank(word);
    SomeWord(word);
  }

  lemma EffectWords(cause: string, entity: string)
    requires !Blank(cause)
    ensures Words(Effect(cause, entity)) >= 3
  {
    WordsSplit(cause, Join("affecting", entity + "."), false);
    WordsSplit("affecting", entity + ".", false);
    SomeWord(cause);
    PrintedWord("affecting");
    assert !IsSpace((entity + ".")[|entity|]);
    SomeWord(entity + ".");
  }

  lemma SummaryWords(cause: string, entity: string)
    requires !Blank(cause)
    ensures Words(Summary(cause, entity)) >= 8
  {
    var a := Effect(cause, entity);
    var b := Join("is", a);
    var c := Join("cause", b);
    var d := Join("root", c);
    EffectWords(cause, entity);
    WordsSplit("is", a, false);
    WordsSplit("cause", b, false);
    WordsSplit("root", c, false);
    WordsSplit("probable", d, false);
    WordsSplit("The", Join("probable", d), false);
    PrintedWord("is");
    PrintedWord("cause");
    PrintedWord("root");
    PrintedWord("probable");
    PrintedWord("The");
  }

  /** A word shorter than the needle, or of its length but different, does not contain it. */
  lemma OtherWord(word: string)
    requires |word| < 9 || (|word| == 9 && word[0] == 'a')
    ensures !Contains(word, CONFIRMED)
  {
    forall i: nat | i <= |word| ensures !At(word, i, CONFIRMED) {
      if i + 9 <= |word| {
        assert word[i..i + 9][0] == 'a';
        assert CONFIRMED[0] == 'c';
      }
    }
  }

  lemma JoinUnconfirmed(a: string, b: string)
    requires !Contains(Lower(a), CONFIRMED) && !Contains(Lower(b), CONFIRMED)
    ensures !Contains(Lower(Join(a, b)), CONFIRMED)
  {
    LowerConcat(a + " ", b);
    LowerConcat(a, " ");
    assert Lower(" ") == [' '];
    SplitContains(Lower(a), ' ', Lower(b), CONFIRMED);
  }

  lemma EffectUnconfirmed(cause: string, entity: string)
    requires !Contains(Lower(cause), CONFIRMED) && !Contains(Lower(entity), CONFIRMED)
    ensures !Contains(Lower(Effect(cause, entity)), CONFIRMED)
  {
    LowerConcat(entity, ".");
    assert Lower(".") == ['.'];
    assert Lower(entity) + ['.'] + "" == Lower(entity) + ['.'];
    OtherWord("");
    SplitContains(Lower(entity), '.', "", CONFIRMED);
    OtherWord(Lower("affecting"));
    JoinUnconfirmed("affecting", entity + ".");
    JoinUnconfirmed(cause, Join("affecting", entity + "."));
  }

  lemma SummaryUnconfirmed(cause: string, entity: string)
    requires !Contains(Lower(cause), CONFIRMED) && !Contains(Lower(entity), CONFIRMED)
    ensures !Contains(Lower(Summary(cause, entity)), CONFIRMED)
  {
    EffectUnconfirmed(cause, entity);
    OtherWord(Lower("is"));
    OtherWord(Lower("cause"));
    OtherWord(Lower("root"));
    OtherWord(Lower("probable"));
    OtherWord(Lower("The"));
    var a := Join("is", Effect(cause, entity));
    JoinUnconfirmed("is", Effect(cause, entity));
    JoinUnconfirmed("cause", a);
    JoinUnconfirmed("root", Join("cause", a));
    JoinUnconfirmed("probable", Join("root", Join("cause", a)));
    JoinUnconfirmed("The", Join("probable", Join("root", Join("cause", a))));
  }

  lemma InsideContains(a: string, b: string, c: string, needle: string)
    requires Contains(Lower(b), needle)
    ensures Contains(Lower(a + b + c), needle)
  {
    LowerConcat(a + b, c);
    LowerConcat(a, b);
    ContainsOnRight(Lower(a), Lower(b), needle);
    ContainsOnLeft(Lower(a) + Lower(b), Lower(c), needle);
  }

  const HEAD := "The probable root cause is "

  lemma AroundCause(cause: string, entity: string)
    ensures Summary(cause, entity) == HEAD + cause + (" affecting " + (entity + "."))
  {
    var rest := Join("affecting", entity + ".");
    assert " " + rest == " affecting " + (entity + ".");
    assert Effect(cause, entity) == cause + (" " + rest);
    assert Summary(cause, entity) == HEAD + Effect(cause, entity);
  }

  lemma AroundEntity(cause: string, entity: string)
    ensures Summary(cause, entity) == (HEAD + cause + " affecting ") + entity + "."
  {
    AroundCause(cause, entity);
  }

  lemma NamedContains(cause: string, entity: string)
    requires Contains(Lower(cause), CONFIRMED) || Contains(Lower(entity), CONFIRMED)
    ensures Contains(Lower(Summary(cause, entity)), CONFIRMED)
  {
    if Contains(Lower(cause), CONFIRMED) {
      InsideContains(HEAD, cause, " affecting " + (entity + "."), CONFIRMED);
      AroundCause(cause, entity);
    } else {
      InsideContains(HEAD + cause + " affecting ", entity, ".", CONFIRMED);
      AroundEntity(cause, entity);
    }
  }

  /** For a cause label that is not blank, the template's sentence passes the wording test exactly
      when neither the label nor the entity id says "confirmed". */
  lemma SummaryPassesExactly(cause: string, entity: string)
    requires !Blank(cause)
    ensures CausalWording(Summary(cause, entity)) <==> !Contains(Lower(cause), CONFIRMED) && !Contains(Lower(entity), CONFIRMED)
  {
    SummaryIsCausal(cause, entity);
    SummaryWords(cause, entity);
    if !Contains(Lower(cause), CONFIRMED) && !Contains(Lower(entity), CONFIRMED) {
      SummaryUnconfirmed(cause, entity);
    } else {
      NamedContains(cause, entity);
    }
  }
}
