/**
 * categorize_gender: free-text gender answers mapped to one of four labels by
 * ordered, case-insensitive substring rules; the first rule that fires wins.
 */
module Gender {
  import opened Text

  const QueerLabel: string := "Queer/Non-binary"
  const FemaleLabel: string := "Female"
  const MaleLabel: string := "Male"
  const OtherLabel: string := "Other"

  predicate IsLabel(s: string) {
    s == QueerLabel || s == FemaleLabel || s == MaleLabel || s == OtherLabel
  }

  /** The classifier exactly as written, rule by rule, including the guards of the Male rule. */
  function Categorize(value: string): (r: string)
    ensures IsLabel(r)
  {
    var v := Lower(value);
    if Contains(v, "non-binary") || Contains(v, "genderqueer")
       || Contains(v, "gender non-conforming") || Contains(v, "queer")
    then QueerLabel
    else if Contains(v, "woman") || Contains(v, "female") then FemaleLabel
    else if (Contains(v, "man") && !Contains(v, "woman")) || (Contains(v, "male") && !Contains(v, "female"))
    then MaleLabel
    else OtherLabel
  }

  /** A queer or non-binary keyword occurs (genderqueer is covered by queer). */
  predicate HasQueerKeyword(v: string) {
    Contains(v, "non-binary") || Contains(v, "gender non-conforming") || Contains(v, "queer")
  }

  predicate HasFemaleKeyword(v: string) {
    Contains(v, "woman") || Contains(v, "female")
  }

  predicate HasMaleKeyword(v: string) {
    Contains(v, "man") || Contains(v, "male")
  }

  /** Independent statement of the precedence: queer keywords, then female, then male, else Other. */
  function ByPrecedence(v: string): string {
    if HasQueerKeyword(v) then QueerLabel
    else if HasFemaleKeyword(v) then FemaleLabel
    else if HasMaleKeyword(v) then MaleLabel
    else OtherLabel
  }

  /**
   * The classifier follows the precedence order on the lower-cased answer.
   * The genderqueer test is subsumed by the queer test, and once the Female
   * rule has failed the guards of the Male rule always hold, so the Male rule
   * reduces to containing "man" or "male".
   */
  lemma CategorizeByPrecedence(value: string)
    ensures Categorize(value) == ByPrecedence(Lower(value))
  {
    var v := Lower(value);
    if Contains(v, "genderqueer") {
      assert OccursAt("genderqueer", "queer", 6);
      OccursAtContains("genderqueer", "queer", 6);
      ContainsTransitive(v, "genderqueer", "queer");
    }
  }

  /** Only the lower-cased form of the answer matters. */
  lemma CategorizeIgnoresCase(value: string)
    ensures Categorize(value) == Categorize(Lower(value))
  {
    LowerIdempotent(value);
  }

  /** A keyword survives in any longer answer built around the original one. */
  lemma LowerExtend(a: string, value: string, b: string, keyword: string)
    requires Contains(Lower(value), keyword)
    ensures Contains(Lower(a + value + b), keyword)
  {
    LowerAppend(a + value, b);
    LowerAppend(a, value);
    ContainsExtend(Lower(a), Lower(value), Lower(b), keyword);
  }

  /** A queer or non-binary answer stays so whatever else is written around it. */
  lemma QueerWinsInAnyContext(a: string, value: string, b: string)
    requires Categorize(value) == QueerLabel
    ensures Categorize(a + value + b) == QueerLabel
  {
    CategorizeByPrecedence(value);
    CategorizeByPrecedence(a + value + b);
    var v := Lower(value);
    if Contains(v, "non-binary") {
      LowerExtend(a, value, b, "non-binary");
    } else if Contains(v, "gender non-conforming") {
      LowerExtend(a, value, b, "gender non-conforming");
    } else {
      LowerExtend(a, value, b, "queer");
    }
  }

  /** A female answer stays female in any context that adds no queer keyword, whatever male words are added. */
  lemma FemaleBeatsMaleInAnyContext(a: string, value: string, b: string)
    requires Categorize(value) == FemaleLabel
    requires Categorize(a + value + b) != QueerLabel
    ensures Categorize(a + value + b) == FemaleLabel
  {
    CategorizeByPrecedence(value);
    CategorizeByPrecedence(a + value + b);
    if Contains(Lower(value), "woman") {
      LowerExtend(a, value, b, "woman");
    } else {
      LowerExtend(a, value, b, "female");
    }
  }

  /** An answer mentioning a gender is never classified Other, in any context. */
  lemma GenderedNeverOther(a: string, value: string, b: string)
    requires Categorize(value) != OtherLabel
    ensures Categorize(a + value + b) != OtherLabel
  {
    CategorizeByPrecedence(value);
    CategorizeByPrecedence(a + value + b);
    var v := Lower(value);
    if Contains(v, "non-binary") {
      LowerExtend(a, value, b, "non-binary");
    } else if Contains(v, "gender non-conforming") {
      LowerExtend(a, value, b, "gender non-conforming");
    } else if Contains(v, "queer") {
      LowerExtend(a, value, b, "queer");
    } else if Contains(v, "woman") {
      LowerExtend(a, value, b, "woman");
    } else if Contains(v, "female") {
      LowerExtend(a, value, b, "female");
    } else if Contains(v, "man") {
      LowerExtend(a, value, b, "man");
    } else {
      LowerExtend(a, value, b, "male");
    }
  }

  /** "Woman" is Female although it contains "man"; "Man" is Male. */
  lemma WomanAndManExamples()
    ensures Categorize("Woman") == FemaleLabel
    ensures Categorize("Man") == MaleLabel
  {
    assert Lower("Woman") == "woman";
    assert Lower("Man") == "man";
    OccursAtContains("woman", "woman", 0);
    OccursAtContains("man", "man", 0);
    TooLongNotContained("woman", "non-binary");
    TooLongNotContained("woman", "genderqueer");
    TooLongNotContained("woman", "gender non-conforming");
    MissingCharNotContained("woman", "queer", 0);
    TooLongNotContained("man", "non-binary");
    TooLongNotContained("man", "genderqueer");
    TooLongNotContained("man", "gender non-conforming");
    TooLongNotContained("man", "queer");
    TooLongNotContained("man", "woman");
    TooLongNotContained("man", "female");
  }

  /** A self-described genderqueer answer is Queer/Non-binary. */
  lemma SelfDescribedExample()
    ensures Categorize("Prefer to self-describe: genderqueer") == QueerLabel
  {
    var s := "Prefer to self-describe: genderqueer";
    assert s[31..36] == "queer";
    assert Lower(s)[31..36] == "queer";
    OccursAtContains(Lower(s), "queer", 31);
  }

  /** Every keyword needs one of the letters b, c, q or m, so an answer with none of them is Other. */
  lemma WithoutKeywordLettersIsOther(value: string)
    requires 'b' !in Lower(value) && 'c' !in Lower(value) && 'q' !in Lower(value) && 'm' !in Lower(value)
    ensures Categorize(value) == OtherLabel
  {
    var o := Lower(value);
    CategorizeByPrecedence(value);
    MissingCharNotContained(o, "non-binary", 4);
    MissingCharNotContained(o, "gender non-conforming", 11);
    MissingCharNotContained(o, "queer", 0);
    MissingCharNotContained(o, "woman", 2);
    MissingCharNotContained(o, "female", 2);
    MissingCharNotContained(o, "man", 0);
    MissingCharNotContained(o, "male", 0);
  }

  /** A refusal to answer is Other. */
  lemma RefusalExample()
    ensures Categorize("Prefer not to say") == OtherLabel
  {
    CategorizeIgnoresCase("Prefer not to say");
    RefusalLowered();
    LowercaseRefusalIsOther();
  }

  lemma RefusalLowered()
    ensures Lower("Prefer not to say") == "prefer not to say"
  {
  }

  lemma LowercaseRefusalIsOther()
    ensures Categorize("prefer not to say") == OtherLabel
  {
    WithoutKeywordLettersIsOther("prefer not to say");
  }


}
