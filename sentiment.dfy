/**
 The keyword classifier of the review service: two lists of lower-case word
 stems and `analyze_sentiment`, which lower-cases a text and labels it
 positive if any positive stem occurs in it, otherwise negative if any
 negative stem occurs, otherwise neutral.
 */
module Sentiment {
  import opened Wrappers
  import opened Strings

  datatype Label = Positive | Negative | Neutral

  /** The label as the service writes it. */
  function Name(l: Label): (s: string)
    ensures s in ["positive", "negative", "neutral"]
  {
    match l
    case Positive => "positive"
    case Negative => "negative"
    case Neutral => "neutral"
  }

  /** Reads a label name back; any other string names no label. */
  function ParseLabel(s: string): (r: Option<Label>)
    ensures r.Some? <==> s in ["positive", "negative", "neutral"]
    ensures forall l :: r == Some(l) <==> s == Name(l)
  {
    if s == "positive" then Some(Positive)
    else if s == "negative" then Some(Negative)
    else if s == "neutral" then Some(Neutral)
    else None
  }

  /** The positive stems, in the order they are tried. */
  const PositiveStems: seq<string> :=
    ["хорош", "отлич", "прекрасн", "замечательн", "классн", "крут"] +
    ["шикарн", "идеальн", "супер", "топ", "лучш", "безупречн", "бесподобн"] +
    ["полезн", "эффективн", "действен", "результат", "качествен"] +
    ["проверен", "надежн", "безопасн", "доволен", "рад", "порадова"] +
    ["рекоменд", "повтор", "выбор", "покупк", "пользуюсь", "нрав"] +
    ["люб", "восторг", "счасть", "удивительн"]

  /** The negative stems, in the order they are tried ("недостат" and "недоволен" appear twice). */
  const NegativeStems: seq<string> :=
    ["плох", "ужасн", "отвратительн", "кошмарн", "разочарован", "слаб"] +
    ["некачествен", "брак", "дефект", "недостат", "паршив", "никак"] +
    ["вредн", "неэффективн", "пустышк", "обман", "недоволен", "неудовлетвор"] +
    ["ненавиж", "развод", "неправд", "ложн", "несоответств", "неоправдан"] +
    ["неудобн", "сложн", "громоздк", "ломает", "тормоз"] +
    ["глюч", "баг", "непонятн", "запутан", "непрактичн", "нефункциональн"] +
    ["дешев", "крив", "дорог", "недостат", "недочет", "недоволен", "жалоб"] +
    ["ухудш", "испортил", "несоветую", "сломал"]

  /** Some stem of `stems` occurs in `t`. */
  ghost predicate Mentions(stems: seq<string>, t: string) {
    exists k | 0 <= k < |stems| :: Contains(t, stems[k])
  }

  /** One `for word in stems: if word in t` scan, stopping at the first hit. */
  function AnyIn(stems: seq<string>, t: string): (r: bool)
    ensures r <==> Mentions(stems, t)
  {
    if stems == [] then false
    else if IsIn(stems[0], t) then true
    else
      var r := AnyIn(stems[1..], t);
      assert Mentions(stems[1..], t) ==> Mentions(stems, t) by {
        if Mentions(stems[1..], t) {
          var k :| 0 <= k < |stems[1..]| && Contains(t, stems[1..][k]);
          assert stems[1..][k] == stems[k + 1];
        }
      }
      assert Mentions(stems, t) ==> Mentions(stems[1..], t) by {
        if Mentions(stems, t) {
          var k :| 0 <= k < |stems| && Contains(t, stems[k]);
          assert k > 0;
          assert stems[1..][k - 1] == stems[k];
        }
      }
      r
  }

  /**
   `analyze_sentiment(text)`: positive stems are tried first, over the
   lower-cased text, so a text that mentions any of them is positive
   whatever negative stems it holds; it is negative exactly when it
   mentions no positive stem and some negative one, and neutral exactly
   when it mentions neither.
   */
  function Analyze(text: string): (r: Label)
    ensures r == Positive <==> Mentions(PositiveStems, Lower(text))
    ensures r == Negative <==> !Mentions(PositiveStems, Lower(text)) && Mentions(NegativeStems, Lower(text))
    ensures r == Neutral <==> !Mentions(PositiveStems, Lower(text)) && !Mentions(NegativeStems, Lower(text))
  {
    var t := Lower(text);
    if AnyIn(PositiveStems, t) then Positive
    else if AnyIn(NegativeStems, t) then Negative
    else Neutral
  }

  /** The label is always one of the three names the service uses. */
  lemma AnalyzeNamesALabel(text: string)
    ensures Name(Analyze(text)) in ["positive", "negative", "neutral"]
    ensures ParseLabel(Name(Analyze(text))) == Some(Analyze(text))
  {
  }

  /** Only the lower-case form of a text matters, so case never changes the label. */
  lemma AnalyzeIgnoresCase(text: string)
    ensures Analyze(Lower(text)) == Analyze(text)
  {
    LowerIdempotent(text);
  }

  /** Every stem is non-empty (an empty stem would occur in every text). */
  lemma StemsNonEmpty()
    ensures forall k | 0 <= k < |PositiveStems| :: PositiveStems[k] != []
    ensures forall k | 0 <= k < |NegativeStems| :: NegativeStems[k] != []
  {
  }

  /** The empty text mentions no stem and is neutral. */
  lemma EmptyTextIsNeutral()
    ensures Analyze([]) == Neutral
  {
    StemsNonEmpty();
  }

  // ---------------------------------------------------------------------
  // Negative stems that can never decide the label
  // ---------------------------------------------------------------------

  /** A stem that itself contains a positive stem. */
  ghost predicate Shadowed(stem: string) {
    Mentions(PositiveStems, stem)
  }

  /**
   A text that mentions a shadowed stem mentions a positive stem too, and
   positives are tried first, so it is positive.
   */
  lemma ShadowedStemMeansPositive(text: string, stem: string)
    requires Shadowed(stem) && Contains(Lower(text), stem)
    ensures Analyze(text) == Positive
  {
    var k :| 0 <= k < |PositiveStems| && Contains(stem, PositiveStems[k]);
    ContainsTransitive(Lower(text), stem, PositiveStems[k]);
  }

  /**
   Three negative stems, four entries of the list, are shadowed:
   "некачествен" holds "качествен", "неэффективн" holds "эффективн" and
   "недоволен" (listed twice) holds "доволен".
   */
  lemma ShadowedNegativeStems()
    ensures NegativeStems[6] == "некачествен" && Shadowed(NegativeStems[6])
    ensures NegativeStems[13] == "неэффективн" && Shadowed(NegativeStems[13])
    ensures NegativeStems[16] == "недоволен" && Shadowed(NegativeStems[16])
    ensures NegativeStems[40] == "недоволен"
  {
    assert PositiveStems[17] == "качествен";
    assert OccursAt("некачествен", PositiveStems[17], 2);
    assert PositiveStems[14] == "эффективн";
    assert OccursAt("неэффективн", PositiveStems[14], 2);
    assert PositiveStems[21] == "доволен";
    assert OccursAt("недоволен", PositiveStems[21], 2);
  }

  /** So no negative text ever mentions "некачествен", "неэффективн" or "недоволен". */
  lemma NegativeTextAvoidsShadowedStems(text: string)
    requires Analyze(text) == Negative
    ensures !Contains(Lower(text), "некачествен")
    ensures !Contains(Lower(text), "неэффективн")
    ensures !Contains(Lower(text), "недоволен")
  {
    ShadowedNegativeStems();
    if Contains(Lower(text), "некачествен") {
      ShadowedStemMeansPositive(text, "некачествен");
    }
    if Contains(Lower(text), "неэффективн") {
      ShadowedStemMeansPositive(text, "неэффективн");
    }
    if Contains(Lower(text), "недоволен") {
      ShadowedStemMeansPositive(text, "недоволен");
    }
  }

  /** The stems of `stems` that hold no positive stem. */
  function Unshadowed(stems: seq<string>): (r: seq<string>)
    ensures forall s :: s in r <==> s in stems && !Shadowed(s)
  {
    if stems == [] then []
    else
      var rest := Unshadowed(stems[1..]);
      assert forall s :: s in stems <==> s == stems[0] || s in stems[1..];
      if AnyIn(PositiveStems, stems[0]) then rest else [stems[0]] + rest
  }

  /**
   The shadowed stems are dead weight: a text is negative exactly when it
   mentions no positive stem and some negative stem that is not shadowed.
   */
  lemma NegativeDecidedByUnshadowed(text: string)
    ensures Analyze(text) == Negative <==>
      !Mentions(PositiveStems, Lower(text)) && Mentions(Unshadowed(NegativeStems), Lower(text))
  {
    var t := Lower(text);
    var live := Unshadowed(NegativeStems);
    if Analyze(text) == Negative {
      var k :| 0 <= k < |NegativeStems| && Contains(t, NegativeStems[k]);
      if Shadowed(NegativeStems[k]) {
        ShadowedStemMeansPositive(text, NegativeStems[k]);
      }
      assert NegativeStems[k] in live;
      var j :| 0 <= j < |live| && live[j] == NegativeStems[k];
      assert Contains(t, live[j]);
    }
    if !Mentions(PositiveStems, t) && Mentions(live, t) {
      var j :| 0 <= j < |live| && Contains(t, live[j]);
      assert live[j] in NegativeStems;
      var k :| 0 <= k < |NegativeStems| && NegativeStems[k] == live[j];
      assert Contains(t, NegativeStems[k]);
    }
  }

  /**
   A text holding, at position `i`, a positive stem spelled in lower case is
   positive (the stem survives lower-casing of the text).
   */
  lemma PositiveWhenStemAt(text: string, k: nat, i: nat)
    requires k < |PositiveStems| && i + |PositiveStems[k]| <= |text|
    requires forall c | c in PositiveStems[k] :: !IsUpper(c)
    requires text[i..i + |PositiveStems[k]|] == PositiveStems[k]
    ensures Analyze(text) == Positive
  {
    var stem := PositiveStems[k];
    LowerSlice(text, i, i + |stem|);
    LowerOfLowerCase(stem);
    assert OccursAt(Lower(text), stem, i);
  }

  /** A text made of any prefix, a lower-case positive stem and any suffix is `positive`. */
  lemma PositiveAroundStem(pre: string, k: nat, post: string)
    requires k < |PositiveStems|
    requires forall c | c in PositiveStems[k] :: !IsUpper(c)
    ensures Analyze(pre + PositiveStems[k] + post) == Positive
  {
    var text := pre + PositiveStems[k] + post;
    assert text[|pre|..|pre| + |PositiveStems[k]|] == PositiveStems[k];
    PositiveWhenStemAt(text, k, |pre|);
  }

  /** An example mixed review: "отлич" wins over the rest. */
  lemma MixedReviewIsPositive()
    ensures Analyze("Товар отличный, но доставка долгая") == Positive
  {
    assert "Товар " + "отлич" + "ный, но доставка долгая" == "Товар отличный, но доставка долгая" by {
    }
    assert Analyze("Товар " + PositiveStems[1] + "ный, но доставка долгая") == Positive by {
      PositiveAroundStem("Товар ", 1, "ный, но доставка долгая");
    }
    assert PositiveStems[1] == "отлич";
  }

  /** Positive wins even when a negative stem is present: "хорош" beats "плох". */
  lemma PositiveBeatsNegative()
    ensures Analyze("Всё хорошо, но плохо упаковано") == Positive
  {
    assert "Всё " + "хорош" + "о, но плохо упаковано" == "Всё хорошо, но плохо упаковано" by {
    }
    assert Analyze("Всё " + PositiveStems[0] + "о, но плохо упаковано") == Positive by {
      PositiveAroundStem("Всё ", 0, "о, но плохо упаковано");
    }
    assert PositiveStems[0] == "хорош";
  }

  /** A complaint about poor quality is labelled positive, through the shadowed stem "некачествен". */
  lemma PoorQualityReviewIsPositive()
    ensures Analyze("Некачественный товар") == Positive
  {
    assert "Не" + "качествен" + "ный товар" == "Некачественный товар" by {
    }
    assert Analyze("Не" + PositiveStems[17] + "ный товар") == Positive by {
      PositiveAroundStem("Не", 17, "ный товар");
    }
    assert PositiveStems[17] == "качествен";
  }
}
