/**
 * The cases of utils.test.ts, stated about the model. Each is an instance of
 * a general lemma of module Utils, and is stated for every digit-free text
 * in front of (and any text after) the number of the test sentence.
 */
module UtilsTests {
  import opened Wrappers
  import opened Utils

  /** The test sentences hold no digits outside their prices. */
  lemma PlainSentenceHasNoDigits()
    ensures NoDigits("This is a sentence without any price.")
  {
  }

  lemma DollarLeadHasNoDigits()
    ensures NoDigits("The price of the item is $")
  {
  }

  lemma EuroLeadHasNoDigits()
    ensures NoDigits("The price of the item is \U{E2}\U{201A}\U{AC}")
  {
  }

  /** utils.test.ts: a sentence without a number has no price. */
  lemma FindPriceExampleNone()
    ensures FindPrice("This is a sentence without any price.") == None
  {
    PlainSentenceHasNoDigits();
    FindPriceNoDigits("This is a sentence without any price.");
  }

  /** utils.test.ts: the price in a sentence, "... is $9.99." */
  lemma FindPriceExampleSentence(lead: seq<char>)
    requires NoDigits(lead)
    ensures FindPrice(lead + "9.99.") == Some(9.99)
  {
    FindPriceNineNinetyNine("9.99.");
    FindPriceIgnoresNonDigitPrefix(lead, "9.99.");
  }

  /** utils.test.ts: only the first of two prices counts,
      "... is $9.99, and the discount price is $7.99." */
  lemma FindPriceExampleFirst(lead: seq<char>, rest: seq<char>)
    requires NoDigits(lead)
    ensures FindPrice(lead + "9.99," + rest) == Some(9.99)
  {
    var t := lead + "9.99,";
    FindPriceNineNinetyNine("9.99,");
    FindPriceIgnoresNonDigitPrefix(lead, "9.99,");
    assert t[|t| - 1] == ',';
    FindPriceIgnoresSuffix(t, rest);
  }

  /** utils.test.ts: a currency sign spelled with several characters,
      "... is â‚¬10.99." */
  lemma FindPriceExampleCurrency(lead: seq<char>)
    requires NoDigits(lead)
    ensures FindPrice(lead + "10.99.") == Some(10.99)
  {
    FindPriceTenNinetyNine("10.99.");
    FindPriceIgnoresNonDigitPrefix(lead, "10.99.");
  }

  /** utils.test.ts: "annual report" and "annually" are yearly. */
  lemma FindFrequencyExamplesYearly()
    ensures FindFrequency("annual report") == Y
    ensures FindFrequency("annually") == Y
    ensures FindFrequency("Yearly") == Y
  {
    assert OccursAt(Lower("annual report"), "annu", 0);
    assert OccursAt(Lower("annually"), "annu", 0);
    assert OccursAt(Lower("Yearly"), "year", 0);
  }

  /** utils.test.ts: "monthly report" is monthly: no index starts either keyword. */
  lemma FindFrequencyExampleMonthly()
    ensures FindFrequency("monthly report") == M
  {
    var s := "monthly report";
    forall p | 0 <= p < |s|
      ensures !KeywordAt(s, "year", p) && !KeywordAt(s, "annu", p)
    {
      assert LowerChar(s[p + 0]) != "annu"[0];
      if p == 6 {
        assert LowerChar(s[p + 1]) != "year"[1];
      } else {
        assert LowerChar(s[p + 0]) != "year"[0];
      }
    }
    NoKeywordNeither(s, "year", "annu", 0);
  }

  /** utils.test.ts: converting to the same frequency changes nothing; M to Y
      multiplies by 12 and Y to M divides by 12. */
  lemma GetTargetFrequencyPriceCases(price: real)
    ensures forall f :: GetTargetFrequencyPrice(price, f, f) == price
    ensures GetTargetFrequencyPrice(price, M, Y) == 12.0 * price
    ensures GetTargetFrequencyPrice(price, Y, M) * 12.0 == price
    ensures GetTargetFrequencyPrice(100.0, M, Y) == 1200.0
    ensures GetTargetFrequencyPrice(1200.0, Y, M) == 100.0
  {
  }
}
