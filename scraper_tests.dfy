/**
 * A worked ranking: a plan at 9.99 a month costs 119.88 a year and so ranks
 * above a plan at 99.00 a year with a 79.00 yearly discount, whichever of
 * the two orders the page lists them in.
 */
module ScraperTests {
  import opened Wrappers
  import opened Utils
  import opened Scraper

  /** The yearly plan: 99.00 a year, with a discount of 79.00 a year. */
  lemma YearlyPlanRecord(yearly: ProductNode)
    requires FindPrice(TextOf(yearly.price)) == Some(99.0)
    requires FindFrequency(TextOf(yearly.frequency)) == Y
    requires FindPrice(TextOf(yearly.discount)) == Some(79.0)
    requires FindFrequency(TextOf(yearly.discountFrequency)) == Y
    ensures BuildRecord(yearly).price == 99.0 && BuildRecord(yearly).annualPrice == 99.0
    ensures BuildRecord(yearly).discount == 79.0
    ensures BuildRecord(yearly).discountFrequency == Some(Y)
  {
  }

  /** The monthly plan: 9.99 a month and no discount. */
  lemma MonthlyPlanRecord(monthly: ProductNode)
    requires FindPrice(TextOf(monthly.price)) == Some(9.99)
    requires FindFrequency(TextOf(monthly.frequency)) == M
    requires monthly.discount.None?
    ensures BuildRecord(monthly).price == 9.99 && BuildRecord(monthly).annualPrice == 119.88
    ensures BuildRecord(monthly).discount == 0.0
    ensures BuildRecord(monthly).discountFrequency.None?
  {
  }

  lemma MonthlyPlanOutranksCheaperYearly(yearly: ProductNode, monthly: ProductNode)
    requires FindPrice(TextOf(yearly.price)) == Some(99.0)
    requires FindFrequency(TextOf(yearly.frequency)) == Y
    requires FindPrice(TextOf(yearly.discount)) == Some(79.0)
    requires FindFrequency(TextOf(yearly.discountFrequency)) == Y
    requires FindPrice(TextOf(monthly.price)) == Some(9.99)
    requires FindFrequency(TextOf(monthly.frequency)) == M
    requires monthly.discount.None?
    ensures Rank(BuiltRecords([yearly, monthly])) == [BuildRecord(monthly), BuildRecord(yearly)]
    ensures Rank(BuiltRecords([monthly, yearly])) == [BuildRecord(monthly), BuildRecord(yearly)]
  {
    var y, m := BuildRecord(yearly), BuildRecord(monthly);
    YearlyPlanRecord(yearly);
    MonthlyPlanRecord(monthly);
    assert BuiltRecords([yearly, monthly]) == [y, m];
    assert BuiltRecords([monthly, yearly]) == [m, y];
    RankPair(y, m);
    RankPair(m, y);
  }

  /** A text that starts with two digits, `.00` and a non-digit reads as the
      whole number the two digits denote. */
  lemma FindPriceWholeAmount(s: seq<char>)
    requires |s| == 6 && AllDigits(s[..2]) && s[2..5] == ".00" && !IsDigit(s[5])
    ensures FindPrice(s) == Some(NatValue(s[..2]) as real)
  {
    assert NatValue("0") == 0;
    assert NatValue("00") == 0 && Pow10(2) == 100;
    assert s[0..2] == s[..2] && s[3..5] == "00";
    FindPriceLeadingNumber(s, 2, 2);
  }

  /** The price texts of the example page below read as the prices the two
      plans assume. */
  lemma ExampleYearlyPrice(s: seq<char>)
    requires |s| == 6 && s[..5] == "99.00" && !IsDigit(s[5])
    ensures FindPrice(s) == Some(99.0)
  {
    assert s[..2] == "99" && s[2..5] == ".00";
    assert NatValue("9") == 9;
    assert NatValue("99") == 99;
    FindPriceWholeAmount(s);
  }

  lemma ExampleDiscountPrice(s: seq<char>)
    requires |s| == 6 && s[..5] == "79.00" && !IsDigit(s[5])
    ensures FindPrice(s) == Some(79.0)
  {
    assert s[..2] == "79" && s[2..5] == ".00";
    assert NatValue("7") == 7;
    assert NatValue("79") == 79;
    FindPriceWholeAmount(s);
  }

  lemma ExampleFrequencies()
    ensures FindFrequency("Yearly") == Y && FindFrequency("per month") == M
  {
    assert OccursAt(Lower("Yearly"), "year", 0);
    var f := "per month";
    forall k | 0 <= k < |f|
      ensures !KeywordAt(f, "year", k) && !KeywordAt(f, "annu", k)
    {
      assert LowerChar(f[k + 0]) != "year"[0] && LowerChar(f[k + 0]) != "annu"[0];
    }
    NoKeywordNeither(f, "year", "annu", 0);
  }

  /** A page whose two nodes meet the assumptions above: the yearly plan reads
      "99.00/" "Yearly" with a "79.00/" "Yearly" discount, the monthly plan reads
      "9.99/" "per month" with no discount element. */
  lemma ExamplePageRanked()
    ensures var yearly := ProductNode(Some("Pro"), None, Some("99.00/"), Some("Yearly"), Some("79.00/"), Some("Yearly"));
            var monthly := ProductNode(Some("Basic"), None, Some("9.99/"), Some("per month"), None, None);
            Rank(BuiltRecords([yearly, monthly])) == [BuildRecord(monthly), BuildRecord(yearly)] &&
            Rank(BuiltRecords([monthly, yearly])) == [BuildRecord(monthly), BuildRecord(yearly)]
  {
    var yearly := ProductNode(Some("Pro"), None, Some("99.00/"), Some("Yearly"), Some("79.00/"), Some("Yearly"));
    var monthly := ProductNode(Some("Basic"), None, Some("9.99/"), Some("per month"), None, None);
    ExampleYearlyPrice("99.00/");
    ExampleDiscountPrice("79.00/");
    FindPriceNineNinetyNine("9.99/");
    ExampleFrequencies();
    assert TextOf(yearly.price) == "99.00/" && TextOf(yearly.discount) == "79.00/";
    assert TextOf(yearly.frequency) == "Yearly" && TextOf(yearly.discountFrequency) == "Yearly";
    assert TextOf(monthly.price) == "9.99/" && TextOf(monthly.frequency) == "per month";
    MonthlyPlanOutranksCheaperYearly(yearly, monthly);
  }
}
