/**
 * The pricing helpers of the scraper (utils.ts): reading a price out of free
 * text, classifying a billing frequency, and converting a price between the
 * two billing frequencies.
 *
 * Prices are exact `real`s: `parseFloat`, `* 12` and `/ 12` are modelled
 * without IEEE-754 rounding.
 */
module Utils {
  import opened Wrappers

  /** A billing frequency: yearly or monthly. The type is closed, so no third
      value can reach `GetTargetFrequencyPrice`. */
  datatype Frequency = Y | M

  // ---------------------------------------------------------------------------
  // Digits and decimal values

  /** `\d`: an ASCII decimal digit. */
  predicate IsDigit(c: char) {
    '0' <= c <= '9'
  }

  function DigitValue(c: char): (v: nat)
    requires IsDigit(c)
    ensures v < 10
  {
    c as int - '0' as int
  }

  predicate AllDigits(t: seq<char>) {
    forall k :: 0 <= k < |t| ==> IsDigit(t[k])
  }

  lemma DigitAt(t: seq<char>, k: int)
    requires AllDigits(t) && 0 <= k < |t|
    ensures IsDigit(t[k])
  {
  }

  predicate NoDigits(t: seq<char>) {
    forall k :: 0 <= k < |t| ==> !IsDigit(t[k])
  }

  function Pow10(k: nat): (p: nat)
    ensures p >= 1
  {
    if k == 0 then 1 else 10 * Pow10(k - 1)
  }

  /** The value of a string of decimal digits, most significant digit first. */
  function NatValue(t: seq<char>): nat
    requires AllDigits(t)
  {
    if t == [] then 0 else NatValue(t[..|t| - 1]) * 10 + DigitValue(t[|t| - 1])
  }

  /** k digits denote a number below 10^k. */
  lemma {:induction false} NatValueBound(t: seq<char>)
    requires AllDigits(t)
    ensures NatValue(t) < Pow10(|t|)
  {
    if t != [] {
      NatValueBound(t[..|t| - 1]);
    }
  }

  /** A fraction whose numerator is below its denominator is below one. */
  lemma FractionBelowOne(n: nat, p: nat)
    requires n < p
    ensures 0.0 <= n as real / p as real < 1.0
  {
    var q := n as real / p as real;
    assert q * p as real == n as real;
  }

  /** `parseFloat` of the text `whole.frac`, as an exact decimal: the whole
      part, plus the fraction digits over 10^|frac|. The whole part is the
      integer part of the result. */
  function DecimalValue(whole: seq<char>, frac: seq<char>): (v: real)
    requires AllDigits(whole) && AllDigits(frac)
    ensures NatValue(whole) as real <= v < NatValue(whole) as real + 1.0
  {
    NatValueBound(frac);
    FractionBelowOne(NatValue(frac), Pow10(|frac|));
    NatValue(whole) as real + NatValue(frac) as real / Pow10(|frac|) as real
  }

  // ---------------------------------------------------------------------------
  // findPrice: the first match of /\d+\.\d+/g

  /** `s[i..j]` is an occurrence of `\d+\.\d+` whose dot is at index `d`. */
  predicate IsMatchAt(s: seq<char>, i: int, d: int, j: int) {
    0 <= i < d && d + 1 < j <= |s| && s[d] == '.' && AllDigits(s[i..d]) && AllDigits(s[d + 1..j])
  }

  ghost predicate HasMatch(s: seq<char>) {
    exists i, d, j :: IsMatchAt(s, i, d, j)
  }

  /** `s[i..j]` is the occurrence that `String.prototype.match` lists first:
      no occurrence starts further left, and the greedy fraction `\d+` runs to
      the end of the text or to a non-digit. */
  ghost predicate IsFirstMatch(s: seq<char>, i: int, d: int, j: int) {
    IsMatchAt(s, i, d, j)
    && (forall i', d', j' :: IsMatchAt(s, i', d', j') ==> i <= i')
    && (j == |s| || !IsDigit(s[j]))
  }

  /** Greedy `\d*` from index `k`: the end of the run of digits there. */
  function DigitRunEnd(s: seq<char>, k: nat): (e: nat)
    requires k <= |s|
    ensures k <= e <= |s| && AllDigits(s[k..e])
    ensures e == |s| || !IsDigit(s[e])
    decreases |s| - k
  {
    if k < |s| && IsDigit(s[k]) then DigitRunEnd(s, k + 1) else k
  }

  /** A run of digits that a non-digit (or the end of the text) ends is the
      greedy run. */
  lemma RunEndUnique(s: seq<char>, k: nat, e: nat)
    requires k <= e <= |s| && AllDigits(s[k..e])
    requires e == |s| || !IsDigit(s[e])
    ensures DigitRunEnd(s, k) == e
  {
  }

  /** The greedy run from `k` covers every run of digits from `k`. */
  lemma {:induction false} RunEndCovers(s: seq<char>, k: nat, e: nat)
    requires k <= e <= |s| && AllDigits(s[k..e])
    ensures e <= DigitRunEnd(s, k)
    decreases e - k
  {
    if k < e {
      assert s[k..e][0] == s[k];
      assert s[k + 1..e] == s[k..e][1..];
      RunEndCovers(s, k + 1, e);
    }
  }

  /** Every occurrence of `\d+\.\d+` starting at `i` has its dot where the
      greedy whole part ends, and ends no later than the greedy fraction. */
  lemma MatchFollowsRuns(s: seq<char>, i: nat, d: nat, j: nat)
    requires IsMatchAt(s, i, d, j)
    ensures DigitRunEnd(s, i) == d
    ensures IsDigit(s[d + 1]) && j <= DigitRunEnd(s, d + 1)
  {
    RunEndUnique(s, i, d);
    assert s[d + 1..j][0] == s[d + 1];
    RunEndCovers(s, d + 1, j);
  }

  /** One attempt of the regex at start index `i`: `\d+` greedily, then `.`,
      then `\d+` greedily. Gives the dot index and the end of the match. */
  function MatchAt(s: seq<char>, i: nat): (r: Option<(nat, nat)>)
    requires i <= |s|
    ensures r.Some? ==> IsMatchAt(s, i, r.value.0, r.value.1)
    ensures r.Some? ==> r.value.1 == |s| || !IsDigit(s[r.value.1])
    ensures r.None? ==> forall d, j :: !IsMatchAt(s, i, d, j)
  {
    var d := DigitRunEnd(s, i);
    if i < d && d + 1 < |s| && s[d] == '.' && IsDigit(s[d + 1]) then
      var j := DigitRunEnd(s, d + 1);
      assert s[d + 1..j][0] == s[d + 1];
      Some((d, j))
    else
      NoMatchAt(s, i);
      None
  }

  lemma NoMatchAt(s: seq<char>, i: nat)
    requires i <= |s|
    requires var d := DigitRunEnd(s, i); !(i < d && d + 1 < |s| && s[d] == '.' && IsDigit(s[d + 1]))
    ensures forall d, j :: !IsMatchAt(s, i, d, j)
  {
    forall d, j | IsMatchAt(s, i, d, j)
      ensures false
    {
      MatchFollowsRuns(s, i, d, j);
    }
  }

  /** The regex engine's scan: attempt a match at every start index from `i`
      rightwards and report the first success as (start, dot, end). */
  function SearchFrom(s: seq<char>, i: nat): (r: Option<(nat, nat, nat)>)
    requires i <= |s|
    ensures r.Some? ==> i <= r.value.0 && IsMatchAt(s, r.value.0, r.value.1, r.value.2)
    ensures r.Some? ==> r.value.2 == |s| || !IsDigit(s[r.value.2])
    ensures r.Some? ==> forall a, d, j :: i <= a < r.value.0 ==> !IsMatchAt(s, a, d, j)
    ensures r.None? ==> forall a, d, j :: i <= a ==> !IsMatchAt(s, a, d, j)
    decreases |s| - i
  {
    if i == |s| then
      None
    else
      match MatchAt(s, i)
      case Some((d, j)) => Some((i, d, j))
      case None => SearchFrom(s, i + 1)
  }

  /** `findPrice`: the value of the first `\d+\.\d+` in the text, or `None`
      (JavaScript's `null`) when there is none. */
  function FindPrice(value: seq<char>): (r: Option<real>)
    ensures r.None? <==> !HasMatch(value)
    ensures r.Some? ==> r.value >= 0.0
  {
    match SearchFrom(value, 0)
    case None => None
    case Some((i, d, j)) => Some(DecimalValue(value[i..d], value[d + 1..j]))
  }

  /** The scan from the start of the text stops at the first occurrence. */
  lemma SearchFindsFirstMatch(s: seq<char>, i: nat, d: nat, j: nat)
    requires IsFirstMatch(s, i, d, j)
    ensures SearchFrom(s, 0) == Some((i, d, j))
  {
    var r := SearchFrom(s, 0);
    assert r.Some? by {
      assert IsMatchAt(s, i, d, j);
    }
    var (a, d', j') := r.value;
    assert i <= a by {
      assert IsMatchAt(s, a, d', j');
    }
    assert a <= i by {
      assert IsMatchAt(s, i, d, j);
    }
    assert d' == d by {
      MatchFollowsRuns(s, i, d, j);
      MatchFollowsRuns(s, a, d', j');
    }
    assert j' == j by {
      RunEndUnique(s, d + 1, j);
      RunEndUnique(s, d + 1, j');
    }
  }

  /** FindPrice returns the value of the first occurrence, whichever it is. */
  lemma FindPriceFirstMatch(s: seq<char>, i: nat, d: nat, j: nat)
    requires IsFirstMatch(s, i, d, j)
    ensures FindPrice(s) == Some(DecimalValue(s[i..d], s[d + 1..j]))
  {
    SearchFindsFirstMatch(s, i, d, j);
  }

  /** Whenever there is an occurrence, there is a first one. */
  lemma FirstMatch(s: seq<char>) returns (i: nat, d: nat, j: nat)
    requires HasMatch(s)
    ensures IsFirstMatch(s, i, d, j)
  {
    var r := SearchFrom(s, 0);
    i, d, j := r.value.0, r.value.1, r.value.2;
  }

  /** The reported number is maximal on the left too: it never starts in the
      middle of a run of digits. */
  lemma FirstMatchStartsRun(s: seq<char>, i: nat, d: nat, j: nat)
    requires IsFirstMatch(s, i, d, j)
    ensures i == 0 || !IsDigit(s[i - 1])
  {
    if i > 0 && IsDigit(s[i - 1]) {
      assert s[i - 1..d] == [s[i - 1]] + s[i..d];
      assert IsMatchAt(s, i - 1, d, j);
      assert false;
    }
  }

  /** A slice of `t` read inside `p + t`. */
  lemma ShiftSlice(p: seq<char>, t: seq<char>, a: nat, b: nat)
    requires a <= b <= |t|
    ensures (p + t)[a + |p|..b + |p|] == t[a..b]
  {
    forall k | 0 <= k < b - a
      ensures (p + t)[a + |p|..b + |p|][k] == t[a..b][k]
    {
      assert (p + t)[a + |p| + k] == t[a + k];
    }
  }

  /** A slice of `t` read inside `t + u`. */
  lemma PrefixSlice(t: seq<char>, u: seq<char>, a: nat, b: nat)
    requires a <= b <= |t|
    ensures (t + u)[a..b] == t[a..b]
  {
    forall k | 0 <= k < b - a
      ensures (t + u)[a..b][k] == t[a..b][k]
    {
      assert (t + u)[a + k] == t[a + k];
    }
  }

  /** Occurrences in `p + t`, for a `p` without digits, are those of `t`
      moved right by |p|. */
  lemma ShiftMatch(p: seq<char>, t: seq<char>, a: int, d: int, j: int)
    requires NoDigits(p)
    ensures IsMatchAt(p + t, a, d, j) ==> |p| <= a && IsMatchAt(t, a - |p|, d - |p|, j - |p|)
    ensures IsMatchAt(t, a - |p|, d - |p|, j - |p|) ==> IsMatchAt(p + t, a, d, j)
  {
    var s := p + t;
    if IsMatchAt(s, a, d, j) {
      assert s[a..d][0] == s[a];
      assert |p| <= a;
      ShiftSlice(p, t, a - |p|, d - |p|);
      ShiftSlice(p, t, d + 1 - |p|, j - |p|);
    }
    if IsMatchAt(t, a - |p|, d - |p|, j - |p|) {
      ShiftSlice(p, t, a - |p|, d - |p|);
      ShiftSlice(p, t, d + 1 - |p|, j - |p|);
    }
  }

  /** The first occurrence in `t` is, moved right by |p|, the first one in
      `p + t` when `p` has no digits. */
  lemma ShiftFirstMatch(p: seq<char>, t: seq<char>, i: nat, d: nat, j: nat)
    requires NoDigits(p) && IsFirstMatch(t, i, d, j)
    ensures IsFirstMatch(p + t, i + |p|, d + |p|, j + |p|)
  {
    var s, n := p + t, |p|;
    ShiftMatch(p, t, i + n, d + n, j + n);
    forall a, d', j' | IsMatchAt(s, a, d', j')
      ensures i + n <= a
    {
      ShiftMatch(p, t, a, d', j');
    }
    assert j + n == |s| || s[j + n] == t[j];
  }

  /** FindPrice reads the value of a first occurrence through its slices only. */
  lemma FindPriceSameFirstMatch(s: seq<char>, t: seq<char>, i: nat, d: nat, j: nat, i': nat, d': nat, j': nat)
    requires IsFirstMatch(s, i, d, j) && IsFirstMatch(t, i', d', j')
    requires s[i..d] == t[i'..d'] && s[d + 1..j] == t[d' + 1..j']
    ensures FindPrice(s) == FindPrice(t)
  {
    FindPriceFirstMatch(s, i, d, j);
    FindPriceFirstMatch(t, i', d', j');
  }

  /** Non-digit text before the number, such as a currency sign of any width,
      does not change the result. */
  lemma FindPriceIgnoresNonDigitPrefix(p: seq<char>, t: seq<char>)
    requires NoDigits(p)
    ensures FindPrice(p + t) == FindPrice(t)
  {
    var s, n := p + t, |p|;
    if !HasMatch(t) {
      if HasMatch(s) {
        var a, d, j :| IsMatchAt(s, a, d, j);
        ShiftMatch(p, t, a, d, j);
      }
    } else {
      var i, d, j := FirstMatch(t);
      ShiftFirstMatch(p, t, i, d, j);
      ShiftSlice(p, t, i, d);
      ShiftSlice(p, t, d + 1, j);
      FindPriceSameFirstMatch(s, t, i + n, d + n, j + n, i, d, j);
    }
  }

  /** An occurrence in `t + u` whose dot and first fraction digit lie in `t`
      has a shorter occurrence inside `t`. */
  lemma TruncateMatch(t: seq<char>, u: seq<char>, a: nat, d: nat, j: nat)
    requires IsMatchAt(t + u, a, d, j) && d + 1 < |t|
    ensures IsMatchAt(t, a, d, d + 2)
  {
    var s := t + u;
    assert s[a..d] == t[a..d];
    assert t[d + 1..d + 2] == [s[d + 1..j][0]];
  }

  /** A first occurrence that a non-digit ends stays the first one whatever
      text is appended. */
  lemma ExtendFirstMatch(t: seq<char>, u: seq<char>, i: nat, d: nat, j: nat)
    requires IsFirstMatch(t, i, d, j) && j < |t|
    ensures IsFirstMatch(t + u, i, d, j)
  {
    var s := t + u;
    PrefixSlice(t, u, i, d);
    PrefixSlice(t, u, d + 1, j);
    forall a, d', j' | IsMatchAt(s, a, d', j') && a < i
      ensures false
    {
      if |t| <= d' + 1 {
        DigitAt(s[a..d'], d - a);
      } else {
        TruncateMatch(t, u, a, d', j');
      }
    }
  }

  /** Once a non-digit ends the text holding the first number, whatever text
      follows does not change the result: later prices are ignored. */
  lemma FindPriceIgnoresSuffix(t: seq<char>, u: seq<char>)
    requires FindPrice(t).Some? && |t| > 0 && !IsDigit(t[|t| - 1])
    ensures FindPrice(t + u) == FindPrice(t)
  {
    var s := t + u;
    var i, d, j := FirstMatch(t);
    DigitAt(t[d + 1..j], j - d - 2);
    assert t[d + 1..j][j - d - 2] == t[j - 1];
    ExtendFirstMatch(t, u, i, d, j);
    PrefixSlice(t, u, i, d);
    PrefixSlice(t, u, d + 1, j);
    FindPriceSameFirstMatch(s, t, i, d, j, i, d, j);
  }

  /** A text without digits holds no price. */
  lemma FindPriceNoDigits(s: seq<char>)
    requires NoDigits(s)
    ensures FindPrice(s) == None
  {
    FindPriceIgnoresNonDigitPrefix(s, []);
    assert s + [] == s;
  }

  /** A text that starts with `w.f` followed by a non-digit (or nothing) reads
      as that number. */
  lemma FindPriceLeadingNumber(s: seq<char>, w: nat, f: nat)
    requires 0 < w && w + 1 + f <= |s| && 0 < f
    requires AllDigits(s[..w]) && s[w] == '.' && AllDigits(s[w + 1..w + 1 + f])
    requires w + 1 + f == |s| || !IsDigit(s[w + 1 + f])
    ensures FindPrice(s) == Some(DecimalValue(s[..w], s[w + 1..w + 1 + f]))
  {
    assert s[0..w] == s[..w];
    assert IsFirstMatch(s, 0, w, w + 1 + f);
    FindPriceFirstMatch(s, 0, w, w + 1 + f);
  }

  /** A text that is `9.99` followed by a non-digit reads as 9.99. */
  lemma FindPriceNineNinetyNine(s: seq<char>)
    requires |s| == 5 && s[..4] == "9.99" && !IsDigit(s[4])
    ensures FindPrice(s) == Some(9.99)
  {
    assert NatValue("9") == 9 && NatValue("99") == 99 && Pow10(2) == 100;
    assert s[..1] == "9" && s[2..4] == "99";
    FindPriceLeadingNumber(s, 1, 2);
  }

  /** A text that is `10.99` followed by a non-digit reads as 10.99. */
  lemma FindPriceTenNinetyNine(s: seq<char>)
    requires |s| == 6 && s[..5] == "10.99" && !IsDigit(s[5])
    ensures FindPrice(s) == Some(10.99)
  {
    assert NatValue("1") == 1;
    assert NatValue("10") == 10 && NatValue("99") == 99 && Pow10(2) == 100;
    assert s[..2] == "10" && s[3..5] == "99";
    FindPriceLeadingNumber(s, 2, 2);
  }

  // ---------------------------------------------------------------------------
  // findFrequency: the test /year|annu/i

  /** ASCII lower-casing, as the `i` flag compares letters: only the capitals
      `A`-`Z` change, each to its small letter, and no capital is left. */
  function LowerChar(c: char): (r: char)
    ensures !('A' <= r <= 'Z')
    ensures !('A' <= c <= 'Z') ==> r == c
    ensures 'A' <= c <= 'Z' ==> 'a' <= r <= 'z' && r as int - c as int == 'a' as int - 'A' as int
  {
    if 'A' <= c <= 'Z' then (c as int + 32) as char else c
  }

  function UpperChar(c: char): char {
    if 'a' <= c <= 'z' then (c as int - 32) as char else c
  }

  function Lower(s: seq<char>): seq<char> {
    seq(|s|, k requires 0 <= k < |s| => LowerChar(s[k]))
  }

  function Upper(s: seq<char>): seq<char> {
    seq(|s|, k requires 0 <= k < |s| => UpperChar(s[k]))
  }

  /** A letter and its capital fold to the same character, and folding twice
      is folding once. */
  lemma CaseFoldAgrees(c: char)
    ensures LowerChar(UpperChar(c)) == LowerChar(c)
    ensures LowerChar(LowerChar(c)) == LowerChar(c)
  {
  }

  /** Lower-casing a lower-cased text changes nothing. */
  lemma LowerIdempotent(s: seq<char>)
    ensures Lower(Lower(s)) == Lower(s)
  {
    forall k | 0 <= k < |s|
      ensures Lower(Lower(s))[k] == Lower(s)[k]
    {
      CaseFoldAgrees(s[k]);
    }
  }

  /** `w` occurs in `s` at index `i`. */
  predicate OccursAt(s: seq<char>, w: seq<char>, i: int) {
    0 <= i && i + |w| <= |s| && s[i..i + |w|] == w
  }

  ghost predicate Contains(s: seq<char>, w: seq<char>) {
    exists i :: OccursAt(s, w, i)
  }

  /** One attempt of a case-insensitive keyword at index `i`; `w` is lower case. */
  predicate KeywordAt(s: seq<char>, w: seq<char>, i: nat) {
    i + |w| <= |s| && forall k :: 0 <= k < |w| ==> LowerChar(s[i + k]) == w[k]
  }

  /** The regex engine's scan for the case-insensitive alternation `v|w`
      from index `i` rightwards (`v` and `w` are lower case). */
  predicate EitherFrom(s: seq<char>, v: seq<char>, w: seq<char>, i: nat)
    decreases |s| - i
  {
    i < |s| && (KeywordAt(s, v, i) || KeywordAt(s, w, i) || EitherFrom(s, v, w, i + 1))
  }

  lemma KeywordAtLower(s: seq<char>, w: seq<char>, i: nat)
    ensures KeywordAt(s, w, i) <==> OccursAt(Lower(s), w, i)
  {
    if i + |w| <= |s| {
      if KeywordAt(s, w, i) {
        assert Lower(s)[i..i + |w|] == w;
      }
      if OccursAt(Lower(s), w, i) {
        forall k | 0 <= k < |w|
          ensures LowerChar(s[i + k]) == w[k]
        {
          assert Lower(s)[i..i + |w|][k] == w[k];
        }
      }
    }
  }

  /** Either keyword occurs in the lower-cased text at `p`. */
  predicate EitherAt(t: seq<char>, v: seq<char>, w: seq<char>, p: int) {
    OccursAt(t, v, p) || OccursAt(t, w, p)
  }

  /** The scan succeeds exactly when a keyword occurs at or after `i`. */
  lemma {:induction false} EitherFromOccurs(s: seq<char>, v: seq<char>, w: seq<char>, i: nat)
    requires i <= |s| && |v| > 0 && |w| > 0
    ensures EitherFrom(s, v, w, i) <==> exists p :: i <= p && EitherAt(Lower(s), v, w, p)
    decreases |s| - i
  {
    var t := Lower(s);
    KeywordAtLower(s, v, i);
    KeywordAtLower(s, w, i);
    if i < |s| {
      EitherFromOccurs(s, v, w, i + 1);
      if EitherFrom(s, v, w, i) {
        if KeywordAt(s, v, i) || KeywordAt(s, w, i) {
          assert EitherAt(t, v, w, i);
        } else {
          var p :| i + 1 <= p && EitherAt(t, v, w, p);
          assert i <= p;
        }
      }
      if exists p :: i <= p && EitherAt(t, v, w, p) {
        var p :| i <= p && EitherAt(t, v, w, p);
        if p == i {
          assert KeywordAt(s, v, i) || KeywordAt(s, w, i);
        } else {
          assert i + 1 <= p;
        }
      }
    } else {
      forall p | i <= p
        ensures !EitherAt(t, v, w, p)
      {
      }
    }
  }

  /** A keyword occurs at some index exactly when the text contains one. */
  lemma EitherContains(t: seq<char>, v: seq<char>, w: seq<char>)
    ensures (exists p :: 0 <= p && EitherAt(t, v, w, p)) <==> Contains(t, v) || Contains(t, w)
  {
    if Contains(t, v) {
      var p :| OccursAt(t, v, p);
      assert EitherAt(t, v, w, p);
    }
    if Contains(t, w) {
      var p :| OccursAt(t, w, p);
      assert EitherAt(t, v, w, p);
    }
  }

  /** With no keyword at any index from `i`, the scan fails. */
  lemma {:induction false} NoKeywordNeither(s: seq<char>, v: seq<char>, w: seq<char>, i: nat)
    requires forall p :: i <= p < |s| ==> !KeywordAt(s, v, p) && !KeywordAt(s, w, p)
    ensures !EitherFrom(s, v, w, i)
    decreases |s| - i
  {
    if i < |s| {
      NoKeywordNeither(s, v, w, i + 1);
    }
  }

  /** `findFrequency`: yearly when `/year|annu/i` matches somewhere in the
      text, monthly otherwise; only ASCII letters are case-folded. */
  function FindFrequency(value: seq<char>): (f: Frequency)
    ensures f == Y <==> Contains(Lower(value), "year") || Contains(Lower(value), "annu")
  {
    EitherFromOccurs(value, "year", "annu", 0);
    EitherContains(Lower(value), "year", "annu");
    if EitherFrom(value, "year", "annu", 0) then Y else M
  }

  /** Texts that differ only in ASCII case are classified alike. */
  lemma FindFrequencyIgnoresCase(s: seq<char>, t: seq<char>)
    requires |s| == |t| && forall k :: 0 <= k < |s| ==> LowerChar(s[k]) == LowerChar(t[k])
    ensures FindFrequency(s) == FindFrequency(t)
  {
    assert Lower(s) == Lower(t);
  }

  /** In particular, upper-casing a text never changes its frequency. */
  lemma FindFrequencyUpper(s: seq<char>)
    ensures FindFrequency(Upper(s)) == FindFrequency(s)
  {
    FindFrequencyIgnoresCase(Upper(s), s);
  }

  /** A missing frequency text reads as monthly. */
  lemma FindFrequencyEmpty()
    ensures FindFrequency("") == M
  {
  }

  // ---------------------------------------------------------------------------
  // getTargetFrequencyPrice

  /** Months in one billing period: the fixed ratio between the two is 12. */
  function MonthsIn(f: Frequency): real {
    match f
    case Y => 12.0
    case M => 1.0
  }

  /** `getTargetFrequencyPrice`: the price of the same product billed every
      `targetFrequency` instead of every `frequency`. The price per month is
      preserved. (The source's `default:` passthrough for an unknown target
      has no counterpart: `Frequency` has only these two values.) */
  function GetTargetFrequencyPrice(price: real, frequency: Frequency, targetFrequency: Frequency): (r: real)
    ensures r / MonthsIn(targetFrequency) == price / MonthsIn(frequency)
    ensures price >= 0.0 ==> r >= 0.0
  {
    if frequency == targetFrequency then price
    else
      match targetFrequency
      case Y => price * 12.0
      case M => price / 12.0
  }

  /** Converting to a frequency and back returns the price exactly. */
  lemma GetTargetFrequencyPriceRoundTrip(price: real, f: Frequency, g: Frequency)
    ensures GetTargetFrequencyPrice(GetTargetFrequencyPrice(price, f, g), g, f) == price
  {
  }
}
