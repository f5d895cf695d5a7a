/**
 * The record-building and ranking steps of the scraper's `run` (index.ts):
 * every product node's selected texts become a ProductOption with an
 * annualised price, and the records are then ranked by that price, most
 * expensive first.
 *
 * Fetching the page, parsing the HTML and evaluating CSS selectors are not
 * part of this model: each sub-selector's result arrives as an
 * `Option<string>`, the text of the first matching element or `None`.
 */
module Scraper {
  import opened Wrappers
  import opened Utils

  /** What the sub-selectors found inside one product node. */
  datatype ProductNode = ProductNode(
    title: Option<string>,
    description: Option<string>,
    price: Option<string>,
    frequency: Option<string>,
    discount: Option<string>,
    discountFrequency: Option<string>)

  /** The output record. `frequency` and `discount` are optional in the
      source's type, but `run` always sets them; `discountFrequency` is
      `undefined` (here `None`) unless there is a discount. */
  datatype ProductOption = ProductOption(
    title: string,
    description: string,
    price: real,
    annualPrice: real,
    discount: real,
    discountFrequency: Option<Frequency>,
    frequency: Frequency)

  // ---------------------------------------------------------------------------
  // Building one record

  /** `querySelector(selector)?.text || ""`: the selected text, or the empty
      string when nothing was selected. */
  function TextOf(selected: Option<string>): (text: string)
    ensures selected.Some? ==> text == selected.value
    ensures selected.None? ==> text == ""
  {
    selected.GetOr("")
  }

  /** `findPrice(text) || 0`: `findPrice` never yields `NaN`, so `||` only
      replaces `null` (and a price of 0 by the same 0). */
  function PriceOrZero(text: string): (price: real)
    ensures price >= 0.0
    ensures FindPrice(text).Some? ==> price == FindPrice(text).value
    ensures !HasMatch(text) ==> price == 0.0
  {
    FindPrice(text).GetOr(0.0)
  }

  /** What every record that `run` builds satisfies. */
  predicate Valid(r: ProductOption) {
    && r.price >= 0.0
    && r.discount >= 0.0
    && (r.discountFrequency.Some? <==> r.discount > 0.0)
    && r.annualPrice == GetTargetFrequencyPrice(r.price, r.frequency, Y)
  }

  /** The body of the loop in `run`: the record one product node yields. */
  function BuildRecord(node: ProductNode): (r: ProductOption)
    ensures Valid(r)
    ensures r.title == TextOf(node.title) && r.description == TextOf(node.description)
    ensures FindPrice(TextOf(node.price)).Some? ==> r.price == FindPrice(TextOf(node.price)).value
    ensures FindPrice(TextOf(node.price)).None? ==> r.price == 0.0
    ensures FindPrice(TextOf(node.discount)).Some? ==> r.discount == FindPrice(TextOf(node.discount)).value
    ensures FindPrice(TextOf(node.discount)).None? ==> r.discount == 0.0
    ensures r.frequency == FindFrequency(TextOf(node.frequency))
    ensures node.frequency.None? ==> r.frequency == M
    ensures node.discount.None? ==> r.discount == 0.0 && r.discountFrequency.None?
    ensures r.discountFrequency.Some? ==> r.discountFrequency.value == FindFrequency(TextOf(node.discountFrequency))
    ensures r.price <= r.annualPrice
  {
    var price := PriceOrZero(TextOf(node.price));
    var frequency := FindFrequency(TextOf(node.frequency));
    var discount := PriceOrZero(TextOf(node.discount));
    var discountFrequency :=
      if discount > 0.0 then Some(FindFrequency(TextOf(node.discountFrequency))) else None;
    ProductOption(
      TextOf(node.title),
      TextOf(node.description),
      price,
      GetTargetFrequencyPrice(price, frequency, Y),
      discount,
      discountFrequency,
      frequency)
  }

  /** The records built from `nodes`, one per node, in node order. */
  ghost function BuiltRecords(nodes: seq<ProductNode>): seq<ProductOption> {
    seq(|nodes|, k requires 0 <= k < |nodes| => BuildRecord(nodes[k]))
  }

  /** The `for` loop of `run`, pushing one record per product node. */
  method BuildRecords(nodes: seq<ProductNode>) returns (records: seq<ProductOption>)
    ensures |records| == |nodes|
    ensures forall k :: 0 <= k < |nodes| ==> records[k] == BuildRecord(nodes[k])
    ensures forall k :: 0 <= k < |records| ==> Valid(records[k])
  {
    records := [];
    for i := 0 to |nodes|
      invariant |records| == i
      invariant forall k :: 0 <= k < i ==> records[k] == BuildRecord(nodes[k])
    {
      records := records + [BuildRecord(nodes[i])];
    }
  }

  // ---------------------------------------------------------------------------
  // Ranking: a stable sort by annual price, most expensive first

  /** Annual prices never increase along `s`. */
  predicate RankedDesc(s: seq<ProductOption>) {
    forall i, j :: 0 <= i < j < |s| ==> s[i].annualPrice >= s[j].annualPrice
  }

  /** The records of `s` whose annual price is `v`, in their order in `s`. */
  function WithAnnualPrice(s: seq<ProductOption>, v: real): seq<ProductOption> {
    if s == [] then []
    else (if s[0].annualPrice == v then [s[0]] else []) + WithAnnualPrice(s[1..], v)
  }

  /** Stable insertion of `x` into a ranked sequence: `x` goes after every
      record whose annual price is at least its own. */
  function Insert(x: ProductOption, s: seq<ProductOption>): (r: seq<ProductOption>)
    ensures multiset(r) == multiset(s) + multiset{x}
  {
    if s == [] || s[0].annualPrice < x.annualPrice then
      [x] + s
    else
      assert s == [s[0]] + s[1..];
      [s[0]] + Insert(x, s[1..])
  }

  /** Insertion keeps a sequence ranked. */
  lemma {:induction false} InsertRanked(x: ProductOption, s: seq<ProductOption>)
    requires RankedDesc(s)
    ensures RankedDesc(Insert(x, s))
  {
    var r := Insert(x, s);
    if s == [] || s[0].annualPrice < x.annualPrice {
      assert r == [x] + s;
      forall p, q | 0 <= p < q < |r|
        ensures r[p].annualPrice >= r[q].annualPrice
      {
        if p == 0 {
          assert r[q] == s[q - 1];
          assert s[0].annualPrice >= s[q - 1].annualPrice;
        } else {
          assert r[p] == s[p - 1] && r[q] == s[q - 1];
        }
      }
    } else {
      var rest := Insert(x, s[1..]);
      InsertRanked(x, s[1..]);
      assert r == [s[0]] + rest;
      forall p, q | 0 <= p < q < |r|
        ensures r[p].annualPrice >= r[q].annualPrice
      {
        if p == 0 {
          InsertBelowHead(x, s, r[q]);
        } else {
          assert r[p] == rest[p - 1] && r[q] == rest[q - 1];
        }
      }
    }
  }

  /** Every record of the insertion past the head is priced no higher than the head. */
  lemma InsertBelowHead(x: ProductOption, s: seq<ProductOption>, y: ProductOption)
    requires RankedDesc(s) && s != [] && s[0].annualPrice >= x.annualPrice
    requires y in Insert(x, s[1..])
    ensures y.annualPrice <= s[0].annualPrice
  {
    assert y in multiset(Insert(x, s[1..]));
    if y != x {
      assert y in multiset(s[1..]);
      var k :| 0 <= k < |s[1..]| && s[1..][k] == y;
      assert s[k + 1] == y;
    }
  }


  /** The elements of a non-empty sequence: those before its last, and its last. */
  lemma MultisetSnoc(s: seq<ProductOption>)
    requires s != []
    ensures multiset(s) == multiset(s[..|s| - 1]) + multiset{s[|s| - 1]}
  {
    assert s == s[..|s| - 1] + [s[|s| - 1]];
  }

  /** The ranking `run` computes: the records by annual price, descending,
      with records of equal annual price in their original order. */
  function Rank(s: seq<ProductOption>): (r: seq<ProductOption>)
    ensures RankedDesc(r)
    ensures multiset(r) == multiset(s)
  {
    if s == [] then []
    else
      var init := Rank(s[..|s| - 1]);
      InsertRanked(s[|s| - 1], init);
      MultisetSnoc(s);
      Insert(s[|s| - 1], init)
  }

  /** The records of a price are records of `s` with that price. */
  lemma {:induction false} WithAnnualPriceMember(s: seq<ProductOption>, v: real, x: ProductOption)
    requires x in WithAnnualPrice(s, v)
    ensures x in s && x.annualPrice == v
  {
    if s[0] != x || s[0].annualPrice != v {
      WithAnnualPriceMember(s[1..], v, x);
    }
  }

  lemma {:induction false} WithAnnualPriceConcat(s: seq<ProductOption>, t: seq<ProductOption>, v: real)
    ensures WithAnnualPrice(s + t, v) == WithAnnualPrice(s, v) + WithAnnualPrice(t, v)
  {
    if s == [] {
      assert s + t == t;
    } else {
      var head := if s[0].annualPrice == v then [s[0]] else [];
      var u := s + t;
      assert u != [] && u[0] == s[0] && u[1..] == s[1..] + t;
      WithAnnualPriceConcat(s[1..], t, v);
      calc {
        WithAnnualPrice(u, v);
        head + WithAnnualPrice(u[1..], v);
        head + (WithAnnualPrice(s[1..], v) + WithAnnualPrice(t, v));
        (head + WithAnnualPrice(s[1..], v)) + WithAnnualPrice(t, v);
        WithAnnualPrice(s, v) + WithAnnualPrice(t, v);
      }
    }
  }


  lemma {:induction false} WithAnnualPriceNone(s: seq<ProductOption>, v: real)
    requires forall k :: 0 <= k < |s| ==> s[k].annualPrice != v
    ensures WithAnnualPrice(s, v) == []
  {
    if s != [] {
      WithAnnualPriceNone(s[1..], v);
    }
  }

  /** Inserting `x` appends it to the records of its own annual price and
      leaves every other price's records as they were. */
  lemma {:induction false} InsertStable(x: ProductOption, s: seq<ProductOption>, v: real)
    requires RankedDesc(s)
    ensures WithAnnualPrice(Insert(x, s), v) == WithAnnualPrice(s, v) + (if x.annualPrice == v then [x] else [])
  {
    if s == [] || s[0].annualPrice < x.annualPrice {
      assert Insert(x, s) == [x] + s;
      InsertFirstStable(x, s, v);
    } else {
      var head, rest := [s[0]], Insert(x, s[1..]);
      assert Insert(x, s) == head + rest;
      var tail := if x.annualPrice == v then [x] else [];
      RankedTail(s);
      calc {
        WithAnnualPrice(head + rest, v);
        { WithAnnualPriceConcat(head, rest, v); }
        WithAnnualPrice(head, v) + WithAnnualPrice(rest, v);
        { InsertStable(x, s[1..], v); }
        WithAnnualPrice(head, v) + (WithAnnualPrice(s[1..], v) + tail);
        { ConcatAssoc(WithAnnualPrice(head, v), WithAnnualPrice(s[1..], v), tail); }
        (WithAnnualPrice(head, v) + WithAnnualPrice(s[1..], v)) + tail;
        { WithAnnualPriceConcat(head, s[1..], v); }
        WithAnnualPrice(head + s[1..], v) + tail;
        { assert head + s[1..] == s; }
        WithAnnualPrice(s, v) + tail;
      }
    }
  }

  lemma ConcatAssoc(a: seq<ProductOption>, b: seq<ProductOption>, c: seq<ProductOption>)
    ensures a + (b + c) == (a + b) + c
  {
  }

  /** The case of InsertStable where `x` goes in front. */
  lemma InsertFirstStable(x: ProductOption, s: seq<ProductOption>, v: real)
    requires RankedDesc(s) && (s == [] || s[0].annualPrice < x.annualPrice)
    ensures WithAnnualPrice([x] + s, v) == WithAnnualPrice(s, v) + (if x.annualPrice == v then [x] else [])
  {
    assert ([x] + s)[1..] == s;
    if x.annualPrice == v && s != [] {
      forall k | 0 <= k < |s|
        ensures s[k].annualPrice != v
      {
        assert s[0].annualPrice >= s[k].annualPrice;
      }
      WithAnnualPriceNone(s, v);
    }
  }

  lemma RankedTail(s: seq<ProductOption>)
    requires RankedDesc(s) && s != []
    ensures RankedDesc(s[1..])
  {
    forall p, q | 0 <= p < q < |s| - 1
      ensures s[1..][p].annualPrice >= s[1..][q].annualPrice
    {
      assert s[1..][p] == s[p + 1] && s[1..][q] == s[q + 1];
    }
  }



  /** Rank is stable: for every annual price, the records with that price
      appear in the same order as in the input. */
  lemma {:induction false} RankStable(s: seq<ProductOption>, v: real)
    ensures WithAnnualPrice(Rank(s), v) == WithAnnualPrice(s, v)
  {
    if s != [] {
      var init, last := s[..|s| - 1], s[|s| - 1];
      calc {
        WithAnnualPrice(Rank(s), v);
        WithAnnualPrice(Insert(last, Rank(init)), v);
        { InsertStable(last, Rank(init), v); }
        WithAnnualPrice(Rank(init), v) + (if last.annualPrice == v then [last] else []);
        { RankStable(init, v); }
        WithAnnualPrice(init, v) + (if last.annualPrice == v then [last] else []);
        { assert WithAnnualPrice([last], v) == (if last.annualPrice == v then [last] else []) + WithAnnualPrice([], v); }
        WithAnnualPrice(init, v) + WithAnnualPrice([last], v);
        { WithAnnualPriceConcat(init, [last], v); }
        WithAnnualPrice(init + [last], v);
        { assert s == init + [last]; }
        WithAnnualPrice(s, v);
      }
    }
  }

  /** Two ranked sequences that agree on the records of every annual price
      are the same sequence. */
  lemma {:induction false} RankedGroupsDetermine(r: seq<ProductOption>, q: seq<ProductOption>)
    requires RankedDesc(r) && RankedDesc(q)
    requires forall v :: WithAnnualPrice(r, v) == WithAnnualPrice(q, v)
    ensures r == q
    decreases |r|
  {
    if r == [] || q == [] {
      if r != [] {
        GroupOfHead(r);
      } else if q != [] {
        GroupOfHead(q);
      }
    } else {
      var top := r[0].annualPrice;
      GroupOfHead(r);
      GroupOfHead(q);
      assert q[0].annualPrice == top by {
        var y := WithAnnualPrice(q, top)[0];
        WithAnnualPriceMember(q, top, y);
        HeadIsMax(q, y);
        var z := WithAnnualPrice(r, q[0].annualPrice)[0];
        WithAnnualPriceMember(r, q[0].annualPrice, z);
        HeadIsMax(r, z);
      }
      assert r[0] == q[0] by {
        assert WithAnnualPrice(r, top) == WithAnnualPrice(q, top);
      }
      forall v
        ensures WithAnnualPrice(r[1..], v) == WithAnnualPrice(q[1..], v)
      {
        var head := if top == v then [r[0]] else [];
        assert WithAnnualPrice(r, v) == head + WithAnnualPrice(r[1..], v);
        assert WithAnnualPrice(q, v) == head + WithAnnualPrice(q[1..], v);
        assert WithAnnualPrice(r[1..], v) == WithAnnualPrice(r, v)[|head|..];
      }
      RankedGroupsDetermine(r[1..], q[1..]);
      assert r == [r[0]] + r[1..] && q == [q[0]] + q[1..];
    }
  }

  /** The first record of a sequence heads the records of its annual price. */
  lemma GroupOfHead(s: seq<ProductOption>)
    requires s != []
    ensures WithAnnualPrice(s, s[0].annualPrice) != []
    ensures WithAnnualPrice(s, s[0].annualPrice)[0] == s[0]
  {
  }

  /** The first record of a ranked sequence has the highest annual price. */
  lemma HeadIsMax(s: seq<ProductOption>, x: ProductOption)
    requires RankedDesc(s) && x in s
    ensures s[0].annualPrice >= x.annualPrice
  {
  }

  /** Rank is the only ranked arrangement that keeps every annual price's
      records in input order: any stable sort by annual price, descending,
      gives exactly Rank(s). */
  lemma RankUnique(s: seq<ProductOption>, r: seq<ProductOption>)
    requires RankedDesc(r)
    requires forall v :: WithAnnualPrice(r, v) == WithAnnualPrice(s, v)
    ensures r == Rank(s)
  {
    forall v
      ensures WithAnnualPrice(r, v) == WithAnnualPrice(Rank(s), v)
    {
      RankStable(s, v);
    }
    RankedGroupsDetermine(r, Rank(s));
  }

  /** Two records: the one with the higher annual price comes first, and on a
      tie they keep their order. */
  lemma RankPair(p: ProductOption, q: ProductOption)
    ensures Rank([p, q]) == if p.annualPrice >= q.annualPrice then [p, q] else [q, p]
  {
    assert [p, q][..1] == [p];
    assert [p][..0] == [];
  }

  /** Where the insertion sort's inner loop stops is where Insert puts `x`. */
  lemma {:induction false} InsertAt(x: ProductOption, t: seq<ProductOption>, j: nat)
    requires j <= |t|
    requires forall m :: 0 <= m < j ==> t[m].annualPrice >= x.annualPrice
    requires forall m :: j <= m < |t| ==> t[m].annualPrice < x.annualPrice
    ensures Insert(x, t) == t[..j] + [x] + t[j..]
  {
    if j == 0 {
      assert t == [] || t[0].annualPrice < x.annualPrice;
      assert t[..0] + [x] + t[0..] == [x] + t;
    } else {
      var u := t[1..];
      assert forall m :: 0 <= m < |u| ==> u[m] == t[m + 1];
      InsertAt(x, u, j - 1);
      InsertPastHead(x, t);
      SpliceAfterHead(x, t, j);
    }
  }

  /** Insert keeps a head whose annual price is at least that of `x`. */
  lemma InsertPastHead(x: ProductOption, t: seq<ProductOption>)
    requires t != [] && t[0].annualPrice >= x.annualPrice
    ensures Insert(x, t) == [t[0]] + Insert(x, t[1..])
  {
  }

  /** Splicing `x` in at `j` after the head is splicing it in at `j` + 1. */
  lemma SpliceAfterHead(x: ProductOption, t: seq<ProductOption>, j: nat)
    requires 0 < j <= |t|
    ensures [t[0]] + (t[1..][..j - 1] + [x] + t[1..][j - 1..]) == t[..j] + [x] + t[j..]
  {
    var u := t[1..];
    calc {
      [t[0]] + (u[..j - 1] + [x] + u[j - 1..]);
      { assert u[..j - 1] == t[1..j] && u[j - 1..] == t[j..]; }
      [t[0]] + (t[1..j] + [x] + t[j..]);
      ([t[0]] + t[1..j]) + [x] + t[j..];
      { assert t[..j] == [t[0]] + t[1..j]; }
      t[..j] + [x] + t[j..];
    }
  }

  /** The array after the inner loop and the final write, as a sequence. */
  lemma PlacedAt(c: seq<ProductOption>, t: seq<ProductOption>, x: ProductOption, j: nat)
    requires j <= |t| && |c| == |t| + 1 && c[j] == x
    requires forall m :: 0 <= m < j ==> c[m] == t[m]
    requires forall m :: j < m < |c| ==> c[m] == t[m - 1]
    ensures c == t[..j] + [x] + t[j..]
  {
    var w := t[..j] + [x] + t[j..];
    forall m | 0 <= m < |c|
      ensures c[m] == w[m]
    {
      if m < j {
        assert w[m] == t[..j][m];
      } else if j < m {
        assert w[m] == t[j..][m - j - 1];
      }
    }
  }

  /** Ranking one more element of `s` inserts it into the ranking so far. */
  lemma RankSnoc(s: seq<ProductOption>, k: nat)
    requires k < |s|
    ensures Rank(s[..k + 1]) == Insert(s[k], Rank(s[..k]))
  {
    assert s[..k + 1][..k] == s[..k];
  }

  /** The inner loop's final state, with `x` written into the gap, is `x`
      inserted into the ranked prefix. */
  lemma FillGap(c: seq<ProductOption>, t: seq<ProductOption>, x: ProductOption, j: nat)
    requires RankedDesc(t) && j <= |t| && |c| == |t| + 1 && c[j] == x
    requires forall m :: 0 <= m < j ==> c[m] == t[m]
    requires forall m :: j < m < |c| ==> c[m] == t[m - 1]
    requires j == 0 || t[j - 1].annualPrice >= x.annualPrice
    requires forall m :: j <= m < |t| ==> t[m].annualPrice < x.annualPrice
    ensures c == Insert(x, t)
  {
    forall m | 0 <= m < j
      ensures t[m].annualPrice >= x.annualPrice
    {
      assert t[m].annualPrice >= t[j - 1].annualPrice;
    }
    InsertAt(x, t, j);
    PlacedAt(c, t, x, j);
  }

  /** The inner loop of the insertion sort: the records before `i` with a
      lower annual price than the record at `i` move one place right, leaving
      a gap at the returned index `j`. */
  method OpenGap(a: array<ProductOption>, i: nat) returns (j: nat)
    requires i < a.Length
    modifies a
    ensures j <= i
    ensures forall m :: 0 <= m < j ==> a[m] == old(a[m])
    ensures forall m :: j < m <= i ==> a[m] == old(a[m - 1])
    ensures forall m :: i < m < a.Length ==> a[m] == old(a[m])
    ensures j == 0 || old(a[j - 1]).annualPrice >= old(a[i]).annualPrice
    ensures forall m :: j <= m < i ==> old(a[m]).annualPrice < old(a[i]).annualPrice
  {
    var x := a[i];
    j := i;
    while 0 < j && a[j - 1].annualPrice < x.annualPrice
      invariant j <= i
      invariant forall m :: 0 <= m < j ==> a[m] == old(a[m])
      invariant forall m :: j < m <= i ==> a[m] == old(a[m - 1])
      invariant forall m :: i < m < a.Length ==> a[m] == old(a[m])
      invariant forall m :: j <= m < i ==> old(a[m]).annualPrice < x.annualPrice
    {
      a[j] := a[j - 1];
      j := j - 1;
    }
  }

  /** One step of the insertion sort: the record at `i` moves left past every
      record of the ranked prefix with a lower annual price, and no further. */
  method InsertInto(a: array<ProductOption>, i: nat)
    requires i < a.Length && RankedDesc(a[..i])
    modifies a
    ensures a[..i + 1] == Insert(old(a[i]), old(a[..i]))
    ensures forall m :: i < m < a.Length ==> a[m] == old(a[m])
  {
    var x := a[i];
    ghost var t := a[..i];
    var j := OpenGap(a, i);
    a[j] := x;
    assert a[..i + 1] == Insert(x, t) by {
      FillGap(a[..i + 1], t, x, j);
    }
  }

  /** `scrapedProductOptions.sort(({ annualPrice: a }, { annualPrice: b }) => b - a)`:
      an in-place stable sort, here by insertion. */
  method SortByAnnualPrice(a: array<ProductOption>)
    modifies a
    ensures a[..] == Rank(old(a[..]))
  {
    ghost var input := a[..];
    var i := 0;
    while i < a.Length
      invariant 0 <= i <= a.Length
      invariant a[..i] == Rank(input[..i])
      invariant forall m :: i <= m < a.Length ==> a[m] == input[m]
    {
      ghost var x := a[i];
      ghost var ranked := a[..i];
      InsertInto(a, i);
      assert a[..i + 1] == Rank(input[..i + 1]) by {
        assert x == input[i] && ranked == Rank(input[..i]);
        RankSnoc(input, i);
      }
      i := i + 1;
    }
    assert a[..] == a[..a.Length] && input == input[..a.Length];
  }

  // ---------------------------------------------------------------------------
  // The pipeline

  /** The core of `run`: build one record per product node, then rank them.
      The result holds exactly the built records, by annual price from the
      highest down, records of equal annual price in node order. */
  method Run(nodes: seq<ProductNode>) returns (ranked: seq<ProductOption>)
    ensures ranked == Rank(BuiltRecords(nodes))
    ensures multiset(ranked) == multiset(BuiltRecords(nodes))
    ensures RankedDesc(ranked)
    ensures forall v :: WithAnnualPrice(ranked, v) == WithAnnualPrice(BuiltRecords(nodes), v)
    ensures forall k :: 0 <= k < |ranked| ==> Valid(ranked[k])
  {
    var records := BuildRecords(nodes);
    assert records == BuiltRecords(nodes);
    var a := new ProductOption[|records|](k requires 0 <= k < |records| => records[k]);
    assert a[..] == records;
    SortByAnnualPrice(a);
    ranked := a[..];
    forall v
      ensures WithAnnualPrice(ranked, v) == WithAnnualPrice(records, v)
    {
      RankStable(records, v);
    }
    forall k | 0 <= k < |ranked|
      ensures Valid(ranked[k])
    {
      assert ranked[k] in multiset(records);
    }
  }
}
