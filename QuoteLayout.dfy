/** What the adapter's layout arithmetic guarantees: where the ad rows are,
    that the quote index of a content row is the number of content rows above
    it, that it stays below the generator's count, and which quotes the list
    shows at all. Everything here is stated over the functions of
    `QuotesAdapter`; `ContentRowsBelow` is the independent reference the
    quote index is compared with. */
module QuoteLayout {
  import opened JavaInts
  import opened QuotesAdapter

  // ---------------------------------------------------------------------
  // Euclidean division facts

  /** Multiplying by a positive `m` preserves strict order, in reverse. */
  lemma MulCancelLess(x: int, y: int, m: int)
    requires m > 0 && x * m < y * m
    ensures x < y
  {
    if y <= x {
      MulMonotone(y, x, m);
    }
  }

  lemma DivModUnique(a: nat, m: int, q: int, r: int)
    requires m > 0 && 0 <= r < m && a == q * m + r
    ensures a / m == q && a % m == r
  {
    var q', r' := a / m, a % m;
    assert a == q' * m + r';
    // q * m and q' * m both lie in (a - m, a], so neither quotient exceeds the other.
    assert q' * m < (q + 1) * m;
    MulCancelLess(q', q + 1, m);
    assert q * m < (q' + 1) * m;
    MulCancelLess(q, q' + 1, m);
  }

  /** Stepping from `p` to `p + 1` raises `p / m` by one exactly when
      `p + 1` is a multiple of `m`. */
  lemma DivStep(p: nat, m: int)
    requires m >= 1
    ensures (p + 1) / m == p / m + (if (p + 1) % m == 0 then 1 else 0)
  {
    var q, r := p / m, p % m;
    assert p == q * m + r;
    if r == m - 1 {
      DivModUnique(p + 1, m, q + 1, 0);
    } else {
      DivModUnique(p + 1, m, q, r + 1);
    }
  }

  lemma DivMonotone(a: nat, b: nat, m: int)
    requires m > 0 && a <= b
    ensures a / m <= b / m
  {
    var qa, qb := a / m, b / m;
    assert a == qa * m + a % m;
    assert b == qb * m + b % m;
    assert qa * m < (qb + 1) * m;
    MulCancelLess(qa, qb + 1, m);
  }

  // ---------------------------------------------------------------------
  // Where the ads are

  /** `getItemViewType` in closed form: with modulus 1 every row but the
      first is an ad; with a modulus of 2 or more row `p` is an ad exactly
      when `p + 1` is a multiple of the modulus (so the first row never is);
      a negative modulus acts through its magnitude, except on the first row. */
  lemma AdPlacement(m: Int32, p: nat)
    ensures IsAdRow(m, p) <==>
      (m == 1 && p > 0) ||
      (m >= 2 && (p + 1) % m == 0) ||
      (m < 0 && p > 0 && (p + 1) % Abs(m) == 0)
  {
    if m >= 2 && p == 0 {
      DivModUnique(1, m, 0, 1);
    }
  }

  /** With a modulus of 2 or more, no two ad rows are adjacent. */
  lemma AdRowsNotAdjacent(m: Int32, p: nat)
    requires m >= 2
    ensures !(IsAdRow(m, p) && IsAdRow(m, p + 1))
  {
    AdPlacement(m, p);
    AdPlacement(m, p + 1);
    if (p + 1) % m == 0 {
      var q := (p + 1) / m;
      assert p + 1 == q * m;
      DivModUnique(p + 2, m, q, 1);
    }
  }

  /** With a modulus `m` of 2 or more, each block of `m` rows starting at a
      multiple of `m` holds exactly one ad, in its last row. */
  lemma OneAdPerBlock(m: Int32, k: nat, j: nat)
    requires m >= 2 && j < m
    ensures IsAdRow(m, k * m + j) <==> j == m - 1
  {
    AdPlacement(m, k * m + j);
    if j == m - 1 {
      DivModUnique(k * m + j + 1, m, k + 1, 0);
    } else {
      DivModUnique(k * m + j + 1, m, k, j + 1);
    }
  }

  /** Every view type the adapter reports is one its factory can build, and
      the factory builds the matching holder. */
  lemma ReportedViewTypesAreCreatable(m: Int32, p: nat)
    ensures CreateViewHolder(ItemViewType(m, p)).Ok?
    ensures CreateViewHolder(ItemViewType(m, p)).value == if IsAdRow(m, p) then AdHolder else ContentHolder
  {
  }

  // ---------------------------------------------------------------------
  // Counting content rows: the reference for the quote index

  /** The number of content rows among positions `0 .. p - 1`. */
  function ContentRowsBelow(m: Int32, p: nat): (c: nat)
    ensures c <= p
  {
    if p == 0 then 0
    else ContentRowsBelow(m, p - 1) + (if IsContentRow(m, p - 1) then 1 else 0)
  }

  lemma {:induction false} ContentRowsBelowMonotone(m: Int32, p1: nat, p2: nat)
    requires p1 <= p2
    ensures ContentRowsBelow(m, p1) <= ContentRowsBelow(m, p2)
    decreases p2
  {
    if p1 < p2 {
      ContentRowsBelowMonotone(m, p1, p2 - 1);
    }
  }

  /** For a modulus of 2 or more, `p - p / m` counts the content rows above
      row `p`: each of the `p / m` ad rows above it is skipped. */
  lemma {:induction false} ContentRowsBelowFormula(m: Int32, p: nat)
    requires m >= 2
    ensures ContentRowsBelow(m, p) == p - p / m
    decreases p
  {
    if p > 0 {
      ContentRowsBelowFormula(m, p - 1);
      DivStep(p - 1, m);
      AdPlacement(m, p - 1);
    }
  }

  /** A modulus of 1 leaves only the first row as content. */
  lemma {:induction false} ContentRowsBelowModulusOne(p: nat)
    ensures ContentRowsBelow(1, p) == if p == 0 then 0 else 1
    decreases p
  {
    if p > 1 {
      ContentRowsBelowModulusOne(p - 1);
    }
  }

  /** A modulus of 0 makes every row content. */
  lemma {:induction false} ContentRowsBelowModulusZero(p: nat)
    ensures ContentRowsBelow(0, p) == p
    decreases p
  {
    if p > 0 {
      ContentRowsBelowModulusZero(p - 1);
    }
  }

  // ---------------------------------------------------------------------
  // The quote index of a content row

  /** For a positive modulus, the quote a content row binds is the one whose
      index is the number of content rows above it: the ad predicate and the
      `position - position / adModulus` formula agree. */
  lemma QuotePositionIsRank(m: Int32, p: nat)
    requires m >= 1 && p <= Int32Max && IsContentRow(m, p)
    ensures QuotePosition(m, p) == Ok(ContentRowsBelow(m, p))
  {
    if m == 1 {
      assert p == 0;
    } else {
      ContentRowsBelowFormula(m, p);
    }
  }

  /** For a positive modulus, successive content rows bind strictly
      increasing quote indexes, so no quote is shown twice. */
  lemma QuotePositionStrictlyIncreasing(m: Int32, p1: nat, p2: nat)
    requires m >= 1 && p1 < p2 <= Int32Max
    requires IsContentRow(m, p1) && IsContentRow(m, p2)
    ensures QuotePosition(m, p1).value < QuotePosition(m, p2).value
  {
    QuotePositionIsRank(m, p1);
    QuotePositionIsRank(m, p2);
    ContentRowsBelowMonotone(m, p1 + 1, p2);
  }

  /** The content rows the list has (when the item count does not wrap). */
  function ContentRowCount(n: Count, m: Int32): nat
    requires ItemCountFits(n, m)
  {
    ContentRowsBelow(m, ItemCount(n, m))
  }

  /** For a positive modulus, the list never has more content rows than the
      generator has quotes; with a modulus of 2 or more it has exactly as
      many when the ad rows `getItemCount` adds equal the ad rows
      `getItemViewType` places. */
  lemma ContentRowCountBound(n: Count, m: Int32)
    requires m >= 1 && ItemCountFits(n, m)
    ensures ContentRowCount(n, m) <= n
    ensures m >= 2 ==> (ContentRowCount(n, m) == n <==> (n + n / m) / m == n / m)
  {
    var c := ItemCount(n, m);
    if m == 1 {
      ContentRowsBelowModulusOne(c);
    } else {
      ContentRowsBelowFormula(m, c);
      DivMonotone(n, c, m);
    }
  }

  /** For a positive modulus, every content row of the list binds a quote
      index inside the generator's range `[0, count)`. */
  lemma QuotePositionInRange(n: Count, m: Int32, p: nat)
    requires m >= 1 && ItemCountFits(n, m)
    requires p < ItemCount(n, m) && IsContentRow(m, p)
    ensures QuotePosition(m, p).Ok? && QuotePosition(m, p).value < n
  {
    QuotePositionIsRank(m, p);
    ContentRowsBelowMonotone(m, p + 1, ItemCount(n, m));
    ContentRowCountBound(n, m);
  }

  /** For a positive modulus, binding a content row of the list reads the
      generator's quote whose index is the row's rank among content rows, an
      index inside the generator's range. */
  lemma BindContentShowsRank(g: Generator, m: Int32, p: nat)
    requires m >= 1 && ItemCountFits(g.count, m)
    requires p < ItemCount(g.count, m) && IsContentRow(m, p)
    ensures ContentRowsBelow(m, p) < g.count
    ensures BindContent(g, m, p) == Ok(g.getQuote(ContentRowsBelow(m, p)))
  {
    QuotePositionIsRank(m, p);
    QuotePositionInRange(g.count, m, p);
  }

  /** Whether some content row of the list binds quote `k`. */
  predicate QuoteIsShown(n: Count, m: Int32, k: nat)
    requires ItemCountFits(n, m)
  {
    exists p: nat :: p < ItemCount(n, m) && IsContentRow(m, p) && QuotePosition(m, p) == Ok(k)
  }

  lemma {:induction false} EveryRankIsBound(m: Int32, rows: nat, k: nat)
    requires m >= 1 && rows <= Int32Max && k < ContentRowsBelow(m, rows)
    ensures exists p: nat :: p < rows && IsContentRow(m, p) && QuotePosition(m, p) == Ok(k)
    decreases rows
  {
    if k < ContentRowsBelow(m, rows - 1) {
      EveryRankIsBound(m, rows - 1, k);
    } else {
      QuotePositionIsRank(m, rows - 1);
    }
  }

  /** For a positive modulus, the quotes the list shows are exactly the first
      `ContentRowCount` ones: each of them on some content row, no other. */
  lemma ShownQuotesArePrefix(n: Count, m: Int32, k: nat)
    requires m >= 1 && ItemCountFits(n, m)
    ensures QuoteIsShown(n, m, k) <==> k < ContentRowCount(n, m)
  {
    var c := ItemCount(n, m);
    if QuoteIsShown(n, m, k) {
      var p: nat :| p < c && IsContentRow(m, p) && QuotePosition(m, p) == Ok(k);
      QuotePositionIsRank(m, p);
      ContentRowsBelowMonotone(m, p + 1, c);
    }
    if k < ContentRowCount(n, m) {
      EveryRankIsBound(m, c, k);
    }
  }

  /** In the sample configuration (20 quotes, modulus 5) the list has 24 rows
      and every quote is shown. */
  lemma SampleConfigurationShowsEveryQuote()
    ensures ItemCountFits(VikingCount, AdModulus)
    ensures ItemCount(VikingCount, AdModulus) == 24
    ensures forall k: nat :: k < VikingCount ==> QuoteIsShown(VikingCount, AdModulus, k)
  {
    ContentRowCountBound(VikingCount, AdModulus);
    forall k: nat | k < VikingCount
      ensures QuoteIsShown(VikingCount, AdModulus, k)
    {
      ShownQuotesArePrefix(VikingCount, AdModulus, k);
    }
  }

  /** Not every quote need be shown: with 9 quotes and modulus 5 the list has
      10 rows, of which rows 4 and 9 are ads, and quote 8 is never bound. */
  lemma LastQuoteCanBeHidden()
    ensures ItemCountFits(9, 5) && ItemCount(9, 5) == 10
    ensures IsAdRow(5, 4) && IsAdRow(5, 9)
    ensures ContentRowCount(9, 5) == 8
    ensures !QuoteIsShown(9, 5, 8)
  {
    ContentRowsBelowFormula(5, 10);
    ShownQuotesArePrefix(9, 5, 8);
  }

  // ---------------------------------------------------------------------
  // The item count

  /** For a huge generator the sum wraps: 2^31 - 1 quotes with modulus 2
      give a negative item count. */
  lemma ItemCountWraps()
    ensures !ItemCountFits(Int32Max, 2)
    ensures ItemCount(Int32Max, 2) == -1073741826
  {
    assert Int32Max / 2 == 0x3FFF_FFFF;
  }

  // ---------------------------------------------------------------------
  // A modulus of 0: "never show ads"

  /** As written, a modulus of 0 lays out a list of content rows only, yet
      binding even its first row divides by zero. */
  lemma NoAdsModulusCannotBind(g: Generator)
    requires g.count >= 1
    ensures ItemCount(g.count, 0) == g.count
    ensures forall p: nat :: p < g.count ==> IsContentRow(0, p)
    ensures BindContent(g, 0, 0) == Err(DivideByZero)
  {
  }

  /** The quote index the "never show ads" comment calls for: with no ads a
      row's quote is the row itself; any other modulus is as written. */
  function IntendedQuotePosition(m: Int32, p: nat): (i: int)
    ensures m == 0 ==> i == ContentRowsBelow(0, p)
    ensures m != 0 ==> QuotePosition(m, p) == Ok(i)
  {
    if m == 0 then ContentRowsBelowModulusZero(p); p else QuotePosition(m, p).value
  }

  /** With the intended index, a modulus of 0 binds too: for every
      non-negative modulus, a content row's quote is the number of content
      rows above it and lies in the generator's range. */
  lemma IntendedQuotePositionInRange(n: Count, m: Int32, p: nat)
    requires m >= 0 && ItemCountFits(n, m)
    requires p < ItemCount(n, m) && IsContentRow(m, p)
    ensures IntendedQuotePosition(m, p) == ContentRowsBelow(m, p)
    ensures IntendedQuotePosition(m, p) < n
  {
    if m == 0 {
      ContentRowsBelowModulusZero(p);
    } else {
      QuotePositionIsRank(m, p);
      QuotePositionInRange(n, m, p);
    }
  }

  // ---------------------------------------------------------------------
  // A negative modulus

  /** A negative modulus is accepted by the constructor but breaks the
      mapping: with modulus -2 and 5 quotes, content row 4 binds quote 6. */
  lemma NegativeModulusOverrunsQuotes()
    ensures ItemCount(5, -2) == 5
    ensures IsContentRow(-2, 4)
    ensures QuotePosition(-2, 4) == Ok(6)
  {
  }

  /** With a negative modulus the index `p - p / m` is `p + p / |m|`, which
      can leave Java's `int`: with modulus -2 and 2^31 - 1 quotes, content row
      2,000,000,000 computes 3,000,000,000, which wraps to a negative index. */
  lemma NegativeModulusIndexWraps()
    ensures ItemCount(Int32Max, -2) == Int32Max
    ensures IsContentRow(-2, 2_000_000_000)
    ensures QuotePosition(-2, 2_000_000_000) == Ok(-1_294_967_296)
  {
  }
}
