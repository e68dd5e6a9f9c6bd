# QuotesAdapter layout model

This project models the list layout of the Adzerk Android SDK sample app. Its
`MainPresenter.QuotesAdapter` feeds a scrolling list that mixes quotes from a
quote generator with sponsored ad rows. The model covers four things:

- which rows are ads (`getItemViewType`);
- how many rows the list reports (`getItemCount`);
- which quote a content row binds (`position - position / adModulus`);
- which view holder the factory builds for a view type (`onCreateViewHolder`).

It also covers the ad row's holder: a mutable click-through url, the texts
the holder shows when an ad arrives, and the click event it posts.

Modules:

- `JavaInts` covers Java `int` semantics. The range of `int` is explicit.
  A sum that overflows wraps modulo 2^32 (`WrapInt32`). `/` and `%` truncate
  toward zero (`Div`, `Rem`).
- `QuotesAdapter` holds the adapter's operations as functions of its
  generator and modulus. `adModulus` is any Java `int`. The generator is
  reduced to its count and its quote accessor. The `sdk` field is used only on
  the ad-request path, which is left out.
- `QuoteLayout` holds what the layout guarantees. `ContentRowsBelow(m, p)`
  counts the content rows above row `p` and is the reference the quote index
  is compared with.
- `AdViewHolder` is the ad row's holder as a class with a `clickUrl` field.
  The app's event bus is a class whose state is the log of posted events.

Positions are `nat`. The list only asks about rows `0 <= p < getItemCount()`,
and `getItemCount()` is itself a Java `int`. So `p + 1` never overflows and is
modelled on unbounded integers. Lemmas that take a position not known to be
below the item count require `p <= Int32Max`, because a Java position is an
`int`.

Two sums can overflow, and the model wraps both as Java does:

- `getItemCount`'s sum, when the generator is huge. The wrapped count is
  negative, so the list then has no rows. The properties about rows of the
  list assume `ItemCountFits`, which therefore excludes no row.
- The quote index `p - p / adModulus`, when the modulus is negative. Then the
  index is `p + p / |m|` (`QuotePosition`, `NegativeModulusIndexWraps`). For a
  positive modulus it lies in `[0, p]` and cannot overflow.

The code does not promise that every quote is shown. `getItemCount` reserves
`n / m` ad rows, but `getItemViewType` can place more ads inside that range.
With 9 quotes and modulus 5, rows 4 and 9 are ads and quote 8 never appears.
For a positive modulus, the lemmas state what the code does guarantee:

- every bound index is below `n`;
- indexes strictly increase down the list;
- the shown quotes are exactly the first `ContentRowCount` ones.

With the sample's own constants (20 quotes, modulus 5), every quote appears.

## Model

| member | source | states |
|---|---|---|
| `JavaInts.WrapInt32` | sample/src/main/java/com/adzerk/android/sdk/sample/MainPresenter.java:184 | the `int` result of `+=` is congruent to the true sum modulo 2^32 and equals it when the sum is in range |
| `JavaInts.Div` | sample/src/main/java/com/adzerk/android/sdk/sample/MainPresenter.java:101 | Java `/` on a non-negative dividend leaves a remainder in `[0, abs(b))`, has the divisor's sign, and agrees with Euclidean division for a positive divisor |
| `JavaInts.Rem` | sample/src/main/java/com/adzerk/android/sdk/sample/MainPresenter.java:202 | Java `%` is what `Div` leaves over, lies in `[0, abs(b))`, and agrees with Euclidean `%` for a positive divisor |
| `QuotesAdapter.ItemViewType` | sample/src/main/java/com/adzerk/android/sdk/sample/MainPresenter.java:190-203 | the view type is always 1 or 2; row 0 and every row with modulus 0 are content |
| `QuotesAdapter.ItemCount` | sample/src/main/java/com/adzerk/android/sdk/sample/MainPresenter.java:181-187 | the row count is `n` for a modulus of at most 1; for a larger modulus it is `n + n/m` whenever that sum fits in an `int`; while it fits the count is never below `n`, and once the sum wraps the count is negative |
| `QuotesAdapter.QuotePosition` | sample/src/main/java/com/adzerk/android/sdk/sample/MainPresenter.java:101 | the quote index fails with a divide-by-zero exactly when the modulus is 0; for a positive modulus it lies in `[0, position]`; for a negative modulus it is at least the position or, once the `int` wraps, negative |
| `QuotesAdapter.BindContent` | sample/src/main/java/com/adzerk/android/sdk/sample/MainPresenter.java:98-106 | binding a content row raises the divide-by-zero exactly when the modulus is 0; its partner `BindContentShowsRank` says which quote a successful bind reads |
| `QuoteLayout.BindContentShowsRank` | sample/src/main/java/com/adzerk/android/sdk/sample/MainPresenter.java:96-106 | for a positive modulus, binding a content row of the list reads the generator's quote at the row's rank among content rows, and that rank is below the generator's count |
| `QuotesAdapter.CreateViewHolder` | sample/src/main/java/com/adzerk/android/sdk/sample/MainPresenter.java:83-92 | type 1 gives a content holder and only type 1 does; type 2 gives an ad holder and only type 2 does; anything else is `IllegalArgumentException("Unsupported view type")` |
| `QuoteLayout.AdPlacement` | sample/src/main/java/com/adzerk/android/sdk/sample/MainPresenter.java:190-203 | a row is an ad iff (modulus 1 and row > 0) or (modulus >= 2 and `(p + 1) % m == 0`) or (negative modulus, row > 0 and its magnitude divides `p + 1`) |
| `QuoteLayout.AdRowsNotAdjacent` | sample/src/main/java/com/adzerk/android/sdk/sample/MainPresenter.java:202 | with modulus >= 2 no two consecutive rows are both ads |
| `QuoteLayout.OneAdPerBlock` | sample/src/main/java/com/adzerk/android/sdk/sample/MainPresenter.java:202 | with modulus m >= 2, in the block of rows `k*m .. k*m + m - 1` exactly the last row is an ad |
| `QuoteLayout.ReportedViewTypesAreCreatable` | sample/src/main/java/com/adzerk/android/sdk/sample/MainPresenter.java:83-92 | the factory never fails on a type the adapter reports, and it builds the ad holder exactly for ad rows |
| `QuoteLayout.ContentRowsBelowFormula` | sample/src/main/java/com/adzerk/android/sdk/sample/MainPresenter.java:202 | with modulus m >= 2 the number of content rows above row p is `p - p / m` |
| `QuoteLayout.ContentRowsBelowModulusOne` | sample/src/main/java/com/adzerk/android/sdk/sample/MainPresenter.java:197-199 | with modulus 1 only row 0 is content |
| `QuoteLayout.ContentRowsBelowModulusZero` | sample/src/main/java/com/adzerk/android/sdk/sample/MainPresenter.java:191-194 | with modulus 0 every row is content |
| `QuoteLayout.QuotePositionIsRank` | sample/src/main/java/com/adzerk/android/sdk/sample/MainPresenter.java:101 | for a positive modulus a content row binds the quote whose index is the number of content rows above it, so the ad predicate and the index formula agree |
| `QuoteLayout.QuotePositionStrictlyIncreasing` | sample/src/main/java/com/adzerk/android/sdk/sample/MainPresenter.java:101 | for a positive modulus a later content row binds a strictly larger quote index, so no quote is shown twice |
| `QuoteLayout.ContentRowCountBound` | sample/src/main/java/com/adzerk/android/sdk/sample/MainPresenter.java:181-187 | the list's content rows never outnumber the quotes; with modulus m >= 2 they are as many iff `(n + n/m) / m == n / m` |
| `QuoteLayout.QuotePositionInRange` | sample/src/main/java/com/adzerk/android/sdk/sample/MainPresenter.java:101 | for a positive modulus every content row below `getItemCount()` binds a quote index in `[0, n)` |
| `QuoteLayout.EveryRankIsBound` | sample/src/main/java/com/adzerk/android/sdk/sample/MainPresenter.java:101 | for a positive modulus, every index below the number of content rows among the first `rows` rows is bound by one of those rows |
| `QuoteLayout.ShownQuotesArePrefix` | sample/src/main/java/com/adzerk/android/sdk/sample/MainPresenter.java:181-187 | for a positive modulus, quote k is bound by some row of the list iff k is below the list's content-row count |
| `QuoteLayout.SampleConfigurationShowsEveryQuote` | sample/src/main/java/com/adzerk/android/sdk/sample/MainPresenter.java:38-51 | the sample's 20 quotes with modulus 5 give 24 rows, and every quote is shown |
| `QuoteLayout.LastQuoteCanBeHidden` | sample/src/main/java/com/adzerk/android/sdk/sample/MainPresenter.java:181-187 | 9 quotes with modulus 5 give 10 rows with ads at 4 and 9, so only 8 quotes show and quote 8 is never bound |
| `QuoteLayout.ItemCountWraps` | sample/src/main/java/com/adzerk/android/sdk/sample/MainPresenter.java:184 | 2^31 - 1 quotes with modulus 2 overflow the sum, giving a negative row count |
| `QuoteLayout.NoAdsModulusCannotBind` | sample/src/main/java/com/adzerk/android/sdk/sample/MainPresenter.java:96-101 | with modulus 0 the list has n content rows, yet binding row 0 raises a divide-by-zero |
| `QuoteLayout.IntendedQuotePosition` | sample/src/main/java/com/adzerk/android/sdk/sample/MainPresenter.java:191-194 | with modulus 0 the corrected index of row p is the number of content rows above it (every row is content) |
| `QuoteLayout.IntendedQuotePositionInRange` | sample/src/main/java/com/adzerk/android/sdk/sample/MainPresenter.java:191-194 | with the corrected index, every non-negative modulus including 0 binds each content row to its rank, which lies in `[0, n)` |
| `QuoteLayout.NegativeModulusOverrunsQuotes` | sample/src/main/java/com/adzerk/android/sdk/sample/MainPresenter.java:74-78 | the constructor accepts a negative modulus: with -2 and 5 quotes, content row 4 binds quote 6, beyond the generator |
| `QuoteLayout.NegativeModulusIndexWraps` | sample/src/main/java/com/adzerk/android/sdk/sample/MainPresenter.java:101 | with modulus -2 and 2^31 - 1 quotes, content row 2,000,000,000 computes index 3,000,000,000, which wraps to -1,294,967,296 |
| `AdViewHolder.EventBus.Post` | sample/src/main/java/com/adzerk/android/sdk/sample/MainPresenter.java:256 | posting an event appends exactly that event to the bus's log |
| `AdViewHolder.AdQuoteText` | sample/src/main/java/com/adzerk/android/sdk/sample/MainPresenter.java:131-137 | the ad's quote field shows the "quote" custom data when present, else "Quote unavailable" |
| `AdViewHolder.ClickEvents` | sample/src/main/java/com/adzerk/android/sdk/sample/MainPresenter.java:254-258 | a click posts at most one event; it posts one iff a url is set, and that event carries the url |
| `AdViewHolder.Holder.constructor` | sample/src/main/java/com/adzerk/android/sdk/sample/MainPresenter.java:234-247 | a new ad holder has no click-through url |
| `AdViewHolder.Holder.SetClickUrl` | sample/src/main/java/com/adzerk/android/sdk/sample/MainPresenter.java:249-251 | the url is replaced and the shown texts are unchanged |
| `AdViewHolder.Holder.OnClick` | sample/src/main/java/com/adzerk/android/sdk/sample/MainPresenter.java:253-258 | the bus log grows by exactly `ClickEvents(clickUrl)` |
| `AdViewHolder.Holder.ShowAd` | sample/src/main/java/com/adzerk/android/sdk/sample/MainPresenter.java:116-138 | on a successful ad response the holder stores the decision's click url, shows the title, and shows the custom-data quote or the placeholder |
| `AdViewHolder.ClickBeforeAndAfterUrl` | sample/src/main/java/com/adzerk/android/sdk/sample/MainPresenter.java:246-257 | a fresh holder's click posts nothing; after its url is set, a click posts exactly the one event carrying that url |
| `AdViewHolder.ClickAfterAdWithoutUrl` | sample/src/main/java/com/adzerk/android/sdk/sample/MainPresenter.java:121-137 | an ad shown with no click-through url posts nothing when clicked and still shows its quote text |

## Findings

| source | as written | input that shows it | evidently intended | confidence | as-written member | corrected member |
|---|---|---|---|---|---|---|
| sample/src/main/java/com/adzerk/android/sdk/sample/MainPresenter.java:101 | a content row's quote index is `position - position / adModulus`, even with `adModulus == 0`, which lines 191-193 describe as "never show ads" | `adModulus = 0` with at least one quote, binding row 0: `ArithmeticException` (/ by zero) | with no ads a row's quote index is the row itself | medium; not executed | `QuoteLayout.NoAdsModulusCannotBind` | `QuoteLayout.IntendedQuotePositionInRange` |

## Left out

- Android widgets, layout inflation, `RecyclerView` plumbing and view binding are framework glue. The factory returns which holder kind it builds. Content binding returns the quote it reads, not the text views it sets.
- The ad SDK request, its response parsing and its error callback are calls into a library that is not part of this model. This includes `getDecision`, taking the first content item, the click url and impression firing. Only the success path's effect on the holder is modelled, with the click url, title and custom-data quote as parameters (`Holder.ShowAd`).
- Image loading for head shots and ad images is an asynchronous foreign library. The impression it fires on success is left out with it.
- The event bus and `OnAdClick`'s launching of a browser intent are platform I/O. Posting is modelled as appending to `EventBus.posted`.
- Outline clipping on newer Android versions and the debug logging are presentation only.
- The quote generator's internals are not modelled: it is a count and an accessor. What `getQuote` does with an out-of-range index is not modelled either, because that code is not part of this model.
- The order in which asynchronous ad responses reach a recycled holder is not modelled. Each `ShowAd` call is one response arriving.
- The ad case in `onBindViewHolder` falls through to the `default` case. That case only breaks, so it has no effect to model.
- The item count's overflow is modelled. A wrapped count is negative (`ItemCount`), so the list then has no rows, and the `ItemCountFits` assumption of the properties about rows of the list excludes no row. With the sample's 20 quotes it always holds.
- A negative `adModulus` is modelled with Java's truncating division and `int` wrap-around. Two examples show the breakage: `NegativeModulusOverrunsQuotes` (an index past the quotes) and `NegativeModulusIndexWraps` (a negative index). No general property is stated, because the code gives a negative modulus no meaningful layout. What `getQuote` returns for such an index is not modelled.
