/** The list-layout rules of the sample app's `QuotesAdapter`: a list of
    quotes with an ad row after every `adModulus - 1` content rows. The
    adapter is fixed once constructed (a generator of quotes and the ad
    modulus), so its operations are functions of those two values; the
    generator is reduced to its count and its quote accessor. */
module QuotesAdapter {
  import opened JavaInts

  /** The two view types the adapter reports to the list. */
  const ContentCardViewType: int := 1
  const AdCardViewType: int := 2

  /** The sample configuration: 20 quotes, an ad in every fifth row. */
  const VikingCount: int := 20
  const AdModulus: int := 5

  /** The message of the exception the view-holder factory throws. */
  const UnsupportedViewTypeMessage: string := "Unsupported view type"

  /** A generator's item count is a Java `int` that is never negative. */
  type Count = n: nat | n <= Int32Max

  datatype Quote = Quote(name: string, text: string, url: string)

  /** The quote generator, seen from the adapter: how many quotes it has and
      the quote at an index. What it does with an index outside
      `[0, count)` is not part of this model. */
  datatype Generator = Generator(count: Count, getQuote: int -> Quote)

  /** The two view-holder classes the factory can build. */
  datatype HolderKind = ContentHolder | AdHolder

  /** The exceptions the adapter's own code can raise. */
  datatype AdapterError =
    | IllegalArgument(message: string)  // unknown view type
    | DivideByZero                      // `x / 0` on Java `int`

  datatype Result<T> = Ok(value: T) | Err(error: AdapterError)

  /** `getItemViewType(position)`: the first row and every row of a list
      without ads show content; with a modulus of 1 every row but the first is
      an ad;
      otherwise the row is an ad exactly when `position + 1` is a multiple of
      the modulus. */
  function ItemViewType(adModulus: Int32, position: nat): (t: int)
    ensures t == ContentCardViewType || t == AdCardViewType
    ensures position == 0 ==> t == ContentCardViewType
    ensures adModulus == 0 ==> t == ContentCardViewType
  {
    if position == 0 || adModulus == 0 then ContentCardViewType
    else if adModulus == 1 then AdCardViewType
    else if Rem(position + 1, adModulus) == 0 then AdCardViewType
    else ContentCardViewType
  }

  predicate IsAdRow(adModulus: Int32, position: nat) {
    ItemViewType(adModulus, position) == AdCardViewType
  }

  predicate IsContentRow(adModulus: Int32, position: nat) {
    ItemViewType(adModulus, position) == ContentCardViewType
  }

  /** `getItemCount()`: the quotes plus, when the modulus exceeds 1,
      `count / adModulus` ad rows; the sum is accumulated in a Java `int`.
      While the sum fits the list has at least one row per quote; once it
      wraps the count is negative, so the list has no rows at all. */
  function ItemCount(count: Count, adModulus: Int32): (c: Int32)
    ensures adModulus <= 1 ==> c == count
    ensures adModulus > 1 && count + count / adModulus <= Int32Max ==> c == count + count / adModulus
    ensures ItemCountFits(count, adModulus) ==> c >= count
    ensures !ItemCountFits(count, adModulus) ==> c < 0
  {
    if adModulus > 1 then WrapInt32(count + Div(count, adModulus)) else count
  }

  /** Whether the sum in `ItemCount` stays within Java's `int`. */
  predicate ItemCountFits(count: Count, adModulus: Int32) {
    adModulus <= 1 || count + count / adModulus <= Int32Max
  }

  /** The quote index a content row is bound to in `onBindViewHolder`:
      `position - position / adModulus` in Java `int` arithmetic, which
      throws when the modulus is 0. For a positive modulus and any position
      a Java `int` can hold it is an index in `[0, position]`; a negative
      modulus adds instead of subtracting, and the sum can wrap. */
  function QuotePosition(adModulus: Int32, position: nat): (r: Result<Int32>)
    ensures r.Err? <==> adModulus == 0
    ensures r.Err? ==> r.error == DivideByZero
    ensures adModulus > 0 && position <= Int32Max ==> r.Ok? && 0 <= r.value <= position
    ensures adModulus < 0 && position <= Int32Max ==> r.Ok? && (r.value >= position || r.value < 0)
  {
    if adModulus == 0 then Err(DivideByZero)
    else Ok(WrapInt32(position - Div(position, adModulus)))
  }

  /** What binding a content row reads from the generator: the quote at
      `QuotePosition`, or the exception that computing it raises. */
  function BindContent(g: Generator, adModulus: Int32, position: nat): (r: Result<Quote>)
    ensures r.Err? <==> adModulus == 0
  {
    match QuotePosition(adModulus, position)
    case Ok(i) => Ok(g.getQuote(i))
    case Err(e) => Err(e)
  }

  /** `onCreateViewHolder(parent, viewType)`: a content holder for type 1, an
      ad holder for type 2, and an `IllegalArgumentException` otherwise. */
  function CreateViewHolder(viewType: int): (r: Result<HolderKind>)
    ensures r == Ok(ContentHolder) <==> viewType == ContentCardViewType
    ensures r == Ok(AdHolder) <==> viewType == AdCardViewType
    ensures r.Err? ==> r.error == IllegalArgument(UnsupportedViewTypeMessage)
  {
    if viewType == ContentCardViewType then Ok(ContentHolder)
    else if viewType == AdCardViewType then Ok(AdHolder)
    else Err(IllegalArgument(UnsupportedViewTypeMessage))
  }
}
