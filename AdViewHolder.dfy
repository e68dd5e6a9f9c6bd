/** The ad row's view holder: what it displays once an ad decision arrives,
    and the click-through event it posts. Java's `null` strings are
    `Option<string>`; the app's event bus is reduced to the log of events
    posted to it. */
module AdViewHolder {

  datatype Option<T> = None | Some(value: T)

  /** What the quote field shows when the ad carries no "quote" custom data. */
  const QuoteUnavailable: string := "Quote unavailable"

  /** The event a click on an ad posts, carrying the click-through url. */
  datatype AdClickEvent = AdClickEvent(url: string)

  /** The text the ad row's quote field shows: the ad content's "quote"
      custom data when it has one, else the fixed placeholder. */
  function AdQuoteText(customQuote: Option<string>): (s: string)
    ensures customQuote.Some? ==> s == customQuote.value
    ensures customQuote.None? ==> s == QuoteUnavailable
  {
    match customQuote
    case Some(q) => q
    case None => QuoteUnavailable
  }

  /** The events one click posts, given the holder's click-through url:
      nothing until a url is set, otherwise exactly one event carrying it. */
  function ClickEvents(clickUrl: Option<string>): (events: seq<AdClickEvent>)
    ensures |events| <= 1
    ensures events != [] <==> clickUrl.Some?
    ensures events != [] ==> events[0].url == clickUrl.value
  {
    if clickUrl.Some? then [AdClickEvent(clickUrl.value)] else []
  }

  /** The app-wide event bus, as the sequence of events posted so far. */
  class EventBus {
    var posted: seq<AdClickEvent>

    constructor ()
      ensures posted == []
    {
      posted := [];
    }

    method Post(e: AdClickEvent)
      modifies this
      ensures posted == old(posted) + [e]
    {
      posted := posted + [e];
    }
  }

  /** The view holder of an ad row. `shownName` and `shownQuote` are the
      texts its two text fields were last set to (`None`: still the
      layout's own text). */
  class Holder {
    var clickUrl: Option<string>
    var shownName: Option<string>
    var shownQuote: Option<string>

    /** A new holder has no click-through url yet. */
    constructor ()
      ensures clickUrl == None
      ensures shownName == None && shownQuote == None
    {
      clickUrl := None;
      shownName := None;
      shownQuote := None;
    }

    method SetClickUrl(url: Option<string>)
      modifies this
      ensures clickUrl == url
      ensures shownName == old(shownName) && shownQuote == old(shownQuote)
    {
      clickUrl := url;
    }

    /** A click posts `ClickEvents(clickUrl)` and changes nothing else. */
    method OnClick(bus: EventBus)
      modifies bus
      ensures bus.posted == old(bus.posted) + ClickEvents(clickUrl)
    {
      if clickUrl.Some? {
        bus.Post(AdClickEvent(clickUrl.value));
      }
    }

    /** The success path of the ad request for this row: store the decision's
        click-through url, show the content's title, and show its "quote"
        custom data or the placeholder. */
    method ShowAd(decisionClickUrl: Option<string>, title: string, customQuote: Option<string>)
      modifies this
      ensures clickUrl == decisionClickUrl
      ensures shownName == Some(title)
      ensures shownQuote == Some(AdQuoteText(customQuote))
    {
      SetClickUrl(decisionClickUrl);
      shownName := Some(title);
      shownQuote := Some(AdQuoteText(customQuote));
    }
  }

  /** A fresh holder clicked before and after its url is set: the first
      click posts nothing, the second exactly the event carrying `url`. */
  method ClickBeforeAndAfterUrl(url: string) returns (beforeSet: seq<AdClickEvent>, afterSet: seq<AdClickEvent>)
    ensures beforeSet == []
    ensures afterSet == [AdClickEvent(url)]
  {
    var bus := new EventBus();
    var holder := new Holder();
    holder.OnClick(bus);
    beforeSet := bus.posted;
    holder.SetClickUrl(Some(url));
    holder.OnClick(bus);
    afterSet := bus.posted[|beforeSet|..];
  }

  /** An ad row whose decision carried no click-through url stays inert:
      clicking it after the ad is shown posts nothing. */
  method ClickAfterAdWithoutUrl(title: string, customQuote: Option<string>) returns (posted: seq<AdClickEvent>, quote: Option<string>)
    ensures posted == []
    ensures quote == Some(AdQuoteText(customQuote))
  {
    var bus := new EventBus();
    var holder := new Holder();
    holder.ShowAd(None, title, customQuote);
    holder.OnClick(bus);
    posted := bus.posted;
    quote := holder.shownQuote;
  }
}
