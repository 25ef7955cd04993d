/**
 * The XmlPullParser interface, as far as the change-log parsers use it.
 *
 * The tokenizer behind it is not modelled: its output is given as the sequence
 * of events it reports, starting with the document start. A tokenizer that
 * fails (malformed or truncated input, an I/O error) is a sequence that ends
 * early: asking for the event after the last one throws XmlPullParserException.
 * A well-formed document's sequence ends with its EndDocument event.
 */
module PullParsers {
  import opened Wrappers
  import opened JavaLang

  /** One pull-parser event; an element's attributes are keyed by their name. */
  datatype Event =
    | StartDocument
    | StartTag(name: string, attributes: map<string, string>)
    | Text(text: string)
    | EndTag(name: string)
    | EndDocument

  predicate IsStart(e: Event, name: string) {
    e.StartTag? && e.name == name
  }

  /** getAttributeValue(null, name): null (None) when absent or when `e` is no start tag. */
  function AttributeValue(e: Event, name: string): (r: Option<string>)
    ensures r.Some? <==> e.StartTag? && name in e.attributes
    ensures r.Some? ==> r.value == e.attributes[name]
  {
    if e.StartTag? && name in e.attributes then Some(e.attributes[name]) else None
  }

  /** getText(): the characters of a text event, null (None) for any other event. */
  function TextOf(e: Event): (r: Option<string>)
    ensures r.Some? <==> e.Text?
    ensures r.Some? ==> r.value == e.text
  {
    if e.Text? then Some(e.text) else None
  }

  /** The outcome of `next()` at position `i`: the position it moves to, or the error it throws. */
  function NextPos(events: seq<Event>, i: nat): (r: Result<nat, Exception>)
    ensures r.Success? <==> i + 1 < |events|
    ensures r.Success? ==> r.value == i + 1
    ensures r.Failure? ==> r.error == XmlPullParserException
  {
    if i + 1 < |events| then Success(i + 1) else Failure(XmlPullParserException)
  }

  /** A parser positioned on one event of its stream. */
  class PullParser {
    const events: seq<Event>
    var pos: nat

    ghost predicate Valid()
      reads this
    {
      pos < |events|
    }

    /** A fresh parser stands on the first event (the document start). */
    constructor (events: seq<Event>)
      requires |events| > 0
      ensures Valid() && this.events == events && pos == 0
    {
      this.events := events;
      pos := 0;
    }

    /** getEventType(), getName() and friends all read the current event. */
    function Current(): Event
      reads this
      requires Valid()
    {
      events[pos]
    }

    /** next(): moves to the following event and reports it, or throws at the end of the stream. */
    method Next() returns (r: Result<Event, Exception>)
      requires Valid()
      modifies this
      ensures Valid()
      ensures NextPos(events, old(pos)).Success? ==> pos == old(pos) + 1 && r == Success(events[pos])
      ensures NextPos(events, old(pos)).Failure? ==> pos == old(pos) && r == Failure(XmlPullParserException)
    {
      if pos + 1 < |events| {
        pos := pos + 1;
        r := Success(events[pos]);
      } else {
        r := Failure(XmlPullParserException);
      }
    }
  }
}
