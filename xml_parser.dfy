/**
 * de.cketti.library.changelog.XmlParser: reads every release of a change-log
 * document into a list, in document order, optionally stopping at the first
 * release that is not newer than a given version code.
 *
 * A stream error is rethrown as IllegalStateException and no list is
 * returned; a NullPointerException (a change without text, a release without
 * a `version`) propagates unchanged.
 */
module XmlParsers {
  import opened Wrappers
  import opened JavaLang
  import opened PullParsers
  import opened LibraryReleaseItems
  import opened ReleaseTags

  /** The catch clause of readChangeLog: stream errors become IllegalStateException, others pass through. */
  function Rethrow(e: Exception): Exception {
    if e == XmlPullParserException then IllegalStateException(e) else e
  }

  /** The early-stop rule for a bound: -1 (NO_VERSION) means no bound at all. */
  function RuleFor(lastVersionCode: Int32): StopRule {
    if lastVersionCode != NO_VERSION then StopAtOrBelow(lastVersionCode) else NoStop
  }

  /** What readChangeLog returns or throws, given where reading ended. */
  function Finish(out: Outcome): Result<seq<LibraryRelease>, Exception> {
    match out.error
    case None => Success(out.releases)
    case Some(e) => Failure(Rethrow(e))
  }

  /** parse(events, lastVersionCode): the list read from the whole stream, or the exception thrown. */
  function ParseLog(events: seq<Event>, lastVersionCode: Int32): Result<seq<LibraryRelease>, Exception>
    requires |events| > 0
  {
    Finish(ReadReleases(events, 0, RuleFor(lastVersionCode), []))
  }

  class XmlParser {
    const xmlPullParser: PullParser
    const lastVersionCode: Int32
    /** The values of the ReleaseItems added to the result list so far. */
    var result: seq<LibraryRelease>

    constructor (xmlPullParser: PullParser, lastVersionCode: Int32)
      ensures this.xmlPullParser == xmlPullParser && this.lastVersionCode == lastVersionCode
      ensures result == []
    {
      this.xmlPullParser := xmlPullParser;
      this.lastVersionCode := lastVersionCode;
      result := [];
    }

    /**
     * parseReleaseTag, on the release start tag: true when reading must stop,
     * false once the release has been appended to `result`.
     */
    method ParseReleaseTag() returns (r: Result<bool, Exception>)
      requires xmlPullParser.Valid() && xmlPullParser.Current().StartTag?
      modifies this, xmlPullParser
      ensures xmlPullParser.Valid()
      ensures match ReleaseTag(xmlPullParser.events, old(xmlPullParser.pos), RuleFor(lastVersionCode))
              case Stop => r == Success(true) && result == old(result) && xmlPullParser.pos == old(xmlPullParser.pos)
              case Parsed(item, j) => r == Success(false) && result == old(result) + [item] && xmlPullParser.pos == j
              case Error(e) => r == Failure(e) && result == old(result)
    {
      var tag := xmlPullParser.Current();
      var version := AttributeValue(tag, ATTRIBUTE_VERSION);
      var versionCode := VersionCodeOf(tag);
      if lastVersionCode != NO_VERSION && versionCode <= lastVersionCode {
        return Success(true);
      }
      var changes := CollectChanges(xmlPullParser);
      if changes.Failure? {
        return Failure(changes.error);
      }
      var list := new StringList.FromSeq(changes.value);
      var release := Create(versionCode, version, Some(list));
      if release.Failure? {
        return Failure(release.error);
      }
      result := result + [release.value.Value()];
      r := Success(false);
    }

    /** readChangeLog: walks the stream from the current event, reading every release tag. */
    method ReadChangeLog() returns (r: Result<seq<LibraryRelease>, Exception>)
      requires xmlPullParser.Valid()
      modifies this, xmlPullParser
      ensures r == Finish(ReadReleases(xmlPullParser.events, old(xmlPullParser.pos), RuleFor(lastVersionCode), old(result)))
    {
      var e := xmlPullParser.Current();
      while !e.EndDocument?
        invariant xmlPullParser.Valid() && e == xmlPullParser.Current()
        invariant ReadReleases(xmlPullParser.events, xmlPullParser.pos, RuleFor(lastVersionCode), result)
                  == ReadReleases(xmlPullParser.events, old(xmlPullParser.pos), RuleFor(lastVersionCode), old(result))
        decreases |xmlPullParser.events| - xmlPullParser.pos
      {
        if IsStart(e, TAG_RELEASE) {
          var stop := ParseReleaseTag();
          if stop.Failure? {
            return Failure(Rethrow(stop.error));
          }
          if stop.value {
            break;
          }
        }
        var n := xmlPullParser.Next();
        if n.Failure? {
          return Failure(Rethrow(n.error));
        }
        e := n.value;
      }
      r := Success(result);
    }
  }

  /** parse(xmlPullParser): every release, however old. */
  method Parse(events: seq<Event>) returns (r: Result<seq<LibraryRelease>, Exception>)
    requires |events| > 0
    ensures r == ParseLog(events, NO_VERSION)
  {
    var p := new PullParser(events);
    var parser := new XmlParser(p, NO_VERSION);
    r := parser.ReadChangeLog();
  }

  /** parse(xmlPullParser, lastVersionCode): the releases before the first one not newer than the bound. */
  method ParseSince(events: seq<Event>, lastVersionCode: Int32) returns (r: Result<seq<LibraryRelease>, Exception>)
    requires |events| > 0
    ensures r == ParseLog(events, lastVersionCode)
  {
    var p := new PullParser(events);
    var parser := new XmlParser(p, lastVersionCode);
    r := parser.ReadChangeLog();
  }

  /** With a bound other than -1, every release returned is newer than the bound. */
  lemma ParseKeepsOnlyNewer(events: seq<Event>, lastVersionCode: Int32)
    requires |events| > 0 && lastVersionCode != NO_VERSION
    ensures ParseLog(events, lastVersionCode).Success? ==>
              forall k :: 0 <= k < |ParseLog(events, lastVersionCode).value| ==>
                ParseLog(events, lastVersionCode).value[k].versionCode > lastVersionCode
  {
    ReadKeepsOnlyNewer(events, 0, RuleFor(lastVersionCode), []);
  }

  /** Every change returned has been cleaned: no whitespace at either end, no whitespace runs. */
  lemma ParseReturnsCleanTexts(events: seq<Event>, lastVersionCode: Int32)
    requires |events| > 0
    ensures ParseLog(events, lastVersionCode).Success? ==> ReleasesClean(ParseLog(events, lastVersionCode).value)
  {
    ReadCollectsCleanTexts(events, 0, RuleFor(lastVersionCode), []);
  }

  /**
   * The exceptions parse can throw: a stream error wrapped in IllegalStateException
   * (and then no list at all), or a NullPointerException.
   */
  lemma ParseErrors(events: seq<Event>, lastVersionCode: Int32)
    requires |events| > 0
    ensures ParseLog(events, lastVersionCode).Failure? ==>
              ParseLog(events, lastVersionCode).error
                in {IllegalStateException(XmlPullParserException), NullPointerException(None),
                    NullPointerException(Some(VERSION_NAME_NULL))}
  {
    ReadErrors(events, 0, RuleFor(lastVersionCode), []);
  }
}
