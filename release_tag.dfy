/**
 * Reading `<release>` elements from a pull-parser event stream.
 *
 * The library XmlParser and the older library ChangeLog share this code
 * line for line: the outer loop that looks for release start tags, the
 * attribute reads with their -1 fallback, the body loop that collects the
 * `<change>` texts, and cleanText. They differ only in the rule that stops
 * reading early (`StopRule`) and in what they do with errors and with the
 * releases they read; those parts live with each caller.
 */
module ReleaseTags {
  import opened Wrappers
  import opened JavaLang
  import opened PullParsers
  import opened ChangeText
  import opened LibraryReleaseItems

  const NO_VERSION: Int32 := -1
  const TAG_RELEASE: string := "release"
  const TAG_CHANGE: string := "change"
  const ATTRIBUTE_VERSION: string := "version"
  const ATTRIBUTE_VERSION_CODE: string := "versioncode"

  /** Integer.parseInt of the `versioncode` attribute, -1 when it is missing or not an int. */
  function VersionCodeOf(e: Event): Int32 {
    match ParseInt(AttributeValue(e, ATTRIBUTE_VERSION_CODE))
    case Some(n) => n
    case None => NO_VERSION
  }

  /** When reading stops at a release: never, or at the first one whose code is at most `bound`. */
  datatype StopRule = NoStop | StopAtOrBelow(bound: int)

  predicate Stops(rule: StopRule, code: int) {
    rule.StopAtOrBelow? && code <= rule.bound
  }

  // ---------------------------------------------------------------------
  // The body of a release
  // ---------------------------------------------------------------------

  /** Where a release body ended (its closing tag) and the changes it held. */
  datatype Body = Body(end: nat, changes: seq<string>)

  /**
   * The body loop from event `i` on, with `acc` collected so far. It ends at
   * the first end tag that is not `</change>`. At a `<change>` start tag the
   * next event's text is cleaned and collected (a non-text event there has
   * no text: cleanText(null) throws), and the event after it is skipped.
   */
  function Scan(ev: seq<Event>, i: nat, acc: seq<string>): (r: Result<Body, Exception>)
    requires i < |ev|
    ensures r.Success? ==> i <= r.value.end < |ev| && ev[r.value.end].EndTag? && ev[r.value.end].name != TAG_CHANGE
    ensures r.Success? ==> acc <= r.value.changes
    ensures r.Failure? ==> r.error == XmlPullParserException || r.error == NullPointerException(None)
    decreases |ev| - i
  {
    var e := ev[i];
    if e.EndTag? && e.name != TAG_CHANGE then Success(Body(i, acc))
    else if IsStart(e, TAG_CHANGE) then
      if i + 1 >= |ev| then Failure(XmlPullParserException)
      else match TextOf(ev[i + 1])
        case None => Failure(NullPointerException(None))
        case Some(t) =>
          if i + 2 >= |ev| then Failure(XmlPullParserException)
          else Scan(ev, i + 2, acc + [CleanText(t)])
    else if i + 1 >= |ev| then Failure(XmlPullParserException)
    else Scan(ev, i + 1, acc)
  }

  predicate AllClean(cs: seq<string>) {
    forall k :: 0 <= k < |cs| ==> IsClean(cs[k])
  }

  /** Every change the body loop collects is already clean: cleaning it again changes nothing. */
  lemma {:induction false} ScanCollectsCleanTexts(ev: seq<Event>, i: nat, acc: seq<string>)
    requires i < |ev| && AllClean(acc)
    ensures Scan(ev, i, acc).Success? ==> AllClean(Scan(ev, i, acc).value.changes)
    decreases |ev| - i
  {
    var e := ev[i];
    if e.EndTag? && e.name != TAG_CHANGE {
    } else if IsStart(e, TAG_CHANGE) {
      if i + 2 < |ev| && ev[i + 1].Text? {
        var c := CleanText(ev[i + 1].text);
        CleanTextShape(ev[i + 1].text);
        assert Scan(ev, i, acc) == Scan(ev, i + 2, acc + [c]);
        ScanCollectsCleanTexts(ev, i + 2, acc + [c]);
      }
    } else if i + 1 < |ev| {
      ScanCollectsCleanTexts(ev, i + 1, acc);
    }
  }

  /** One step of the body loop over an event that neither ends the body nor opens a change. */
  lemma ScanSkip(ev: seq<Event>, i: nat, acc: seq<string>)
    requires i + 1 < |ev| && !(ev[i].EndTag? && ev[i].name != TAG_CHANGE) && !IsStart(ev[i], TAG_CHANGE)
    ensures Scan(ev, i, acc) == Scan(ev, i + 1, acc)
  {
  }

  /** One step of the body loop over a change start tag followed by its text. */
  lemma ScanChange(ev: seq<Event>, i: nat, acc: seq<string>)
    requires i + 2 < |ev| && IsStart(ev[i], TAG_CHANGE) && ev[i + 1].Text?
    ensures Scan(ev, i, acc) == Scan(ev, i + 2, acc + [CleanText(ev[i + 1].text)])
  {
  }

  /** The body loop of parseReleaseTag, on the parser's own cursor; it starts on the release tag. */
  method CollectChanges(p: PullParser) returns (r: Result<seq<string>, Exception>)
    requires p.Valid()
    modifies p
    ensures p.Valid()
    ensures var s := Scan(p.events, old(p.pos), []);
            (s.Success? ==> r == Success(s.value.changes) && p.pos == s.value.end)
            && (s.Failure? ==> r == Failure(s.error))
  {
    var changes: seq<string> := [];
    var e := p.Current();
    while !(e.EndTag? && e.name != TAG_CHANGE)
      invariant p.Valid() && e == p.Current()
      invariant Scan(p.events, p.pos, changes) == Scan(p.events, old(p.pos), [])
      decreases |p.events| - p.pos
    {
      ghost var i := p.pos;
      if IsStart(e, TAG_CHANGE) {
        var n := p.Next();
        if n.Failure? {
          return Failure(n.error);
        }
        e := n.value;
        var text := TextOf(e);
        if text.None? {
          return Failure(NullPointerException(None));
        }
        if i + 2 < |p.events| {
          ScanChange(p.events, i, changes);
        }
        changes := changes + [CleanText(text.value)];
      } else if i + 1 < |p.events| {
        ScanSkip(p.events, i, changes);
      }
      var n := p.Next();
      if n.Failure? {
        return Failure(n.error);
      }
      e := n.value;
    }
    r := Success(changes);
  }

  // ---------------------------------------------------------------------
  // One release tag, and the outer loop
  // ---------------------------------------------------------------------

  /** What parseReleaseTag does with the release tag at event `i`. */
  datatype TagResult =
    | Stop                                      // not newer than the bound: reading ends
    | Parsed(item: LibraryRelease, end: nat)    // read; `end` is the release's closing tag
    | Error(error: Exception)

  /**
   * parseReleaseTag: the early-stop rule is applied before the body is read,
   * and a missing `version` attribute is only noticed when the item is built
   * after the body.
   */
  function ReleaseTag(ev: seq<Event>, i: nat, rule: StopRule): (r: TagResult)
    requires i < |ev| && ev[i].StartTag?
    ensures r.Stop? <==> Stops(rule, VersionCodeOf(ev[i]))
    ensures r.Parsed? ==> i <= r.end < |ev| && r.item.versionCode == VersionCodeOf(ev[i])
    ensures r.Parsed? <==> !Stops(rule, VersionCodeOf(ev[i])) && Scan(ev, i, []).Success? && ATTRIBUTE_VERSION in ev[i].attributes
  {
    var version := AttributeValue(ev[i], ATTRIBUTE_VERSION);
    var code := VersionCodeOf(ev[i]);
    if Stops(rule, code) then Stop
    else match Scan(ev, i, [])
      case Failure(e) => Error(e)
      case Success(body) =>
        if version.None? then Error(NullPointerException(Some(VERSION_NAME_NULL)))
        else Parsed(LibraryRelease(code, version.value, body.changes), body.end)
  }

  /** The releases read, in document order, and the exception that ended reading, if one did. */
  datatype Outcome = Outcome(releases: seq<LibraryRelease>, error: Option<Exception>)

  /**
   * The outer loop from event `i`, with `acc` read so far: it ends at the
   * document end, at a release the stop rule rejects, or at an exception.
   * Any event other than a release start tag is skipped.
   */
  function ReadReleases(ev: seq<Event>, i: nat, rule: StopRule, acc: seq<LibraryRelease>): (r: Outcome)
    requires i < |ev|
    ensures acc <= r.releases
    decreases |ev| - i
  {
    var e := ev[i];
    if e.EndDocument? then Outcome(acc, None)
    else if IsStart(e, TAG_RELEASE) then
      match ReleaseTag(ev, i, rule)
      case Stop => Outcome(acc, None)
      case Error(x) => Outcome(acc, Some(x))
      case Parsed(item, j) =>
        if j + 1 < |ev| then ReadReleases(ev, j + 1, rule, acc + [item])
        else Outcome(acc + [item], Some(XmlPullParserException))
    else if i + 1 < |ev| then ReadReleases(ev, i + 1, rule, acc)
    else Outcome(acc, Some(XmlPullParserException))
  }

  /** One step of the outer loop over an event that is neither the document end nor a release tag. */
  lemma ReadSkip(ev: seq<Event>, i: nat, rule: StopRule, acc: seq<LibraryRelease>)
    requires i + 1 < |ev| && !ev[i].EndDocument? && !IsStart(ev[i], TAG_RELEASE)
    ensures ReadReleases(ev, i, rule, acc) == ReadReleases(ev, i + 1, rule, acc)
  {
  }

  predicate NoneStops(rule: StopRule, rs: seq<LibraryRelease>) {
    forall k :: 0 <= k < |rs| ==> !Stops(rule, rs[k].versionCode)
  }

  /** No release that is read has a code the stop rule rejects: with a bound, every release kept is newer than it. */
  lemma {:induction false} ReadKeepsOnlyNewer(ev: seq<Event>, i: nat, rule: StopRule, acc: seq<LibraryRelease>)
    requires i < |ev|
    requires NoneStops(rule, acc)
    ensures NoneStops(rule, ReadReleases(ev, i, rule, acc).releases)
    decreases |ev| - i
  {
    var e := ev[i];
    if e.EndDocument? {
    } else if IsStart(e, TAG_RELEASE) {
      match ReleaseTag(ev, i, rule)
      case Stop =>
      case Error(x) =>
      case Parsed(item, j) =>
        if j + 1 < |ev| {
          assert ReadReleases(ev, i, rule, acc) == ReadReleases(ev, j + 1, rule, acc + [item]);
          ReadKeepsOnlyNewer(ev, j + 1, rule, acc + [item]);
        }
    } else if i + 1 < |ev| {
      assert ReadReleases(ev, i, rule, acc) == ReadReleases(ev, i + 1, rule, acc);
      ReadKeepsOnlyNewer(ev, i + 1, rule, acc);
    }
  }

  predicate ReleasesClean(rs: seq<LibraryRelease>) {
    forall k :: 0 <= k < |rs| ==> AllClean(rs[k].changes)
  }

  /** Every change of every release read is a cleaned text. */
  lemma {:induction false} ReadCollectsCleanTexts(ev: seq<Event>, i: nat, rule: StopRule, acc: seq<LibraryRelease>)
    requires i < |ev| && ReleasesClean(acc)
    ensures ReleasesClean(ReadReleases(ev, i, rule, acc).releases)
    decreases |ev| - i
  {
    var e := ev[i];
    if e.EndDocument? {
    } else if IsStart(e, TAG_RELEASE) {
      match ReleaseTag(ev, i, rule)
      case Stop =>
      case Error(x) =>
      case Parsed(item, j) =>
        ScanCollectsCleanTexts(ev, i, []);
        assert item.changes == Scan(ev, i, []).value.changes;
        assert ReleasesClean(acc + [item]);
        if j + 1 < |ev| {
          assert ReadReleases(ev, i, rule, acc) == ReadReleases(ev, j + 1, rule, acc + [item]);
          ReadCollectsCleanTexts(ev, j + 1, rule, acc + [item]);
        }
    } else if i + 1 < |ev| {
      assert ReadReleases(ev, i, rule, acc) == ReadReleases(ev, i + 1, rule, acc);
      ReadCollectsCleanTexts(ev, i + 1, rule, acc);
    }
  }

  /** The errors the outer loop can end with: a stream error, or a NullPointerException from a change or a missing version. */
  lemma {:induction false} ReadErrors(ev: seq<Event>, i: nat, rule: StopRule, acc: seq<LibraryRelease>)
    requires i < |ev|
    ensures var err := ReadReleases(ev, i, rule, acc).error;
            err.Some? ==> err.value in {XmlPullParserException, NullPointerException(None), NullPointerException(Some(VERSION_NAME_NULL))}
    decreases |ev| - i
  {
    var e := ev[i];
    if e.EndDocument? {
    } else if IsStart(e, TAG_RELEASE) {
      match ReleaseTag(ev, i, rule)
      case Stop =>
      case Error(x) =>
      case Parsed(item, j) =>
        if j + 1 < |ev| {
          ReadErrors(ev, j + 1, rule, acc + [item]);
        }
    } else if i + 1 < |ev| {
      ReadErrors(ev, i + 1, rule, acc);
    }
  }

  /** A version code written out with Integer.toString reads back as itself. */
  lemma VersionCodeRoundTrip(n: Int32, version: string)
    ensures VersionCodeOf(StartTag(TAG_RELEASE, map[ATTRIBUTE_VERSION := version, ATTRIBUTE_VERSION_CODE := IntToString(n)])) == n
  {
    ParseIntRoundTrip(n);
  }

  /** A release without a usable `versioncode` gets code -1. */
  lemma VersionCodeFallback(version: string, code: Option<string>)
    requires code.None? || ParseInt(code).None?
    ensures var attrs := map[ATTRIBUTE_VERSION := version];
            var attrs' := if code.Some? then attrs[ATTRIBUTE_VERSION_CODE := code.value] else attrs;
            VersionCodeOf(StartTag(TAG_RELEASE, attrs')) == NO_VERSION
  {
  }
}
