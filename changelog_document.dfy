/**
 * What the release reader makes of a well-formed change-log document.
 *
 * `Document(root, pad, rs)` is the event stream of
 *
 *     <root> pad <release ...> pad <change>c1</change> ... pad </release> ... pad </root>
 *
 * for a root element of any name other than `release`, any text `pad`
 * between the tags (indentation, say) and any releases `rs`. A pull parser
 * reports no text event for an empty `<change></change>`, so there the
 * stream goes from the start tag straight to the end tag. (An empty `pad`
 * gives an empty text event; both loops skip it as they skip every event
 * they do not look at.) The theorem `ReadDocument` states what the outer
 * loop returns for such a stream, and the lemmas below it spell out what
 * that means: document order, one entry per release with no
 * de-duplication, cleaned change texts, the early stop, and the two
 * NullPointerExceptions.
 */
module ChangeLogDocuments {
  import opened Wrappers
  import opened JavaLang
  import opened PullParsers
  import opened ChangeText
  import opened LibraryReleaseItems
  import opened ReleaseTags
  import opened XmlParsers

  /** A `<release>` element: its attributes and the texts of its `<change>` children. */
  datatype ReleaseElement = ReleaseElement(attributes: map<string, string>, changes: seq<string>)

  /** One `<change>` child, after the text before it; an empty change has no text event. */
  function ChangeEvent(pad: string, c: string): seq<Event> {
    if c == "" then [Text(pad), StartTag(TAG_CHANGE, map[]), EndTag(TAG_CHANGE)]
    else [Text(pad), StartTag(TAG_CHANGE, map[]), Text(c), EndTag(TAG_CHANGE)]
  }

  function ChangeEvents(pad: string, cs: seq<string>): seq<Event> {
    if cs == [] then [] else ChangeEvent(pad, cs[0]) + ChangeEvents(pad, cs[1..])
  }

  function ReleaseEvents(pad: string, r: ReleaseElement): seq<Event> {
    [Text(pad), StartTag(TAG_RELEASE, r.attributes)] + ChangeEvents(pad, r.changes) + [Text(pad), EndTag(TAG_RELEASE)]
  }

  function ReleasesEvents(pad: string, rs: seq<ReleaseElement>): seq<Event> {
    if rs == [] then [] else ReleaseEvents(pad, rs[0]) + ReleasesEvents(pad, rs[1..])
  }

  function Document(root: string, pad: string, rs: seq<ReleaseElement>): seq<Event> {
    [StartDocument, StartTag(root, map[])] + ReleasesEvents(pad, rs) + [Text(pad), EndTag(root), EndDocument]
  }

  /** cleanText applied to every change, in order. */
  function CleanAll(cs: seq<string>): seq<string> {
    if cs == [] then [] else [CleanText(cs[0])] + CleanAll(cs[1..])
  }

  /** The release the reader builds from an element that has a `version`. */
  function Item(r: ReleaseElement): LibraryRelease
    requires ATTRIBUTE_VERSION in r.attributes
  {
    LibraryRelease(VersionCodeOf(StartTag(TAG_RELEASE, r.attributes)), r.attributes[ATTRIBUTE_VERSION], CleanAll(r.changes))
  }

  /**
   * What reading a document's releases should give, element by element: stop
   * at the first release the rule rejects; otherwise read its body, failing
   * at an empty `<change>` (cleanText(null)), then fail if it has no
   * `version`, and otherwise append its item.
   */
  function Expected(rs: seq<ReleaseElement>, rule: StopRule, acc: seq<LibraryRelease>): Outcome {
    if rs == [] then Outcome(acc, None)
    else if Stops(rule, VersionCodeOf(StartTag(TAG_RELEASE, rs[0].attributes))) then Outcome(acc, None)
    else if "" in rs[0].changes then Outcome(acc, Some(NullPointerException(None)))
    else if ATTRIBUTE_VERSION !in rs[0].attributes then Outcome(acc, Some(NullPointerException(Some(VERSION_NAME_NULL))))
    else Expected(rs[1..], rule, acc + [Item(rs[0])])
  }

  lemma AppendAssoc<T>(acc: seq<T>, x: T, xs: seq<T>)
    ensures acc + [x] + xs == acc + ([x] + xs)
  {
  }

  /** The change children of a release are read up to `</release>`, or fail at the first empty one. */
  lemma {:induction false} ScanChangeEvents(ev: seq<Event>, q: nat, pad: string, cs: seq<string>, acc: seq<string>, rest: seq<Event>)
    requires q <= |ev| && ev[q..] == ChangeEvents(pad, cs) + [Text(pad), EndTag(TAG_RELEASE)] + rest
    ensures Scan(ev, q, acc)
            == if "" in cs then Failure(NullPointerException(None))
               else Success(Body(q + |ChangeEvents(pad, cs)| + 1, acc + CleanAll(cs)))
    decreases |cs|
  {
    if cs == [] {
      ScanNoMoreChanges(ev, q, pad, acc, rest);
      assert acc + CleanAll(cs) == acc;
    } else if cs[0] == "" {
      ScanEmptyChange(ev, q, pad, cs, acc, rest);
    } else {
      var c := CleanText(cs[0]);
      ScanChangeStep(ev, q, pad, cs, acc, rest);
      ScanChangeEvents(ev, q + 4, pad, cs[1..], acc + [c], rest);
      assert cs == [cs[0]] + cs[1..];
      assert ("" in cs) == ("" in cs[1..]);
      assert CleanAll(cs) == [c] + CleanAll(cs[1..]);
      AppendAssoc(acc, c, CleanAll(cs[1..]));
    }
  }

  /** After the last change, the text before `</release>` is skipped and the body ends there. */
  lemma ScanNoMoreChanges(ev: seq<Event>, q: nat, pad: string, acc: seq<string>, rest: seq<Event>)
    requires q <= |ev| && ev[q..] == [Text(pad), EndTag(TAG_RELEASE)] + rest
    ensures Scan(ev, q, acc) == Success(Body(q + 1, acc))
  {
    assert ev[q..][0] == Text(pad) && ev[q..][1] == EndTag(TAG_RELEASE);
    assert ev[q] == Text(pad) && ev[q + 1] == EndTag(TAG_RELEASE);
    ScanSkip(ev, q, acc);
  }

  /** At an empty change the event after `<change>` is its end tag, which has no text. */
  lemma ScanEmptyChange(ev: seq<Event>, q: nat, pad: string, cs: seq<string>, acc: seq<string>, rest: seq<Event>)
    requires cs != [] && cs[0] == ""
    requires q <= |ev| && ev[q..] == ChangeEvents(pad, cs) + [Text(pad), EndTag(TAG_RELEASE)] + rest
    ensures Scan(ev, q, acc) == Failure(NullPointerException(None))
  {
    assert ev[q..][..3] == [Text(pad), StartTag(TAG_CHANGE, map[]), EndTag(TAG_CHANGE)];
    assert ev[q] == Text(pad) && ev[q + 1] == StartTag(TAG_CHANGE, map[]) && ev[q + 2] == EndTag(TAG_CHANGE);
    ScanSkip(ev, q, acc);
    assert TextOf(ev[q + 2]).None?;
  }

  /** A change with text: the body loop collects it cleaned and moves past its end tag. */
  lemma ScanChangeStep(ev: seq<Event>, q: nat, pad: string, cs: seq<string>, acc: seq<string>, rest: seq<Event>)
    requires cs != [] && cs[0] != ""
    requires q <= |ev| && ev[q..] == ChangeEvents(pad, cs) + [Text(pad), EndTag(TAG_RELEASE)] + rest
    ensures |ChangeEvents(pad, cs)| == 4 + |ChangeEvents(pad, cs[1..])|
    ensures q + 4 <= |ev| && ev[q + 4..] == ChangeEvents(pad, cs[1..]) + [Text(pad), EndTag(TAG_RELEASE)] + rest
    ensures Scan(ev, q, acc) == Scan(ev, q + 4, acc + [CleanText(cs[0])])
  {
    var tail := ChangeEvents(pad, cs[1..]) + [Text(pad), EndTag(TAG_RELEASE)] + rest;
    assert ev[q..] == [Text(pad), StartTag(TAG_CHANGE, map[]), Text(cs[0]), EndTag(TAG_CHANGE)] + tail;
    assert ev[q] == Text(pad) && ev[q + 1] == StartTag(TAG_CHANGE, map[]);
    assert ev[q + 2] == Text(cs[0]) && ev[q + 3] == EndTag(TAG_CHANGE);
    assert ev[q + 4..] == tail;
    assert Scan(ev, q, acc) == Scan(ev, q + 1, acc);
    assert Scan(ev, q + 1, acc) == Scan(ev, q + 3, acc + [CleanText(cs[0])]);
  }

  /**
   * The body of a release in the document is read to its closing tag, every
   * change cleaned, unless one of its changes is empty: then cleanText(null)
   * throws.
   */
  lemma ScanReleaseElement(ev: seq<Event>, p: nat, pad: string, r: ReleaseElement, rest: seq<Event>)
    requires p <= |ev| && ev[p..] == ReleaseEvents(pad, r) + rest
    ensures Scan(ev, p + 1, [])
            == if "" in r.changes then Failure(NullPointerException(None))
               else Success(Body(p + |ReleaseEvents(pad, r)| - 1, CleanAll(r.changes)))
  {
    assert ev[p + 2..] == ChangeEvents(pad, r.changes) + [Text(pad), EndTag(TAG_RELEASE)] + rest by {
      assert ev[p + 2..] == ev[p..][2..];
    }
    ScanChangeEvents(ev, p + 2, pad, r.changes, [], rest);
    assert ev[p..][1] == StartTag(TAG_RELEASE, r.attributes);
    ScanSkip(ev, p + 1, []);
    assert [] + CleanAll(r.changes) == CleanAll(r.changes);
  }

  /** parseReleaseTag on a release element of the document: stop check, then the body, then the version. */
  lemma ReleaseTagOfElement(ev: seq<Event>, p: nat, pad: string, r: ReleaseElement, rest: seq<Event>, rule: StopRule)
    requires p <= |ev| && ev[p..] == ReleaseEvents(pad, r) + rest
    ensures p + 1 < |ev| && ev[p + 1] == StartTag(TAG_RELEASE, r.attributes)
    ensures var code := VersionCodeOf(StartTag(TAG_RELEASE, r.attributes));
            ReleaseTag(ev, p + 1, rule)
            == if Stops(rule, code) then Stop
               else if "" in r.changes then Error(NullPointerException(None))
               else if ATTRIBUTE_VERSION !in r.attributes then Error(NullPointerException(Some(VERSION_NAME_NULL)))
               else Parsed(Item(r), p + |ReleaseEvents(pad, r)| - 1)
  {
    assert ev[p..][1] == StartTag(TAG_RELEASE, r.attributes);
    ScanReleaseElement(ev, p, pad, r, rest);
  }

  /** The outer loop over one release element of the document, from the text before it. */
  lemma ReadReleaseElement(ev: seq<Event>, p: nat, pad: string, r: ReleaseElement, rest: seq<Event>,
                           rule: StopRule, acc: seq<LibraryRelease>)
    requires p <= |ev| && ev[p..] == ReleaseEvents(pad, r) + rest && rest != []
    ensures p + |ReleaseEvents(pad, r)| < |ev|
    ensures Stops(rule, VersionCodeOf(StartTag(TAG_RELEASE, r.attributes))) ==> ReadReleases(ev, p, rule, acc) == Outcome(acc, None)
    ensures !Stops(rule, VersionCodeOf(StartTag(TAG_RELEASE, r.attributes))) && "" in r.changes ==>
              ReadReleases(ev, p, rule, acc) == Outcome(acc, Some(NullPointerException(None)))
    ensures !Stops(rule, VersionCodeOf(StartTag(TAG_RELEASE, r.attributes))) && "" !in r.changes && ATTRIBUTE_VERSION !in r.attributes ==>
              ReadReleases(ev, p, rule, acc) == Outcome(acc, Some(NullPointerException(Some(VERSION_NAME_NULL))))
    ensures !Stops(rule, VersionCodeOf(StartTag(TAG_RELEASE, r.attributes))) && "" !in r.changes && ATTRIBUTE_VERSION in r.attributes ==>
              ReadReleases(ev, p, rule, acc) == ReadReleases(ev, p + |ReleaseEvents(pad, r)|, rule, acc + [Item(r)])
  {
    assert ev[p..][0] == Text(pad);
    ReleaseTagOfElement(ev, p, pad, r, rest, rule);
    ReadSkip(ev, p, rule, acc);
  }

  /** Splitting a suffix of `ev` into two parts. */
  lemma SuffixSplit<T>(ev: seq<T>, p: nat, a: seq<T>, b: seq<T>, c: seq<T>)
    requires p <= |ev| && ev[p..] == (a + b) + c
    ensures ev[p..] == a + (b + c)
    ensures p + |a| <= |ev| && ev[p + |a|..] == b + c
  {
    assert ev[p + |a|..] == ev[p..][|a|..];
  }

  /** After the last release: the text and the root's closing tag are skipped, and the document ends. */
  lemma ReadDocumentEnd(ev: seq<Event>, p: nat, root: string, pad: string, rule: StopRule, acc: seq<LibraryRelease>)
    requires root != TAG_RELEASE
    requires p <= |ev| && ev[p..] == [Text(pad), EndTag(root), EndDocument]
    ensures p < |ev| && ReadReleases(ev, p, rule, acc) == Outcome(acc, None)
  {
    assert ev[p..][0] == Text(pad) && ev[p..][1] == EndTag(root) && ev[p..][2] == EndDocument;
    ReadSkip(ev, p, rule, acc);
    ReadSkip(ev, p + 1, rule, acc);
  }

  /** Where the first release of the rest of a document ends, and what follows it. */
  lemma FirstReleaseEvents(ev: seq<Event>, p: nat, pad: string, rs: seq<ReleaseElement>, tail: seq<Event>) returns (q: nat)
    requires rs != [] && p <= |ev| && ev[p..] == ReleasesEvents(pad, rs) + tail
    ensures ev[p..] == ReleaseEvents(pad, rs[0]) + (ReleasesEvents(pad, rs[1..]) + tail)
    ensures q == p + |ReleaseEvents(pad, rs[0])| && q <= |ev| && ev[q..] == ReleasesEvents(pad, rs[1..]) + tail
  {
    var first := ReleaseEvents(pad, rs[0]);
    var later := ReleasesEvents(pad, rs[1..]);
    assert ReleasesEvents(pad, rs) == first + later;
    SuffixSplit(ev, p, first, later, tail);
    q := p + |first|;
  }

  lemma {:induction false} ReadDocumentReleases(ev: seq<Event>, p: nat, root: string, pad: string,
                                                rs: seq<ReleaseElement>, rule: StopRule, acc: seq<LibraryRelease>)
    requires root != TAG_RELEASE
    requires p <= |ev| && ev[p..] == ReleasesEvents(pad, rs) + [Text(pad), EndTag(root), EndDocument]
    ensures p < |ev| && ReadReleases(ev, p, rule, acc) == Expected(rs, rule, acc)
    decreases |rs|
  {
    var tail := [Text(pad), EndTag(root), EndDocument];
    if rs == [] {
      ReadDocumentEnd(ev, p, root, pad, rule, acc);
    } else {
      var q := FirstReleaseEvents(ev, p, pad, rs, tail);
      var rest := ReleasesEvents(pad, rs[1..]) + tail;
      if !Stops(rule, VersionCodeOf(StartTag(TAG_RELEASE, rs[0].attributes))) && "" !in rs[0].changes
         && ATTRIBUTE_VERSION in rs[0].attributes {
        ReadDocumentStep(ev, p, q, pad, rs, rest, rule, acc);
        ReadDocumentReleases(ev, q, root, pad, rs[1..], rule, acc + [Item(rs[0])]);
      } else {
        ReadFirstReleaseEnds(ev, p, pad, rs, rest, rule, acc);
      }
    }
  }

  /** A first release that is read moves both the reader and `Expected` past it. */
  lemma ReadDocumentStep(ev: seq<Event>, p: nat, q: nat, pad: string, rs: seq<ReleaseElement>, rest: seq<Event>,
                         rule: StopRule, acc: seq<LibraryRelease>)
    requires rs != [] && p <= |ev| && ev[p..] == ReleaseEvents(pad, rs[0]) + rest && rest != []
    requires q == p + |ReleaseEvents(pad, rs[0])|
    requires !Stops(rule, VersionCodeOf(StartTag(TAG_RELEASE, rs[0].attributes))) && "" !in rs[0].changes
    requires ATTRIBUTE_VERSION in rs[0].attributes
    ensures q < |ev| && ReadReleases(ev, p, rule, acc) == ReadReleases(ev, q, rule, acc + [Item(rs[0])])
    ensures Expected(rs, rule, acc) == Expected(rs[1..], rule, acc + [Item(rs[0])])
  {
    ReadReleaseElement(ev, p, pad, rs[0], rest, rule, acc);
  }

  /** A first release that is rejected, has an empty change or has no `version` ends reading as `Expected` says. */
  lemma ReadFirstReleaseEnds(ev: seq<Event>, p: nat, pad: string, rs: seq<ReleaseElement>, rest: seq<Event>,
                             rule: StopRule, acc: seq<LibraryRelease>)
    requires rs != [] && p <= |ev| && ev[p..] == ReleaseEvents(pad, rs[0]) + rest && rest != []
    requires Stops(rule, VersionCodeOf(StartTag(TAG_RELEASE, rs[0].attributes))) || "" in rs[0].changes
             || ATTRIBUTE_VERSION !in rs[0].attributes
    ensures p < |ev| && ReadReleases(ev, p, rule, acc) == Expected(rs, rule, acc)
  {
    ReadReleaseElement(ev, p, pad, rs[0], rest, rule, acc);
  }

  /** Reading a document's event stream gives exactly what `Expected` says about its releases. */
  lemma ReadDocument(root: string, pad: string, rs: seq<ReleaseElement>, rule: StopRule)
    requires root != TAG_RELEASE
    ensures ReadReleases(Document(root, pad, rs), 0, rule, []) == Expected(rs, rule, [])
  {
    var ev := Document(root, pad, rs);
    assert ev[2..] == ReleasesEvents(pad, rs) + [Text(pad), EndTag(root), EndDocument];
    ReadDocumentReleases(ev, 2, root, pad, rs, rule, []);
    ReadSkip(ev, 0, rule, []);
    ReadSkip(ev, 1, rule, []);
  }

  // ---------------------------------------------------------------------
  // What Expected means
  // ---------------------------------------------------------------------

  /** The index of the first release the rule rejects, or |rs| when there is none. */
  function FirstStop(rs: seq<ReleaseElement>, rule: StopRule): (n: nat)
    ensures n <= |rs|
    ensures forall k :: 0 <= k < n ==> !Stops(rule, VersionCodeOf(StartTag(TAG_RELEASE, rs[k].attributes)))
    ensures n < |rs| ==> Stops(rule, VersionCodeOf(StartTag(TAG_RELEASE, rs[n].attributes)))
  {
    if rs == [] then 0
    else if Stops(rule, VersionCodeOf(StartTag(TAG_RELEASE, rs[0].attributes))) then 0
    else 1 + FirstStop(rs[1..], rule)
  }

  predicate AllVersioned(rs: seq<ReleaseElement>) {
    forall k :: 0 <= k < |rs| ==> ATTRIBUTE_VERSION in rs[k].attributes
  }

  predicate NoEmptyChange(rs: seq<ReleaseElement>) {
    forall k :: 0 <= k < |rs| ==> "" !in rs[k].changes
  }

  /** Releases the reader turns into items: each has a `version` and no empty `<change>`. */
  predicate Readable(rs: seq<ReleaseElement>) {
    AllVersioned(rs) && NoEmptyChange(rs)
  }

  function Items(rs: seq<ReleaseElement>): (r: seq<LibraryRelease>)
    requires AllVersioned(rs)
    ensures |r| == |rs| && forall k :: 0 <= k < |rs| ==> r[k] == Item(rs[k])
  {
    if rs == [] then [] else [Item(rs[0])] + Items(rs[1..])
  }

  /** A prefix of readable releases is readable. */
  lemma ReadablePrefix(rs: seq<ReleaseElement>, n: nat)
    requires n <= |rs| && Readable(rs)
    ensures Readable(rs[..n])
  {
    forall k | 0 <= k < n ensures ATTRIBUTE_VERSION in rs[..n][k].attributes && "" !in rs[..n][k].changes {
      assert rs[..n][k] == rs[k];
    }
  }

  /**
   * When every release up to the first rejected one has a `version` and no
   * empty change, reading succeeds with one item per release before it, in
   * document order.
   */
  lemma {:induction false} ExpectedIsPrefix(rs: seq<ReleaseElement>, rule: StopRule, acc: seq<LibraryRelease>)
    requires Readable(rs[..FirstStop(rs, rule)])
    ensures Expected(rs, rule, acc) == Outcome(acc + Items(rs[..FirstStop(rs, rule)]), None)
  {
    var n := FirstStop(rs, rule);
    if n == 0 {
      assert rs[..n] == [];
      assert acc + Items(rs[..n]) == acc;
    } else {
      var prefix := rs[..n];
      assert prefix[0] == rs[0];
      assert ATTRIBUTE_VERSION in rs[0].attributes && "" !in rs[0].changes;
      assert FirstStop(rs[1..], rule) == n - 1;
      assert rs[1..][..n - 1] == prefix[1..];
      var x := Item(rs[0]);
      assert Expected(rs, rule, acc) == Expected(rs[1..], rule, acc + [x]);
      assert Readable(prefix[1..]) by {
        forall k | 0 <= k < n - 1 ensures ATTRIBUTE_VERSION in prefix[1..][k].attributes && "" !in prefix[1..][k].changes {
          assert prefix[1..][k] == prefix[k + 1];
        }
      }
      ExpectedIsPrefix(rs[1..], rule, acc + [x]);
      assert Items(prefix) == [x] + Items(prefix[1..]);
      AppendAssoc(acc, x, Items(prefix[1..]));
    }
  }

  /**
   * A release before the first rejected one without a `version`, with no
   * empty change up to it, ends reading with "versionName == null".
   */
  lemma {:induction false} ExpectedMissingVersion(rs: seq<ReleaseElement>, rule: StopRule, acc: seq<LibraryRelease>, m: nat)
    requires m < FirstStop(rs, rule) && ATTRIBUTE_VERSION !in rs[m].attributes && NoEmptyChange(rs[..m + 1])
    ensures Expected(rs, rule, acc).error == Some(NullPointerException(Some(VERSION_NAME_NULL)))
  {
    assert "" !in rs[0].changes by {
      assert rs[..m + 1][0] == rs[0];
    }
    if ATTRIBUTE_VERSION in rs[0].attributes {
      assert NoEmptyChange(rs[1..][..m]) by {
        forall k | 0 <= k < m ensures "" !in rs[1..][..m][k].changes {
          assert rs[1..][..m][k] == rs[..m + 1][k + 1];
        }
      }
      ExpectedMissingVersion(rs[1..], rule, acc + [Item(rs[0])], m - 1);
    }
  }

  /**
   * A release before the first rejected one with an empty `<change>`, after
   * releases that all have a `version`, ends reading with cleanText(null)'s
   * NullPointerException, whether or not it has a `version` itself.
   */
  lemma {:induction false} ExpectedEmptyChange(rs: seq<ReleaseElement>, rule: StopRule, acc: seq<LibraryRelease>, m: nat)
    requires m < FirstStop(rs, rule) && "" in rs[m].changes && AllVersioned(rs[..m])
    ensures Expected(rs, rule, acc).error == Some(NullPointerException(None))
  {
    if "" !in rs[0].changes {
      assert ATTRIBUTE_VERSION in rs[0].attributes by {
        assert rs[..m][0] == rs[0];
      }
      var later := rs[1..][..m - 1];
      assert AllVersioned(later) by {
        forall k | 0 <= k < |later| ensures ATTRIBUTE_VERSION in later[k].attributes {
          assert later[k] == rs[..m][k + 1];
        }
      }
      ExpectedEmptyChange(rs[1..], rule, acc + [Item(rs[0])], m - 1);
    }
  }

  /**
   * parse(x): a document whose releases all have a `version` and no empty
   * change gives one item per release, in document order, duplicates kept,
   * whatever the root is called.
   */
  lemma ParseDocumentKeepsAll(root: string, pad: string, rs: seq<ReleaseElement>)
    requires root != TAG_RELEASE && Readable(rs)
    ensures ParseLog(Document(root, pad, rs), NO_VERSION) == Success(Items(rs))
  {
    ReadDocument(root, pad, rs, NoStop);
    assert RuleFor(NO_VERSION) == NoStop;
    assert FirstStop(rs, NoStop) == |rs|;
    assert rs[..|rs|] == rs;
    ExpectedIsPrefix(rs, NoStop, []);
    assert [] + Items(rs) == Items(rs);
  }

  /**
   * parse(x, v) with v != -1: the items of the releases before the first one
   * whose code is at most v (FirstStop); that release and all after it are left out.
   */
  lemma ParseDocumentSince(root: string, pad: string, rs: seq<ReleaseElement>, v: Int32)
    requires root != TAG_RELEASE && v != NO_VERSION && Readable(rs)
    ensures ParseLog(Document(root, pad, rs), v) == Success(Items(rs[..FirstStop(rs, StopAtOrBelow(v))]))
  {
    ReadDocument(root, pad, rs, StopAtOrBelow(v));
    assert RuleFor(v) == StopAtOrBelow(v);
    var n := FirstStop(rs, StopAtOrBelow(v));
    ReadablePrefix(rs, n);
    ExpectedIsPrefix(rs, StopAtOrBelow(v), []);
    assert [] + Items(rs[..n]) == Items(rs[..n]);
  }

  /**
   * parse(x, v): an empty `<change>` in a release that is read, after
   * releases that all have a `version`, makes parse throw cleanText(null)'s
   * NullPointerException, with no list returned.
   */
  lemma ParseDocumentEmptyChange(root: string, pad: string, rs: seq<ReleaseElement>, v: Int32, m: nat)
    requires root != TAG_RELEASE
    requires m < FirstStop(rs, RuleFor(v)) && "" in rs[m].changes && AllVersioned(rs[..m])
    ensures ParseLog(Document(root, pad, rs), v) == Failure(NullPointerException(None))
  {
    ReadDocument(root, pad, rs, RuleFor(v));
    ExpectedEmptyChange(rs, RuleFor(v), [], m);
  }

  /** An empty `<release>` element is no error: its item has no changes. */
  lemma EmptyReleaseGivesNoChanges(root: string, pad: string, version: string, code: Int32)
    requires root != TAG_RELEASE
    ensures var attrs := map[ATTRIBUTE_VERSION := version, ATTRIBUTE_VERSION_CODE := IntToString(code)];
            ParseLog(Document(root, pad, [ReleaseElement(attrs, [])]), NO_VERSION)
            == Success([LibraryRelease(code, version, [])])
  {
    var attrs := map[ATTRIBUTE_VERSION := version, ATTRIBUTE_VERSION_CODE := IntToString(code)];
    VersionCodeRoundTrip(code, version);
    ParseDocumentKeepsAll(root, pad, [ReleaseElement(attrs, [])]);
    assert Items([ReleaseElement(attrs, [])]) == [Item(ReleaseElement(attrs, []))];
  }

  /** A change written over several lines is returned with its whitespace normalised. */
  lemma ChangeTextIsCleaned(root: string, pad: string, version: string, code: Int32)
    requires root != TAG_RELEASE
    ensures var attrs := map[ATTRIBUTE_VERSION := version, ATTRIBUTE_VERSION_CODE := IntToString(code)];
            ParseLog(Document(root, pad, [ReleaseElement(attrs, [" a\t\n b "])]), NO_VERSION)
            == Success([LibraryRelease(code, version, ["a b"])])
  {
    var attrs := map[ATTRIBUTE_VERSION := version, ATTRIBUTE_VERSION_CODE := IntToString(code)];
    VersionCodeRoundTrip(code, version);
    CleanTextExample();
    ParseDocumentKeepsAll(root, pad, [ReleaseElement(attrs, [" a\t\n b "])]);
    assert CleanAll([" a\t\n b "]) == ["a b"];
    assert Items([ReleaseElement(attrs, [" a\t\n b "])]) == [Item(ReleaseElement(attrs, [" a\t\n b "]))];
  }

  /** A release without `version` and without an empty change fails the whole parse with "versionName == null". */
  lemma MissingVersionFails(root: string, pad: string, changes: seq<string>)
    requires root != TAG_RELEASE && "" !in changes
    ensures ParseLog(Document(root, pad, [ReleaseElement(map[], changes)]), NO_VERSION)
            == Failure(NullPointerException(Some(VERSION_NAME_NULL)))
  {
    ReadDocument(root, pad, [ReleaseElement(map[], changes)], NoStop);
    assert RuleFor(NO_VERSION) == NoStop;
  }

  /**
   * An empty `<change>` fails the whole parse with cleanText(null)'s
   * message-less NullPointerException; the body is read before the `version`
   * is looked at, so this holds with or without one.
   */
  lemma EmptyChangeFails(root: string, pad: string, attributes: map<string, string>, changes: seq<string>)
    requires root != TAG_RELEASE && "" in changes
    ensures ParseLog(Document(root, pad, [ReleaseElement(attributes, changes)]), NO_VERSION)
            == Failure(NullPointerException(None))
  {
    ReadDocument(root, pad, [ReleaseElement(attributes, changes)], NoStop);
    assert RuleFor(NO_VERSION) == NoStop;
  }
}
