# ckChangeLog, modelled in Dafny

ckChangeLog shows an Android app's change log. There are two generations of
the library:

- the older `de.cketti.library.changelog` tree, whose `ChangeLog` reads two XML
  resources itself;
- the newer `de.cketti.changelog` tree, whose `ChangeLog` asks a
  `ChangeLogProvider` for the releases.

Both generations share these parts:

- **The release parser.** It walks an XML pull parser's events. It picks out
  the `<release>` elements with their `version` and `versioncode` attributes,
  collects the whitespace-normalised `<change>` texts, and stops early at the
  first release that is not newer than a bound.
- **The merge.** It takes a *master* log and a *localized* log. A localized
  entry replaces the master entry with the same version code; a localized-only
  version is dropped. The result is sorted newest first.
- **The first-run bookkeeping.** It compares the last version code stored in
  `SharedPreferences` with the app's current one.
- **The HTML page.** The dialog module renders a log as one HTML page.

The project models each of these in the form the Java code has:

- Classes with fields where the code updates objects: the pull parser's
  cursor, `XmlParser`'s result list, `SparseArray`, `SharedPreferences`, both
  `ChangeLog` classes, the test builders and `HtmlFormatter`'s buffer.
- Methods with loops where the code loops.
- Datatypes and functions for the values: releases, event streams, the stop
  rule and the merge specification.

Each method is proved against a specification function, and the lemmas state
the properties the code and its documentation promise about those functions.

Files:

| file | module | models |
|---|---|---|
| `wrappers.dfy` | `Wrappers` | `Option` and `Result` |
| `java_lang.dfy` | `JavaLang` | `int` as `Int32`, 32-bit wrap, the exceptions, `Integer.parseInt`, `ArrayList<String>` and the unmodifiable view |
| `android.dfy` | `Android` | `SparseArray`, `SharedPreferences`, `PackageInfo`, `Context`, and indexing a list by key (`IndexBy`) |
| `pull_parser.dfy` | `PullParsers` | the `XmlPullParser` cursor over a sequence of events |
| `change_text.dfy` | `ChangeText` | `cleanText`: `trim()` followed by `replaceAll("\\s+", " ")` |
| `release_item.dfy` | `ReleaseItems` | the newer `ReleaseItem`: `newInstance`, constructor, `equals`, `hashCode` |
| `library_release_item.dfy` | `LibraryReleaseItems` | the older, dateless `ReleaseItem` |
| `release_tag.dfy` | `ReleaseTags` | `parseReleaseTag` and the read loop shared by `XmlParser` and the library `ChangeLog` |
| `xml_parser.dfy` | `XmlParsers` | the library `XmlParser` |
| `changelog_document.dfy` | `ChangeLogDocuments` | what the parsers read from a well-formed change-log document |
| `version_order.dfy` | `VersionOrder` | the version-code comparator, the stable `Collections.sort`, and filtering by version code |
| `library_change_log.dfy` | `LibraryChangeLogs` | the library `ChangeLog` |
| `merged_provider.dfy` | `MergedChangeLogProviders` | `MergedChangeLogProvider.merge` |
| `provider_builder.dfy`, `library_provider_builder.dfy` | `ChangeLogProviderBuilders`, `LibraryChangeLogProviderBuilders` | the two test `ChangeLogProviderBuilder`s |
| `change_log_provider.dfy` | `ChangeLogProviders` | the `ChangeLogProvider` interface over its implementations, and `MergedChangeLogProvider` itself |
| `change_log.dfy` | `ChangeLogs` | the newer `ChangeLog` |
| `html_formatter.dfy` | `HtmlFormatters` | `HtmlFormatter.createHtmlChangeLog` |

Modelling decisions:

- **The pull parser.** It is an input sequence of events:
  - `StartDocument`;
  - `StartTag(name, attributes)`;
  - `Text(text)`;
  - `EndTag(name)`;
  - `EndDocument`.

  `next()` past the last event throws `XmlPullParserException`. That is how a
  tokenizer error, or a document cut short, reaches the code. `getText()` is
  null on every event but text. `getAttributeValue` is null for a missing
  attribute, and so is `getName()` on text.
- **The provider interface.** `ChangeLogProvider` is a datatype `Provider`
  whose cases are the implementations in the model: the test builder's
  provider and `MergedChangeLogProvider` over two providers. Its two queries
  are the functions `ChangeLogOf` and `SinceOf`. The interface's documented
  promises are the predicates `HonoursSince` and `SinceFromLog`.
- **`Collections.sort`.** It is the stable insertion sort `SortDesc`.
  `StableSortUnique` shows that every stable sort by that comparator gives the
  same list, so the choice of algorithm does not matter.
- **`ReleaseItem` values.** They are the datatype `Release` (`LibraryRelease`
  for the older class): what `equals` compares. Objects appear only where list
  aliasing is visible: copy in `newInstance`, wrap in the constructor.
- **The resources.** The library `ChangeLog`'s two XML resources are its
  fields `masterXml` and `localizedXml`. Each resource is a non-empty event
  sequence, because every event stream ends with `EndDocument`.

Where the code and the surrounding tests disagree, the model follows the code:

- The `XmlParserTest` files expect strict error messages, such as an unexpected
  root tag, a missing `version` attribute, or "Expected text". The
  `XmlParser` modelled here raises none of them:
  - it never checks the root tag;
  - a release without changes has an empty change list;
  - a missing `versioncode` reads as -1;
  - a missing `version` fails only in `ReleaseItem`, with `versionName == null`.
  - an empty `<change></change>` has no text event, so `getText()` is null and
    `cleanText` throws a NullPointerException without a message; the body is
    read before the `version` is checked, so this comes first.

## Model

| member | source | states |
|---|---|---|
| `JavaLang.Wrap32` | ckChangeLog-core/src/main/java/de/cketti/changelog/ReleaseItem.java:101-106 | the result is the 32-bit int congruent to the argument, and equal to it when it already fits |
| `JavaLang.ParseIntRoundTrip` | ckChangeLog-core/src/main/java/de/cketti/library/changelog/XmlParser.java:81-82 | `Integer.parseInt` reads back every int's decimal form |
| `JavaLang.NatDigitsValue` | ckChangeLog-core/src/main/java/de/cketti/library/changelog/XmlParser.java:81-82 | the digits written for a natural number have that number as their decimal value |
| `JavaLang.StringList.Add` | ckChangeLog-core/src/test/java/de/cketti/changelog/helper/ChangeLogProviderBuilder.java:21 | `ArrayList.add` appends one element at the end and changes nothing else |
| `JavaLang.UnmodifiableList.Add` | ckChangeLog-core/src/main/java/de/cketti/changelog/ReleaseItem.java:64 | adding through the unmodifiable view throws `UnsupportedOperationException` |
| `Android.InsertKey` | ckChangeLog-core/src/main/java/de/cketti/library/changelog/ChangeLog.java:294 | a SparseArray's key list stays strictly ascending and gains exactly the new key |
| `Android.SparseArray.Put` | ckChangeLog-core/src/main/java/de/cketti/changelog/MergedChangeLogProvider.java:66 | `put` maps the key to the value, replacing an earlier value under it, and keeps the keys sorted |
| `Android.IndexBy` | ckChangeLog-core/src/main/java/de/cketti/changelog/MergedChangeLogProvider.java:64-67 | the map built by putting every element under its key holds exactly the keys that occur, each under its own key |
| `Android.IndexByValues` | ckChangeLog-core/src/main/java/de/cketti/changelog/MergedChangeLogProvider.java:64-67 | every value in that map is an element of the list |
| `Android.IndexByKeepsLast` | ckChangeLog-core/src/main/java/de/cketti/changelog/MergedChangeLogProvider.java:64-67 | the map keeps, for each key, the last element with that key (a later put overwrites) |
| `Android.SharedPreferences.PutInt` | ckChangeLog-core/src/main/java/de/cketti/changelog/ChangeLog.java:198-200 | `putInt` then `apply` stores the value under the key and leaves every other key alone |
| `PullParsers.AttributeValue` | ckChangeLog-core/src/main/java/de/cketti/library/changelog/XmlParser.java:77 | `getAttributeValue` is non-null exactly on a start tag that has the attribute, and then gives its value |
| `PullParsers.TextOf` | ckChangeLog-core/src/main/java/de/cketti/library/changelog/XmlParser.java:96 | `getText` is non-null exactly on a text event, and then gives its text |
| `PullParsers.NextPos` | ckChangeLog-core/src/main/java/de/cketti/library/changelog/XmlParser.java:67 | `next()` moves one event on while there is one, and throws `XmlPullParserException` past the end |
| `PullParsers.PullParser.Next` | ckChangeLog-core/src/main/java/de/cketti/library/changelog/XmlParser.java:67 | the cursor advances by one and returns the new event, or stays put and throws at the end |
| `ChangeText.TrimStartShape` | ckChangeLog-core/src/main/java/de/cketti/library/changelog/XmlParser.java:109 | `trim()` removes a prefix, after which the first character is above U+0020 |
| `ChangeText.TrimEndShape` | ckChangeLog-core/src/main/java/de/cketti/library/changelog/XmlParser.java:109 | `trim()` removes a suffix, after which the last character is above U+0020 |
| `ChangeText.TrimShape` | ckChangeLog-core/src/main/java/de/cketti/library/changelog/XmlParser.java:109 | a trimmed string neither starts nor ends with a character at or below U+0020 |
| `ChangeText.TrimFixedPoint` | ckChangeLog-core/src/main/java/de/cketti/library/changelog/XmlParser.java:109 | `trim()` leaves an already trimmed string unchanged |
| `ChangeText.CollapseHead` | ckChangeLog-core/src/main/java/de/cketti/library/changelog/XmlParser.java:109 | collapsing whitespace runs empties only the empty string, and a leading run becomes one space |
| `ChangeText.CollapseShape` | ckChangeLog-core/src/main/java/de/cketti/library/changelog/XmlParser.java:109 | after `replaceAll("\\s+", " ")` no two whitespace characters are adjacent, and the only whitespace left is the plain space |
| `ChangeText.CollapseKeepsEnds` | ckChangeLog-core/src/main/java/de/cketti/library/changelog/XmlParser.java:109 | collapsing keeps a non-whitespace first and last character in place |
| `ChangeText.CollapseFixedPoint` | ckChangeLog-core/src/main/java/de/cketti/library/changelog/XmlParser.java:109 | collapsing leaves a string with only single plain spaces unchanged |
| `ChangeText.CleanText` | ckChangeLog-core/src/main/java/de/cketti/library/changelog/XmlParser.java:108-110 | `cleanText` is `trim()` followed by `replaceAll("\\s+", " ")`; its properties are the `CleanText…` lemmas below |
| `ChangeText.CleanTextShape` | ckChangeLog-core/src/main/java/de/cketti/library/changelog/XmlParser.java:108-110 | cleanText's result has no leading or trailing whitespace, no two adjacent whitespace characters, and only plain spaces |
| `ChangeText.CleanTextKeepsClean` | ckChangeLog-core/src/main/java/de/cketti/library/changelog/XmlParser.java:108-110 | cleanText leaves a clean text unchanged |
| `ChangeText.CleanTextIdempotent` | ckChangeLog-core/src/main/java/de/cketti/library/changelog/XmlParser.java:108-110 | applying cleanText twice is applying it once |
| `ChangeText.ExTrimStart` | ckChangeLog-core/src/main/java/de/cketti/library/changelog/XmlParser.java:109 | leading blanks are cut and inner whitespace is kept by the first half of `trim()` |
| `ChangeText.ExTrimEnd` | ckChangeLog-core/src/main/java/de/cketti/library/changelog/XmlParser.java:109 | trailing blanks are cut by the second half of `trim()` |
| `ChangeText.ExCollapse` | ckChangeLog-core/src/main/java/de/cketti/library/changelog/XmlParser.java:109 | a tab-newline-space run becomes one space |
| `ChangeText.CleanTextExample` | ckChangeLog-core/src/main/java/de/cketti/library/changelog/XmlParser.java:108-110 | `" a\t\n b "` cleans to `"a b"` |
| `ReleaseItems.Create` | ckChangeLog-core/src/main/java/de/cketti/changelog/ReleaseItem.java:60-65 | the constructor rejects a null name with "versionName == null", then null changes with "changes == null", and otherwise wraps the caller's list without copying |
| `ReleaseItems.NewInstance` | ckChangeLog-core/src/main/java/de/cketti/changelog/ReleaseItem.java:54-58 | `newInstance` copies the list first (a null list throws `NullPointerException` without a message), then applies the constructor's checks; the item owns a fresh list with the same elements |
| `ReleaseItems.CopyIsolatesCaller` | ckChangeLog-core/src/main/java/de/cketti/changelog/ReleaseItem.java:54-58 | after `newInstance`, adding to the caller's list leaves the item's changes as they were |
| `ReleaseItems.WrapSharesCaller` | ckChangeLog-core/src/main/java/de/cketti/changelog/ReleaseItem.java:60-64 | after the constructor, adding to the caller's list shows in the item's changes |
| `ReleaseItems.AddThroughView` | ckChangeLog-core/src/main/java/de/cketti/changelog/ReleaseItem.java:64 | adding through the item's `changes` throws and leaves the item unchanged |
| `ReleaseItems.ListEqualsIsEquality` | ckChangeLog-core/src/main/java/de/cketti/changelog/ReleaseItem.java:97 | list `equals` holds exactly when the two lists are the same sequence |
| `ReleaseItems.Equals` | ckChangeLog-core/src/main/java/de/cketti/changelog/ReleaseItem.java:77-98 | `equals`: false against null, then code, name, null-aware date and change list compared in that order |
| `ReleaseItems.EqualsIsValueEquality` | ckChangeLog-core/src/main/java/de/cketti/changelog/ReleaseItem.java:77-98 | two items are equal exactly when code, name, date (null-aware) and changes agree; no item equals null |
| `ReleaseItems.HashCode` | ckChangeLog-core/src/main/java/de/cketti/changelog/ReleaseItem.java:100-107 | `hashCode`: `31 * h + …` over code, name, date (0 when null) and the list, wrapping at 32 bits |
| `ReleaseItems.EqualItemsHashAlike` | ckChangeLog-core/src/main/java/de/cketti/changelog/ReleaseItem.java:100-107 | equal items have equal 32-bit hash codes |
| `LibraryReleaseItems.Create` | ckChangeLog-core/src/main/java/de/cketti/library/changelog/ReleaseItem.java:50-54 | the older constructor rejects a null name, then null changes, and otherwise keeps the caller's list itself |
| `LibraryReleaseItems.NewInstance` | ckChangeLog-core/src/main/java/de/cketti/library/changelog/ReleaseItem.java:45-48 | the older `newInstance` copies the list (null throws first), then applies the constructor's checks |
| `LibraryReleaseItems.WriteThroughItem` | ckChangeLog-core/src/main/java/de/cketti/library/changelog/ReleaseItem.java:50-54 | the older item shares its list with the caller: adding to that list changes the item |
| `ReleaseTags.Scan` | ckChangeLog-core/src/main/java/de/cketti/library/changelog/XmlParser.java:91-100 | the body loop ends at the first end tag not named `change`, after the event it started on, with the changes read so far extended; it fails only with `XmlPullParserException` or with the `NullPointerException` of `cleanText(null)` |
| `ReleaseTags.ScanCollectsCleanTexts` | ckChangeLog-core/src/main/java/de/cketti/library/changelog/XmlParser.java:94-97 | every change the body loop collects is a cleaned text |
| `ReleaseTags.ScanSkip` | ckChangeLog-core/src/main/java/de/cketti/library/changelog/XmlParser.java:93-99 | any event inside a body that is neither `<change>` nor a closing tag other than `</change>` is skipped |
| `ReleaseTags.ScanChange` | ckChangeLog-core/src/main/java/de/cketti/library/changelog/XmlParser.java:94-99 | at `<change>` followed by text, the cleaned text is collected and the event after it is skipped |
| `ReleaseTags.CollectChanges` | ckChangeLog-core/src/main/java/de/cketti/library/changelog/XmlParser.java:91-100 | the loop returns the changes `Scan` specifies and leaves the cursor on the closing tag, or fails with its error |
| `ReleaseTags.ReleaseTag` | ckChangeLog-core/src/main/java/de/cketti/library/changelog/XmlParser.java:76-106 | a release start tag stops reading exactly when the stop rule holds of its code; it yields an item with that code exactly when the rule does not stop it, its body reads and it has a `version` |
| `ReleaseTags.ReadReleases` | ckChangeLog-core/src/main/java/de/cketti/library/changelog/XmlParser.java:57-68 | the read loop only appends to the releases read before it |
| `ReleaseTags.ReadSkip` | ckChangeLog-core/src/main/java/de/cketti/library/changelog/XmlParser.java:59-67 | every event other than a `<release>` start tag is skipped, whatever the root element |
| `ReleaseTags.ReadKeepsOnlyNewer` | ckChangeLog-core/src/main/java/de/cketti/library/changelog/XmlParser.java:87-89 | no release the stop rule would stop at is ever read |
| `ReleaseTags.ReadCollectsCleanTexts` | ckChangeLog-core/src/main/java/de/cketti/library/changelog/XmlParser.java:96 | every change of every release read is a cleaned text |
| `ReleaseTags.ReadErrors` | ckChangeLog-core/src/main/java/de/cketti/library/changelog/XmlParser.java:76-106 | the read loop can fail only with `XmlPullParserException`, `cleanText(null)`'s exception, or "versionName == null" |
| `ReleaseTags.VersionCodeRoundTrip` | ckChangeLog-core/src/main/java/de/cketti/library/changelog/XmlParser.java:79-85 | a release whose `versioncode` is an int's decimal form has that int as its code |
| `ReleaseTags.VersionCodeFallback` | ckChangeLog-core/src/main/java/de/cketti/library/changelog/XmlParser.java:79-85 | a missing or unparseable `versioncode` gives code -1 |
| `XmlParsers.XmlParser.constructor` | ckChangeLog-core/src/main/java/de/cketti/library/changelog/XmlParser.java:51-55 | a parser starts with the given cursor and bound and an empty result |
| `XmlParsers.XmlParser.ParseReleaseTag` | ckChangeLog-core/src/main/java/de/cketti/library/changelog/XmlParser.java:76-106 | on a release start tag: stops (-1 exempt from the bound), or appends the release to `result` and moves past its body, or fails with nothing appended |
| `XmlParsers.XmlParser.ReadChangeLog` | ckChangeLog-core/src/main/java/de/cketti/library/changelog/XmlParser.java:57-74 | `readChangeLog` returns `result` extended by the releases read, or rethrows a stream error wrapped in `IllegalStateException` |
| `XmlParsers.Parse` | ckChangeLog-core/src/main/java/de/cketti/library/changelog/XmlParser.java:41-44 | `parse(xml)` is the read with bound -1 |
| `XmlParsers.ParseLog` | ckChangeLog-core/src/main/java/de/cketti/library/changelog/XmlParser.java:56-73 | `readChangeLog` on a fresh parser: the outer read with the rule for the bound, stream errors rethrown as IllegalStateException, other exceptions propagated, the list only on success |
| `XmlParsers.ParseSince` | ckChangeLog-core/src/main/java/de/cketti/library/changelog/XmlParser.java:46-49 | `parse(xml, lastVersionCode)` is the read with that bound |
| `XmlParsers.ParseKeepsOnlyNewer` | ckChangeLog-core/src/main/java/de/cketti/library/changelog/XmlParser.java:87-89 | with a bound other than -1 every release returned is newer than the bound |
| `XmlParsers.ParseReturnsCleanTexts` | ckChangeLog-core/src/main/java/de/cketti/library/changelog/XmlParser.java:94-97 | every change returned is a cleaned text |
| `XmlParsers.ParseErrors` | ckChangeLog-core/src/main/java/de/cketti/library/changelog/XmlParser.java:69-71 | `parse` fails only with a wrapped stream error, `cleanText(null)`'s exception, or "versionName == null"; no partial list comes back |
| `ChangeLogDocuments.FirstStop` | ckChangeLog-core/src/main/java/de/cketti/library/changelog/XmlParser.java:87-89 | the index of the first release the stop rule stops at: none before it stops, and it stops there unless it is the end |
| `ChangeLogDocuments.Items` | ckChangeLog-core/src/main/java/de/cketti/library/changelog/XmlParser.java:102-103 | one item per release, in document order, each built from its own attributes and changes |
| `ChangeLogDocuments.ScanReleaseElement` | ckChangeLog-core/src/main/java/de/cketti/library/changelog/XmlParser.java:91-100 | the body of a release element yields the cleaned texts of its changes and ends at `</release>`, unless a change is empty: no text event follows its `<change>`, and `cleanText(null)` throws a message-less NullPointerException |
| `ChangeLogDocuments.ReleaseTagOfElement` | ckChangeLog-core/src/main/java/de/cketti/library/changelog/XmlParser.java:76-106 | a release element stops (the stop rule comes first), fails with cleanText(null)'s NullPointerException at an empty change (the body comes next), fails with "versionName == null" without `version` (checked last), or yields its item |
| `ChangeLogDocuments.ReadDocument` | ckChangeLog-core/src/main/java/de/cketti/library/changelog/XmlParser.java:57-68 | reading a well-formed document, empty changes without text events, gives what the element-by-element reading `Expected` gives: stop, empty-change failure, missing-version failure or the item, release by release |
| `ChangeLogDocuments.ExpectedIsPrefix` | ckChangeLog-core/src/main/java/de/cketti/library/changelog/XmlParser.java:57-68 | when the releases before the first stop all have a `version` and no empty change, the releases read are exactly those, in order, with no error |
| `ChangeLogDocuments.ExpectedMissingVersion` | ckChangeLog-core/src/main/java/de/cketti/library/changelog/XmlParser.java:77-102 | a release without `version` before the first stop, with no empty change up to and including it, makes the read fail with "versionName == null" |
| `ChangeLogDocuments.ExpectedEmptyChange` | ckChangeLog-core/src/main/java/de/cketti/library/changelog/XmlParser.java:91-97 | an empty change in a release before the first stop, after releases that all have a `version`, makes the read fail with cleanText(null)'s message-less NullPointerException, whether that release has a `version` or not |
| `ChangeLogDocuments.ParseDocumentKeepsAll` | ckChangeLog-core/src/main/java/de/cketti/library/changelog/XmlParser.java:41-44 | `parse(xml)` of a well-formed document whose releases all have a `version` and no empty change returns every release in document order, duplicates included, whatever the root tag is called |
| `ChangeLogDocuments.ParseDocumentSince` | ckChangeLog-core/src/main/java/de/cketti/library/changelog/XmlParser.java:46-49 | with a bound other than -1, `parse` of such a document returns exactly the releases before the first one at or below the bound |
| `ChangeLogDocuments.ParseDocumentEmptyChange` | ckChangeLog-core/src/main/java/de/cketti/library/changelog/XmlParser.java:46-49 | `parse(xml, v)` throws cleanText(null)'s NullPointerException, with no list, when a release it reads has an empty change and the releases before it all have a `version` |
| `ChangeLogDocuments.EmptyReleaseGivesNoChanges` | ckChangeLog-core/src/main/java/de/cketti/library/changelog/XmlParser.java:91-103 | a release without changes is an item with an empty change list, not an error |
| `ChangeLogDocuments.ChangeTextIsCleaned` | ckChangeLog-core/src/main/java/de/cketti/library/changelog/XmlParser.java:94-97 | a change's text is returned cleaned |
| `ChangeLogDocuments.MissingVersionFails` | ckChangeLog-core/src/main/java/de/cketti/library/changelog/XmlParser.java:77-102 | a release without `version` and without an empty change aborts `parse` with "versionName == null" |
| `ChangeLogDocuments.EmptyChangeFails` | ckChangeLog-core/src/main/java/de/cketti/library/changelog/XmlParser.java:91-97 | an empty `<change>` aborts `parse` with cleanText(null)'s message-less NullPointerException, with or without a `version`, because the body is read before the version is checked |
| `VersionOrder.Compare` | ckChangeLog-core/src/main/java/de/cketti/changelog/MergedChangeLogProvider.java:86-97 | the comparator: 1 when the left code is lower, -1 when higher, 0 when equal, so the higher code sorts first |
| `VersionOrder.CompareIsTotalPreorder` | ckChangeLog-core/src/main/java/de/cketti/changelog/MergedChangeLogProvider.java:86-97 | the comparator is antisymmetric and transitive, returns 0 exactly on equal codes, and puts the higher code first |
| `VersionOrder.Reverse` | ckChangeLog-core/src/main/java/de/cketti/library/changelog/ChangeLog.java:219 | the reversed list has the same length, with element `i` taken from the other end |
| `VersionOrder.InsertPermutes` | ckChangeLog-core/src/main/java/de/cketti/changelog/MergedChangeLogProvider.java:80 | one insertion step adds exactly the inserted element |
| `VersionOrder.InsertSorted` | ckChangeLog-core/src/main/java/de/cketti/changelog/MergedChangeLogProvider.java:80 | one insertion step keeps a newest-first list newest first |
| `VersionOrder.InsertWithKey` | ckChangeLog-core/src/main/java/de/cketti/changelog/MergedChangeLogProvider.java:80 | one insertion step puts the element before the others with its code |
| `VersionOrder.SortDesc` | ckChangeLog-core/src/main/java/de/cketti/changelog/MergedChangeLogProvider.java:80 | `Collections.sort` with that comparator, as a stable insertion sort; `SortDescCorrect` and `StableSortUnique` state what it promises |
| `VersionOrder.SortDescPermutes` | ckChangeLog-core/src/main/java/de/cketti/changelog/MergedChangeLogProvider.java:80 | sorting is a permutation |
| `VersionOrder.SortDescSorted` | ckChangeLog-core/src/main/java/de/cketti/changelog/MergedChangeLogProvider.java:80 | sorting leaves the codes non-increasing |
| `VersionOrder.SortDescStable` | ckChangeLog-core/src/main/java/de/cketti/changelog/MergedChangeLogProvider.java:80 | sorting keeps entries with equal codes in their original order |
| `VersionOrder.SortDescCorrect` | ckChangeLog-core/src/main/java/de/cketti/changelog/MergedChangeLogProvider.java:80 | the sorted list has the same length and elements, is newest first, and is stable |
| `VersionOrder.WithKeyWitness` | ckChangeLog-core/src/main/java/de/cketti/changelog/MergedChangeLogProvider.java:80 | a code with entries occurs in the list |
| `VersionOrder.BothEmptyOrNot` | ckChangeLog-core/src/main/java/de/cketti/changelog/MergedChangeLogProvider.java:80 | lists with the same entries per code are both empty or both not |
| `VersionOrder.SortedDeterminedByKeys` | ckChangeLog-core/src/main/java/de/cketti/changelog/MergedChangeLogProvider.java:80 | two newest-first lists with the same entries per code, in the same order, are equal |
| `VersionOrder.StableSortUnique` | ckChangeLog-core/src/main/java/de/cketti/changelog/MergedChangeLogProvider.java:80 | any newest-first list that keeps each code's entries in order is the sort's result, so any stable sort gives it |
| `VersionOrder.InsertOldest` | ckChangeLog-core/src/main/java/de/cketti/library/changelog/ChangeLog.java:219 | an element older than all others goes to the end |
| `VersionOrder.SortDescOfAscending` | ckChangeLog-core/src/main/java/de/cketti/library/changelog/ChangeLog.java:209-219 | sorting a list with strictly ascending codes reverses it |
| `VersionOrder.NewerThanMembers` | ckChangeLog-core/src/test/java/de/cketti/changelog/helper/ChangeLogProviderBuilder.java:34-43 | the filtered list holds exactly the entries with a code above the bound |
| `VersionOrder.NewerThanAppend` | ckChangeLog-core/src/test/java/de/cketti/changelog/helper/ChangeLogProviderBuilder.java:36-40 | filtering distributes over concatenation |
| `VersionOrder.NewerThanKeepsNewer` | ckChangeLog-core/src/test/java/de/cketti/changelog/helper/ChangeLogProviderBuilder.java:36-40 | filtering a list that is already newer than the bound changes nothing |
| `VersionOrder.WithKeyAppend` | ckChangeLog-core/src/main/java/de/cketti/changelog/MergedChangeLogProvider.java:80 | the entries with a code in a concatenation are those of each part |
| `VersionOrder.WithKeyNewerThan` | ckChangeLog-core/src/test/java/de/cketti/changelog/helper/ChangeLogProviderBuilder.java:36-40 | filtering keeps all entries of a code above the bound and none of the others |
| `VersionOrder.NewerThanSorted` | ckChangeLog-core/src/test/java/de/cketti/changelog/helper/ChangeLogProviderBuilder.java:36-40 | filtering keeps a newest-first list newest first |
| `VersionOrder.SortDescNewerThan` | ckChangeLog-core/src/main/java/de/cketti/changelog/MergedChangeLogProvider.java:80 | sorting then filtering is filtering then sorting |
| `LibraryChangeLogs.ReadLog` | ckChangeLog-core/src/main/java/de/cketti/library/changelog/ChangeLog.java:241-263 | what `readChangeLog` leaves in its SparseArray holds every release under its own code |
| `LibraryChangeLogs.LibraryChangeLog.NewInstance` | ckChangeLog-core/src/main/java/de/cketti/library/changelog/ChangeLog.java:77-83 | `newInstance(context)` reads the last code from the default preferences (-1 when absent), and the current code and name from the package manager (-1 and null when unknown) |
| `LibraryChangeLogs.LibraryChangeLog.NewInstanceWith` | ckChangeLog-core/src/main/java/de/cketti/library/changelog/ChangeLog.java:94-117 | `newInstance(context, preferences)` reads the last code from the given preferences |
| `LibraryChangeLogs.LibraryChangeLog.IsFirstRun` | ckChangeLog-core/src/main/java/de/cketti/library/changelog/ChangeLog.java:160-162 | `isFirstRun`: the last recorded code is below the current one |
| `LibraryChangeLogs.LibraryChangeLog.IsFirstRunEver` | ckChangeLog-core/src/main/java/de/cketti/library/changelog/ChangeLog.java:170-172 | `isFirstRunEver`: no code has been recorded (-1) |
| `LibraryChangeLogs.LibraryChangeLog.WriteCurrentVersionAsWritten` | ckChangeLog-core/src/main/java/de/cketti/library/changelog/ChangeLog.java:182-189 | the source's `writeCurrentVersion`: the current code goes to the default preferences, whichever preferences `init` read |
| `LibraryChangeLogs.LibraryChangeLog.WriteCurrentVersion` | ckChangeLog-core/src/main/java/de/cketti/library/changelog/ChangeLog.java:182-189 | corrected: the current code goes to the preferences `init` read, and nothing else changes |
| `LibraryChangeLogs.LibraryChangeLog.ParseReleaseTag` | ckChangeLog-core/src/main/java/de/cketti/library/changelog/ChangeLog.java:265-297 | on a release start tag: stops when not `full` and the code is at most the last code (no -1 exemption), or puts the release under its code (replacing an earlier one), or fails with the SparseArray unchanged |
| `LibraryChangeLogs.LibraryChangeLog.ReadChangeLog` | ckChangeLog-core/src/main/java/de/cketti/library/changelog/ChangeLog.java:241-263 | `readChangeLog` returns a fresh SparseArray of the releases read, indexed by code; a stream error ends the read and keeps what was read, and any other exception propagates |
| `LibraryChangeLogs.LibraryChangeLog.ReadChangeLogFromResource` | ckChangeLog-core/src/main/java/de/cketti/library/changelog/ChangeLog.java:232-239 | reading a resource from its first event gives `ReadLog` of that resource |
| `LibraryChangeLogs.LibraryChangeLog.GetChangeLog` | ckChangeLog-core/src/main/java/de/cketti/library/changelog/ChangeLog.java:203-222 | `getChangeLog(full)` propagates the master read's exception, then the localized read's; otherwise it lists exactly one release per master code, the localized one where there is one, with codes strictly descending |
| `LibraryChangeLogs.MergeByMasterKeys` | ckChangeLog-core/src/main/java/de/cketti/library/changelog/ChangeLog.java:209-219 | the loop over the master keys followed by the sort lists exactly one release per master code, the localized one where there is one, with codes strictly descending |
| `LibraryChangeLogs.MergedIsDescending` | ckChangeLog-core/src/main/java/de/cketti/library/changelog/ChangeLog.java:209-219 | walking the master keys in ascending order and sorting gives a strictly descending list of the picked releases |
| `LibraryChangeLogs.RecentLogKeepsOnlyNewer` | ckChangeLog-core/src/main/java/de/cketti/library/changelog/ChangeLog.java:278-280 | the "What's New" read holds only codes above the last version code, -1 included |
| `LibraryChangeLogs.RecentChangesAreNewer` | ckChangeLog-core/src/main/java/de/cketti/library/changelog/ChangeLog.java:203-217 | every release of `getChangeLog(false)` is newer than the last version code |
| `LibraryChangeLogs.ReadLogOfDocument` | ckChangeLog-core/src/main/java/de/cketti/library/changelog/ChangeLog.java:241-297 | a well-formed document whose releases before the first stop all have a `version` and no empty change reads as those releases, each code holding the last release with it |
| `LibraryChangeLogs.ReadLogEmptyChange` | ckChangeLog-core/src/main/java/de/cketti/library/changelog/ChangeLog.java:283-290 | an empty change in a release that is read, after releases that all have a `version`, makes `readChangeLog` throw cleanText(null)'s NullPointerException: only the stream exceptions are caught |
| `LibraryChangeLogs.FullLogLaterReleaseWins` | ckChangeLog-core/src/main/java/de/cketti/library/changelog/ChangeLog.java:293-294 | in the full read of a document whose releases all have a `version` and no empty change, a later release replaces an earlier one with the same code |
| `LibraryChangeLogs.FirstStopNever` | ckChangeLog-core/src/main/java/de/cketti/library/changelog/ChangeLog.java:278-280 | with `full` set, reading never stops early |
| `LibraryChangeLogs.MissingCodeStopsRecentLog` | ckChangeLog-core/src/main/java/de/cketti/library/changelog/ChangeLog.java:278-280 | on a first run ever, a release without `versioncode` stops the "What's New" read but not the full read, while `XmlParser` keeps it |
| `LibraryChangeLogs.RelaunchAsWrittenCounterexample` | ckChangeLog-core/src/main/java/de/cketti/library/changelog/ChangeLog.java:182-189 | as written, an app on its own preferences file is still on a first run, and a first run ever, after `writeCurrentVersion` |
| `LibraryChangeLogs.RelaunchAfterWrite` | ckChangeLog-core/src/main/java/de/cketti/library/changelog/ChangeLog.java:160-189 | with the corrected write, the next instance is not a first run, and is a first run ever only when the app's code is -1 |
| `LibraryChangeLogs.RelaunchWithDefaultPreferences` | ckChangeLog-core/src/main/java/de/cketti/library/changelog/ChangeLog.java:77-83 | on the default preferences the source's write already has that effect |
| `MergedChangeLogProviders.MergeSpec` | ckChangeLog-core/src/main/java/de/cketti/changelog/MergedChangeLogProvider.java:63-83 | the merge: each master entry replaced by the last localized entry with its code, if any, then sorted newest first; the lemmas below state its properties |
| `MergedChangeLogProviders.Merge` | ckChangeLog-core/src/main/java/de/cketti/changelog/MergedChangeLogProvider.java:63-83 | `merge` returns the specified merge: the localized list indexed by code, one choice per master entry, sorted newest first |
| `MergedChangeLogProviders.MergeSortsSelection` | ckChangeLog-core/src/main/java/de/cketti/changelog/MergedChangeLogProvider.java:69-80 | the merge is as long as the master list and newest first; it is a permutation of the chosen entries, and equal codes keep master order |
| `MergedChangeLogProviders.LocalizedWins` | ckChangeLog-core/src/main/java/de/cketti/changelog/MergedChangeLogProvider.java:64-75 | where the localized list has a master code, its last entry with that code is in the merge |
| `MergedChangeLogProviders.MasterFallback` | ckChangeLog-core/src/main/java/de/cketti/changelog/MergedChangeLogProvider.java:75 | where the localized list lacks a master code, the master entry is in the merge |
| `MergedChangeLogProviders.LocalizedOnlyDropped` | ckChangeLog-core/src/main/java/de/cketti/changelog/MergedChangeLogProvider.java:70-78 | every merged entry carries a master code and comes from one of the two lists |
| `MergedChangeLogProviders.MergeExample` | ckchangelog-core/src/test/java/de/cketti/changelog/MergedChangeLogProviderTest.java:20-40 | master 1, 2, 3 with localized 1, 2 merge to master 3, localized 2, localized 1 |
| `MergedChangeLogProviders.IndexByAppendOne` | ckChangeLog-core/src/main/java/de/cketti/changelog/MergedChangeLogProvider.java:65-67 | putting one more localized entry overwrites its code |
| `MergedChangeLogProviders.IndexByNewerThan` | ckChangeLog-core/src/main/java/de/cketti/changelog/MergedChangeLogProvider.java:56-61 | indexing a filtered localized list agrees with indexing the whole list above the bound |
| `MergedChangeLogProviders.SelectAppend` | ckChangeLog-core/src/main/java/de/cketti/changelog/MergedChangeLogProvider.java:70-78 | choosing for concatenated master lists is choosing for each |
| `MergedChangeLogProviders.SelectNewerThan` | ckChangeLog-core/src/main/java/de/cketti/changelog/MergedChangeLogProvider.java:56-61 | choosing for the filtered master list is filtering the choices |
| `MergedChangeLogProviders.MergeNewerThan` | ckChangeLog-core/src/main/java/de/cketti/changelog/MergedChangeLogProvider.java:50-61 | merging two filtered logs is filtering the merge of the full logs |
| `ChangeLogProviderBuilders.ChangeLogProviderBuilder.AddVersion` | ckChangeLog-core/src/test/java/de/cketti/changelog/helper/ChangeLogProviderBuilder.java:18-23 | `addVersion` appends exactly one release with its changes and returns the builder; a null name throws and adds nothing |
| `ChangeLogProviderBuilders.ChangeLogProviderBuilder.Build` | ckChangeLog-core/src/test/java/de/cketti/changelog/helper/ChangeLogProviderBuilder.java:25-26 | `build` returns a new provider holding a copy of the list as it is now, still tied to the builder |
| `ChangeLogProviderBuilders.BuiltProvider.GetChangeLog` | ckChangeLog-core/src/test/java/de/cketti/changelog/helper/ChangeLogProviderBuilder.java:28-31 | `getChangeLog` is the snapshot taken at `build`, whatever was added since |
| `ChangeLogProviderBuilders.BuiltProvider.GetChangeLogSince` | ckChangeLog-core/src/test/java/de/cketti/changelog/helper/ChangeLogProviderBuilder.java:33-43 | `getChangeLogSince` returns the builder's current releases above the bound, in insertion order |
| `ChangeLogProviderBuilders.AddAfterBuild` | ckChangeLog-core/src/test/java/de/cketti/changelog/helper/ChangeLogProviderBuilder.java:25-43 | a release added after `build` is missing from the full log but present in the since-log |
| `LibraryChangeLogProviderBuilders.LibraryChangeLogProviderBuilder.AddVersion` | ckChangeLog-core/src/test/java/de/cketti/library/changelog/helper/ChangeLogProviderBuilder.java:18-22 | the older `addVersion` appends exactly one release and returns the builder; a null name throws and adds nothing |
| `LibraryChangeLogProviderBuilders.LibraryChangeLogProviderBuilder.Build` | ckChangeLog-core/src/test/java/de/cketti/library/changelog/helper/ChangeLogProviderBuilder.java:24-25 | `build` returns a new provider holding a copy of the list, still tied to the builder |
| `LibraryChangeLogProviderBuilders.LibraryBuiltProvider.GetChangeLog` | ckChangeLog-core/src/test/java/de/cketti/library/changelog/helper/ChangeLogProviderBuilder.java:27-30 | `getChangeLog` is the snapshot taken at `build` |
| `LibraryChangeLogProviderBuilders.LibraryBuiltProvider.GetChangeLogSince` | ckChangeLog-core/src/test/java/de/cketti/library/changelog/helper/ChangeLogProviderBuilder.java:32-43 | `getChangeLogSince` filters the builder's live list by the bound, in order |
| `LibraryChangeLogProviderBuilders.SinceFiltersFullLog` | ckChangeLog-core/src/test/java/de/cketti/library/changelog/helper/ChangeLogProviderBuilder.java:24-43 | right after `build`, the since-log is the full log's releases above the bound, in order |
| `LibraryChangeLogProviderBuilders.AddAfterBuild` | ckChangeLog-core/src/test/java/de/cketti/library/changelog/helper/ChangeLogProviderBuilder.java:24-43 | a release added after `build` is missing from the full log but present in the since-log |
| `ChangeLogProviders.ChangeLogOf` | ckChangeLog-core/src/main/java/de/cketti/changelog/ChangeLogProvider.java:26-29 | `getChangeLog` of each provider: the builder's snapshot, or the merge of the two providers' full logs (MergedChangeLogProvider.java:50-54) |
| `ChangeLogProviders.SinceOf` | ckChangeLog-core/src/main/java/de/cketti/changelog/ChangeLogProvider.java:31-37 | `getChangeLogSince` of each provider: the builder's live list filtered by code, or the merge of the two providers' since-logs (MergedChangeLogProvider.java:57-61) |
| `ChangeLogProviders.NewMerged` | ckChangeLog-core/src/main/java/de/cketti/changelog/MergedChangeLogProvider.java:42-47 | a null master fails with "masterChangeLogProvider == null" before the localized provider is checked; a null localized provider fails with "localizedChangeLogProvider == null"; otherwise the merged provider holds the two |
| `ChangeLogProviders.GetChangeLog` | ckChangeLog-core/src/main/java/de/cketti/changelog/MergedChangeLogProvider.java:50-54 | `getChangeLog` returns the provider's full log; a merged provider merges its two providers' full logs |
| `ChangeLogProviders.GetChangeLogSince` | ckChangeLog-core/src/main/java/de/cketti/changelog/MergedChangeLogProvider.java:56-61 | `getChangeLogSince(v)` passes `v` to both providers and merges what they return |
| `ChangeLogProviders.MergedHonoursSince` | ckChangeLog-core/src/main/java/de/cketti/changelog/ChangeLogProvider.java:31-37 | merging two providers that return nothing at or below the bound returns nothing at or below it |
| `ChangeLogProviders.AllHonourSince` | ckChangeLog-core/src/main/java/de/cketti/changelog/ChangeLogProvider.java:31-37 | no provider's since-log holds a release at or below the bound |
| `ChangeLogProviders.UntouchedSinceFromLog` | ckChangeLog-core/src/main/java/de/cketti/changelog/ChangeLogProvider.java:22-37 | while no builder has grown since `build`, every provider's since-log is the newer part of its full log |
| `ChangeLogProviders.AddAfterBuildBreaksSinceFromLog` | ckChangeLog-core/src/test/java/de/cketti/changelog/helper/ChangeLogProviderBuilder.java:25-43 | a release added after `build` makes the since-log differ from the newer part of the full log |
| `ChangeLogs.ChangeLog.NewInstance` | ckChangeLog-core/src/main/java/de/cketti/changelog/ChangeLog.java:106-132 | the last code is read from the given preferences under "ckChangeLog_last_version_code" (-1 when absent); the current code and name come from the package manager (-1 and null when unknown) |
| `ChangeLogs.ChangeLog.IsFirstRun` | ckChangeLog-core/src/main/java/de/cketti/changelog/ChangeLog.java:175-177 | `isFirstRun`: the last recorded code is below the current one |
| `ChangeLogs.ChangeLog.IsFirstRunEver` | ckChangeLog-core/src/main/java/de/cketti/changelog/ChangeLog.java:185-187 | `isFirstRunEver`: no code has been recorded (-1) |
| `ChangeLogs.ChangeLog.WriteCurrentVersion` | ckChangeLog-core/src/main/java/de/cketti/changelog/ChangeLog.java:197-201 | the current code is stored under the key in this instance's preferences; the instance's fields do not change |
| `ChangeLogs.ChangeLog.GetChangeLog` | ckChangeLog-core/src/main/java/de/cketti/changelog/ChangeLog.java:208-210 | `getChangeLog` is the provider's full log |
| `ChangeLogs.ChangeLog.GetRecentChanges` | ckChangeLog-core/src/main/java/de/cketti/changelog/ChangeLog.java:217-219 | `getRecentChanges` is the provider's since-log for the last code, and holds nothing at or below that code |
| `ChangeLogs.RecentChangesFilterFullLog` | ckChangeLog-core/src/main/java/de/cketti/changelog/ChangeLog.java:203-219 | with untouched providers the recent changes are exactly the full log's releases newer than the last code, in order |
| `ChangeLogs.RelaunchAfterWrite` | ckChangeLog-core/src/main/java/de/cketti/changelog/ChangeLog.java:134-201 | after `writeCurrentVersion` the next instance is not a first run, and is a first run ever only when the app's code is -1 |
| `ChangeLogs.FirstLaunch` | ckChangeLog-core/src/main/java/de/cketti/changelog/ChangeLog.java:170-187 | with nothing stored and a known app, both `isFirstRun` and `isFirstRunEver` hold |
| `HtmlFormatters.Page` | ckChangeLog-dialog/src/main/java/de/cketti/changelog/dialog/HtmlFormatter.java:34-56 | the page: the head with the CSS, one heading and list per release in log order, then the closing tags |
| `HtmlFormatters.HtmlFormatter.constructor` | ckChangeLog-dialog/src/main/java/de/cketti/changelog/dialog/HtmlFormatter.java:29-32 | the formatter keeps its version format and CSS |
| `HtmlFormatters.HtmlFormatter.CreateHtmlChangeLog` | ckChangeLog-dialog/src/main/java/de/cketti/changelog/dialog/HtmlFormatter.java:34-56 | the nested append loops build the page: head with the CSS, one block per release in order, closing tags |
| `HtmlFormatters.BlocksAppend` | ckChangeLog-dialog/src/main/java/de/cketti/changelog/dialog/HtmlFormatter.java:41-51 | rendering a concatenated log renders each part, one after the other |
| `HtmlFormatters.ItemsAppend` | ckChangeLog-dialog/src/main/java/de/cketti/changelog/dialog/HtmlFormatter.java:45-49 | the items of concatenated change lists are each list's items, one after the other |
| `HtmlFormatters.EmptyLogPage` | ckChangeLog-dialog/src/main/java/de/cketti/changelog/dialog/HtmlFormatter.java:37-53 | an empty log renders as the head with the CSS followed by the closing tags |
| `HtmlFormatters.OneReleasePage` | ckChangeLog-dialog/src/main/java/de/cketti/changelog/dialog/HtmlFormatter.java:37-53 | a one-release log renders its heading and its items between head and closing tags |
| `HtmlFormatters.NoChangesBlock` | ckChangeLog-dialog/src/main/java/de/cketti/changelog/dialog/HtmlFormatter.java:42-50 | a release without changes still renders `<h1>…</h1><ul></ul>` |
| `HtmlFormatters.BlocksAround` | ckChangeLog-dialog/src/main/java/de/cketti/changelog/dialog/HtmlFormatter.java:41-51 | the blocks split around any release: the blocks before it, its own block, the blocks after it |
| `HtmlFormatters.ItemsAround` | ckChangeLog-dialog/src/main/java/de/cketti/changelog/dialog/HtmlFormatter.java:45-49 | the items split around any change: the items before it, its own item, the items after it |
| `HtmlFormatters.PageAround` | ckChangeLog-dialog/src/main/java/de/cketti/changelog/dialog/HtmlFormatter.java:34-56 | the page splits around any release's heading and list |
| `HtmlFormatters.ReleaseHeaded` | ckChangeLog-dialog/src/main/java/de/cketti/changelog/dialog/HtmlFormatter.java:42-44 | every release's formatted name appears in the page as an `<h1>` heading that opens a list |
| `HtmlFormatters.ChangeListed` | ckChangeLog-dialog/src/main/java/de/cketti/changelog/dialog/HtmlFormatter.java:45-49 | every change appears verbatim, unescaped, as `<li>change</li>` |

## Left out

- XML tokenising: the events are an input. Byte decoding, entities and well-formedness checks belong to the pull-parser library and are not modelled; a tokenizer error is the event stream running out.
- `IOException` from the pull parser: only `XmlPullParserException` is modelled. Both parsers treat the two alike (`XmlParser` rethrows both, the library `ChangeLog` swallows both).
- Text split across several events: after `<change>` only the one event that follows is read, as the code reads it; the pull parser is assumed to merge adjacent text.
- `String.format(versionFormat, versionName)` is a library call; `createHtmlChangeLog` takes it as a function parameter `format`.
- `Integer.parseInt`: decimal ASCII digits with an optional sign. Non-ASCII digits, which Java also accepts, are not modelled.
- Strings are sequences of UTF-16 code units, as `char` is in Java; `trim()` cuts characters at or below U+0020 and `\s` matches space, tab, newline, U+000B, form feed and carriage return.
- Preferences durability: `apply()` and `commit()` both write at once; background writes and write failures are not modelled.
- ResourceChangeLogProvider.java is not part of this model, so `ChangeLog.newInstance(context)` and `ChangeLog.newInstance(context, preferences)` of the newer class, which build one, are not modelled; `newInstance(context, preferences, changeLogProvider)` is.
- The library `ChangeLog`'s resources: `getXml(resId)` is the fields `masterXml` and `localizedXml`, and the `finally { xml.close(); }` of `readChangeLogFromResource` is not modelled.
- The getters `getLastVersionCode`, `getCurrentVersionCode` and `getCurrentVersionName` of both `ChangeLog` classes: the fields are read directly.
- Logging (`Log.e`) has no effect on results and is left out.
- Object identity of returned lists: the model returns list values, so which calls return a fresh `ArrayList` and which return a read-only view of the same list is not captured, except where it changes results (the builders' snapshot versus live list, and `ReleaseItem`'s copy versus wrap).
- `ReleaseItem.toString` is not used by the change-log logic.
- UI: `DialogChangeLog`, `ChangelogListAdapter` and the sample activities.

## Findings

| source | as written | input that shows it | evidently intended | confidence | as-written member | corrected member |
|---|---|---|---|---|---|---|
| ckChangeLog-core/src/main/java/de/cketti/library/changelog/ChangeLog.java:182-189 | `writeCurrentVersion` always writes the default SharedPreferences, even for an instance made by `newInstance(context, preferences)`, whose `init` read the given preferences | an app that keeps the code in its own preferences file, with nothing stored yet and current code 2: after `writeCurrentVersion` a new instance on the same preferences still reports `isFirstRun()` and `isFirstRunEver()` | write to the preferences that `init` read, as the newer `ChangeLog` does (ckChangeLog-core/src/main/java/de/cketti/changelog/ChangeLog.java:197-201) | not executed | `LibraryChangeLogs.RelaunchAsWrittenCounterexample` | `LibraryChangeLogs.RelaunchAfterWrite` |
