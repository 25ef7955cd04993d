/**
 * HtmlFormatter of the dialog module: renders a change log as one HTML page,
 * a style header with the caller's CSS, then per release an `<h1>` heading
 * with the formatted version name and a `<ul>` list holding each change as an
 * `<li>` item, verbatim (nothing is escaped).
 *
 * `String.format(versionFormat, versionName)` is a library call whose
 * behaviour is not modelled; it is passed in as `format`.
 */
module HtmlFormatters {
  import opened ReleaseItems

  const HEAD_OPEN: string := "<html><head><style type=\"text/css\">"
  const HEAD_CLOSE: string := "</style></head><body>"
  const PAGE_CLOSE: string := "</body></html>"

  /** The page up to and including the opening of the body. */
  function Head(css: string): string {
    HEAD_OPEN + css + HEAD_CLOSE
  }

  /** One list item. */
  function Item(change: string): string {
    "<li>" + change + "</li>"
  }

  /** The list items of one release, in order. */
  function Items(changes: seq<string>): string {
    if changes == [] then "" else Items(changes[..|changes| - 1]) + Item(changes[|changes| - 1])
  }

  /** The heading of a release and the opening of its list. */
  function Opening(title: string): string {
    "<h1>" + title + "</h1><ul>"
  }

  /** One release: its heading and its list. */
  function Block(title: string, changes: seq<string>): string {
    Opening(title) + Items(changes) + "</ul>"
  }

  /** Every release's block, in the order of the log. */
  function Blocks(changelog: seq<Release>, versionFormat: string, format: (string, string) -> string): string {
    if changelog == [] then ""
    else
      var release := changelog[|changelog| - 1];
      Blocks(changelog[..|changelog| - 1], versionFormat, format) + Block(format(versionFormat, release.versionName), release.changes)
  }

  /** The whole page. */
  function Page(css: string, changelog: seq<Release>, versionFormat: string, format: (string, string) -> string): string {
    Head(css) + Blocks(changelog, versionFormat, format) + PAGE_CLOSE
  }

  class HtmlFormatter {
    const versionFormat: string
    const css: string

    constructor (versionFormat: string, css: string)
      ensures this.versionFormat == versionFormat && this.css == css
    {
      this.versionFormat := versionFormat;
      this.css := css;
    }

    /** createHtmlChangeLog: the page is built by appending to one buffer, release by release, change by change. */
    method CreateHtmlChangeLog(changelog: seq<Release>, format: (string, string) -> string) returns (html: string)
      ensures html == Page(css, changelog, versionFormat, format)
    {
      var sb: string := [];
      sb := sb + HEAD_OPEN;
      sb := sb + css;
      sb := sb + HEAD_CLOSE;
      assert sb == Head(css);
      for i := 0 to |changelog|
        invariant sb == Head(css) + Blocks(changelog[..i], versionFormat, format)
      {
        var release := changelog[i];
        ghost var before := sb;
        var title := format(versionFormat, release.versionName);
        sb := sb + "<h1>";
        sb := sb + title;
        sb := sb + "</h1><ul>";
        ghost var list := sb;
        assert list == before + Opening(title) by {
          Assoc3(before, "<h1>", title, "</h1><ul>");
        }
        for j := 0 to |release.changes|
          invariant sb == list + Items(release.changes[..j])
        {
          var change := release.changes[j];
          ghost var prev := sb;
          sb := sb + "<li>";
          sb := sb + change;
          sb := sb + "</li>";
          assert sb == prev + Item(change) by {
            Assoc3(prev, "<li>", change, "</li>");
          }
          ItemsStep(release.changes, j);
          Assoc(list, Items(release.changes[..j]), Item(change));
        }
        assert release.changes[..|release.changes|] == release.changes;
        ghost var items := Items(release.changes);
        sb := sb + "</ul>";
        assert sb == before + Block(title, release.changes) by {
          Assoc(before, Opening(title), items);
          Assoc(before, Opening(title) + items, "</ul>");
        }
        BlocksStep(changelog, versionFormat, format, i);
        Assoc(Head(css), Blocks(changelog[..i], versionFormat, format), Block(title, release.changes));
      }
      sb := sb + PAGE_CLOSE;
      assert changelog[..|changelog|] == changelog;
      html := sb;
    }
  }

  /** One more change renders one more item. */
  lemma ItemsStep(changes: seq<string>, j: nat)
    requires j < |changes|
    ensures Items(changes[..j + 1]) == Items(changes[..j]) + Item(changes[j])
  {
    assert changes[..j + 1][..j] == changes[..j];
  }

  /** One more release renders one more block. */
  lemma BlocksStep(changelog: seq<Release>, versionFormat: string, format: (string, string) -> string, i: nat)
    requires i < |changelog|
    ensures Blocks(changelog[..i + 1], versionFormat, format)
            == Blocks(changelog[..i], versionFormat, format)
               + Block(format(versionFormat, changelog[i].versionName), changelog[i].changes)
  {
    assert changelog[..i + 1][..i] == changelog[..i];
  }

  lemma Assoc(a: string, b: string, c: string)
    ensures a + b + c == a + (b + c)
  {
  }

  lemma Assoc3(a: string, b: string, c: string, d: string)
    ensures a + b + c + d == a + (b + c + d)
  {
  }

  /** A sequence is the part before its `j`-th element, that element, and the part after it. */
  lemma SplitAt<T>(s: seq<T>, j: nat)
    requires j < |s|
    ensures s == (s[..j] + [s[j]]) + s[j + 1..]
  {
    assert s[..j] + [s[j]] == s[..j + 1];
  }

  /** Rendering a log in two parts renders each part, one after the other. */
  lemma {:induction false} BlocksAppend(a: seq<Release>, b: seq<Release>, versionFormat: string, format: (string, string) -> string)
    ensures Blocks(a + b, versionFormat, format) == Blocks(a, versionFormat, format) + Blocks(b, versionFormat, format)
    decreases |b|
  {
    if b == [] {
      assert a + b == a;
    } else {
      var init, last := b[..|b| - 1], b[|b| - 1];
      assert (a + b)[..|a + b| - 1] == a + init;
      assert (a + b)[|a + b| - 1] == last;
      BlocksAppend(a, init, versionFormat, format);
      Assoc(Blocks(a, versionFormat, format), Blocks(init, versionFormat, format),
            Block(format(versionFormat, last.versionName), last.changes));
    }
  }

  /** The list items of two groups of changes are the items of each, one after the other. */
  lemma {:induction false} ItemsAppend(a: seq<string>, b: seq<string>)
    ensures Items(a + b) == Items(a) + Items(b)
    decreases |b|
  {
    if b == [] {
      assert a + b == a;
    } else {
      var init := b[..|b| - 1];
      assert (a + b)[..|a + b| - 1] == a + init;
      assert (a + b)[|a + b| - 1] == b[|b| - 1];
      ItemsAppend(a, init);
    }
  }

  /** An empty log renders as the head and the closing tags alone. */
  lemma EmptyLogPage(css: string, versionFormat: string, format: (string, string) -> string)
    ensures Page(css, [], versionFormat, format) == HEAD_OPEN + css + HEAD_CLOSE + PAGE_CLOSE
  {
  }

  /** A one-release log renders its heading and its changes' items between head and closing tags. */
  lemma OneReleasePage(css: string, release: Release, versionFormat: string, format: (string, string) -> string)
    ensures Page(css, [release], versionFormat, format)
            == Head(css) + Opening(format(versionFormat, release.versionName)) + Items(release.changes) + "</ul>" + PAGE_CLOSE
  {
    assert [release][..0] == [];
    var o, items := Opening(format(versionFormat, release.versionName)), Items(release.changes);
    assert Blocks([release], versionFormat, format) == o + items + "</ul>";
    Assoc(Head(css), o + items, "</ul>");
    Assoc(Head(css), o, items);
  }

  /** A release without changes renders as its heading and an empty list. */
  lemma NoChangesBlock(title: string)
    ensures Block(title, []) == "<h1>" + title + "</h1><ul></ul>"
  {
    assert Opening(title) + "" == Opening(title);
    Assoc(Opening(title), "", "</ul>");
    Assoc3("<h1>", title, "</h1><ul>", "</ul>");
  }

  /** The blocks of a log split around its `i`-th release. */
  lemma BlocksAround(changelog: seq<Release>, versionFormat: string, format: (string, string) -> string, i: nat)
    requires i < |changelog|
    ensures Blocks(changelog, versionFormat, format)
            == Blocks(changelog[..i], versionFormat, format)
               + Block(format(versionFormat, changelog[i].versionName), changelog[i].changes)
               + Blocks(changelog[i + 1..], versionFormat, format)
  {
    var release := changelog[i];
    assert changelog == changelog[..i] + [release] + changelog[i + 1..];
    BlocksAppend(changelog[..i] + [release], changelog[i + 1..], versionFormat, format);
    BlocksAppend(changelog[..i], [release], versionFormat, format);
    assert [release][..0] == [];
  }

  /** The items of a list of changes split around its `j`-th change. */
  lemma ItemsAround(changes: seq<string>, j: nat)
    requires j < |changes|
    ensures Items(changes) == Items(changes[..j]) + Item(changes[j]) + Items(changes[j + 1..])
  {
    var before, one, after := changes[..j], [changes[j]], changes[j + 1..];
    SplitAt(changes, j);
    assert Items(one) == Item(changes[j]) by {
      assert one[..0] == [];
    }
    calc {
      Items(changes);
      Items((before + one) + after);
      { ItemsAppend(before + one, after); }
      Items(before + one) + Items(after);
      { ItemsAppend(before, one); }
      Items(before) + Items(one) + Items(after);
    }
  }

  /** The page split around the list of its `i`-th release. */
  lemma PageAround(css: string, changelog: seq<Release>, versionFormat: string, format: (string, string) -> string, i: nat)
    requires i < |changelog|
    ensures Page(css, changelog, versionFormat, format)
            == (Head(css) + Blocks(changelog[..i], versionFormat, format))
               + (Opening(format(versionFormat, changelog[i].versionName))
                  + (Items(changelog[i].changes) + ("</ul>" + Blocks(changelog[i + 1..], versionFormat, format) + PAGE_CLOSE)))
  {
    BlocksAround(changelog, versionFormat, format, i);
    var h, p, q := Head(css), Blocks(changelog[..i], versionFormat, format), Blocks(changelog[i + 1..], versionFormat, format);
    var o, items := Opening(format(versionFormat, changelog[i].versionName)), Items(changelog[i].changes);
    var rest := "</ul>" + q + PAGE_CLOSE;
    calc {
      Page(css, changelog, versionFormat, format);
      h + (p + (o + items + "</ul>") + q) + PAGE_CLOSE;
      { Assoc(p, o + items + "</ul>", q); }
      h + (p + (o + items + "</ul>" + q)) + PAGE_CLOSE;
      { Assoc(h, p, o + items + "</ul>" + q); }
      h + p + (o + items + "</ul>" + q) + PAGE_CLOSE;
      { Assoc(h + p, o + items + "</ul>" + q, PAGE_CLOSE); }
      (h + p) + (o + items + "</ul>" + q + PAGE_CLOSE);
      { Assoc3(o + items, "</ul>", q, PAGE_CLOSE); }
      (h + p) + (o + items + rest);
      { Assoc(o, items, rest); }
      (h + p) + (o + (items + rest));
    }
  }

  /** Every release's formatted version name appears in the page as an `<h1>` heading opening its list. */
  lemma ReleaseHeaded(css: string, changelog: seq<Release>, versionFormat: string, format: (string, string) -> string, i: nat)
    returns (before: string, after: string)
    requires i < |changelog|
    ensures Page(css, changelog, versionFormat, format)
            == before + Opening(format(versionFormat, changelog[i].versionName)) + after
  {
    PageAround(css, changelog, versionFormat, format, i);
    before := Head(css) + Blocks(changelog[..i], versionFormat, format);
    after := Items(changelog[i].changes) + ("</ul>" + Blocks(changelog[i + 1..], versionFormat, format) + PAGE_CLOSE);
    Assoc(before, Opening(format(versionFormat, changelog[i].versionName)), after);
  }

  /** Every change of every release appears in the page verbatim, as one list item. */
  lemma ChangeListed(css: string, changelog: seq<Release>, versionFormat: string, format: (string, string) -> string, i: nat, j: nat)
    returns (before: string, after: string)
    requires i < |changelog| && j < |changelog[i].changes|
    ensures Page(css, changelog, versionFormat, format) == before + Item(changelog[i].changes[j]) + after
  {
    var changes := changelog[i].changes;
    PageAround(css, changelog, versionFormat, format, i);
    ItemsAround(changes, j);
    var h := Head(css) + Blocks(changelog[..i], versionFormat, format);
    var o := Opening(format(versionFormat, changelog[i].versionName));
    var rest := "</ul>" + Blocks(changelog[i + 1..], versionFormat, format) + PAGE_CLOSE;
    var i1, x, i2 := Items(changes[..j]), Item(changes[j]), Items(changes[j + 1..]);
    before := h + o + i1;
    after := i2 + rest;
    calc {
      Page(css, changelog, versionFormat, format);
      h + (o + (i1 + x + i2 + rest));
      { Assoc(h, o, i1 + x + i2 + rest); }
      h + o + (i1 + x + i2 + rest);
      { Assoc3(i1, x, i2, rest); }
      h + o + (i1 + (x + i2 + rest));
      { Assoc(h + o, i1, x + i2 + rest); }
      before + (x + i2 + rest);
      { Assoc(x, i2, rest); }
      before + (x + after);
      { Assoc(before, x, after); }
      before + x + after;
    }
  }
}
