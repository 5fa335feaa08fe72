/**
  The six page-list extractors, one per yearbook site layout. Each walks the
  menu elements the browser reports and builds the ordered page list and the
  rename map; each method is proved to build exactly `Accumulate` of the
  harvests its layout defines, and the lemmas after it say what that page
  list holds.

  The browser is an input: the elements an XPath query finds are given as
  sequences, the elements of a page reached by `driver.get(ch)` come from a
  `visit` function of the address, and `ast.literal_eval` together with the
  fields read from its result is a `parse` function returning `None` where
  Python would raise.
*/
module Extractors {
  import opened Wrappers
  import opened PyStr
  import opened Names
  import opened Pages
  import Percent

  /** The two fields an extractor reads from a parsed menu literal: the link and the chapter title. */
  datatype MenuRecord = MenuRecord(link: string, title: string)

  type Parser = string -> Option<MenuRecord>

  // ---------------------------------------------------------------------
  // Standard layout: every `<a href>` of the current page.

  /** One anchor: skipped without an href, else its decoded last segment labelled by its cleaned text. */
  function StdHarvest(a: Link): Harvest {
    if a.href == "" then Skip
    else
      var raw := Ident(a.href);
      match Percent.Unquote(raw)
      case None => Broken(UndecodableName(raw))
      case Some(f) => Found(Entry(a.href, f), Some(CleanLabel(a.html)))
  }

  function StdHarvests(links: seq<Link>): seq<Harvest> {
    Harvests(links, StdHarvest)
  }

  method GetPagesStd(links: seq<Link>) returns (r: Result<Extracted, ExtractError>)
    ensures r == Accumulate(StdHarvests(links))
  {
    ghost var hs := StdHarvests(links);
    var pageList: seq<Entry> := [];
    var renameDict: map<string, string> := map[];
    for i := 0 to |links|
      invariant Accumulate(hs[..i]) == Success(Extracted(pageList, renameDict))
    {
      AccumulatePrefix(hs, i);
      var page := links[i];
      if page.href != "" {
        var u := page.href;
        var fRaw := Ident(u);
        var decoded := Percent.Unquote(fRaw);
        if decoded.None? {
          AbortAt(hs, i);
          return Failure(UndecodableName(fRaw));
        }
        var f := decoded.value;
        var n := CleanLabel(page.html);
        pageList := pageList + [Entry(u, f)];
        renameDict := renameDict[f := n];
      }
    }
    TakeAll(hs);
    r := Success(Extracted(pageList, renameDict));
  }

  /** The non-empty hrefs of `links`, in order. */
  function NonEmptyHrefs(links: seq<Link>): seq<string> {
    if links == [] then []
    else
      var a := links[|links| - 1];
      NonEmptyHrefs(links[..|links| - 1]) + (if a.href != "" then [a.href] else [])
  }

  /**
    A per-anchor harvest that skips exactly the anchors without an href and
    keeps an anchor's href as its entry's link lists the hrefs in order.
  */
  lemma {:induction false} PageOrder(links: seq<Link>, f: Link -> Harvest)
    requires forall a :: f(a).Skip? <==> a.href == ""
    requires forall a :: f(a).Found? ==> f(a).entry.url == a.href
    requires forall i :: 0 <= i < |links| ==> !f(links[i]).Broken?
    ensures Urls(FoundEntries(Harvests(links, f))) == NonEmptyHrefs(links)
  {
    if links != [] {
      var p, a := links[..|links| - 1], links[|links| - 1];
      HarvestsSnoc(links, f);
      PageOrder(p, f);
      FoundEntriesSnoc(Harvests(p, f), f(a));
      var es := FoundEntries(Harvests(p, f));
      if a.href != "" {
        UrlsSnoc(es, f(a).entry);
      } else {
        assert es + [] == es;
      }
    }
  }

  /** The standard extractor fails exactly when some anchor with an href has a last segment that does not decode. */
  lemma StdFailure(links: seq<Link>)
    ensures Accumulate(StdHarvests(links)).Failure? <==>
      exists i :: 0 <= i < |links| && links[i].href != "" && Percent.Unquote(Ident(links[i].href)).None?
  {
    var hs := StdHarvests(links);
    AccumulateOutcome(hs);
    forall i | 0 <= i < |links|
      ensures hs[i].Broken? <==> links[i].href != "" && Percent.Unquote(Ident(links[i].href)).None?
    {
    }
  }

  /**
    Otherwise its page list holds the hrefs in document order, each
    identified by its decoded last segment, and every identifier has a label.
  */
  lemma StdPages(links: seq<Link>)
    requires Accumulate(StdHarvests(links)).Success?
    ensures var x := Accumulate(StdHarvests(links)).value;
      && Urls(x.pages) == NonEmptyHrefs(links)
      && (forall e :: e in x.pages ==> Percent.Unquote(Ident(e.url)) == Some(e.ident) && e.ident in x.renames)
  {
    var hs := StdHarvests(links);
    AccumulateOutcome(hs);
    assert forall i :: 0 <= i < |links| ==> !StdHarvest(links[i]).Broken? by {
      forall i | 0 <= i < |links| ensures !StdHarvest(links[i]).Broken? {
        assert hs[i] == StdHarvest(links[i]);
      }
    }
    PageOrder(links, StdHarvest);
    EveryPageNamed(hs);
    FoundSatisfy(hs, (e: Entry) => Percent.Unquote(Ident(e.url)) == Some(e.ident));
  }

  // ---------------------------------------------------------------------
  // Anhui 2006-2022: `d.add(...)` calls in the dtree script of the left frame.

  /** One `d.add(...)` argument list: field 3 is the link, relative to the frame's directory; field 2 the title. */
  function Ah06Harvest(root: string, item: string, parse: Parser): Harvest {
    match parse(item)
    case None => Broken(MalformedLiteral(item))
    case Some(tup) =>
      if tup.link == "" then Skip
      else
        var u := root + tup.link;
        Found(Entry(u, Ident(u)), Some(tup.title))
  }

  function Ah06Harvests(frameUrl: string, items: seq<string>, parse: Parser): seq<Harvest> {
    Harvests(items, (item: string) => Ah06Harvest(Root(frameUrl), item, parse))
  }

  method GetPagesAh06(frameUrl: string, items: seq<string>, parse: Parser)
    returns (r: Result<Extracted, ExtractError>)
    ensures r == Accumulate(Ah06Harvests(frameUrl, items, parse))
  {
    ghost var hs := Ah06Harvests(frameUrl, items, parse);
    var root := Root(frameUrl);
    var pageList: seq<Entry> := [];
    var renameDict: map<string, string> := map[];
    for i := 0 to |items|
      invariant Accumulate(hs[..i]) == Success(Extracted(pageList, renameDict))
    {
      AccumulatePrefix(hs, i);
      var tup := parse(items[i]);
      if tup.None? {
        AbortAt(hs, i);
        return Failure(MalformedLiteral(items[i]));
      }
      if tup.value.link != "" {
        var u := root + tup.value.link;
        var f := Ident(u);
        var n := tup.value.title;
        pageList := pageList + [Entry(u, f)];
        renameDict := renameDict[f := n];
      }
    }
    TakeAll(hs);
    r := Success(Extracted(pageList, renameDict));
  }

  /** Every Anhui 2006-2022 page lies under the frame's directory, is identified by its last segment, and is labelled. */
  lemma Ah06Pages(frameUrl: string, items: seq<string>, parse: Parser)
    requires Accumulate(Ah06Harvests(frameUrl, items, parse)).Success?
    ensures var x := Accumulate(Ah06Harvests(frameUrl, items, parse)).value;
      forall e :: e in x.pages ==>
        && |Root(frameUrl)| <= |e.url| && e.url[..|Root(frameUrl)|] == Root(frameUrl)
        && e.ident == Ident(e.url) && e.ident in x.renames
  {
    var hs := Ah06Harvests(frameUrl, items, parse);
    var root := Root(frameUrl);
    AccumulateOutcome(hs);
    EveryPageNamed(hs);
    FoundSatisfy(hs, (e: Entry) => |root| <= |e.url| && e.url[..|root|] == root && e.ident == Ident(e.url));
  }

  // ---------------------------------------------------------------------
  // Anhui 2023 and later: `{"index": ...}` records of the `const contents` script.

  /** One record, with its `"opened":false` flag removed: links are relative to `statics/`, keyed by the link without extension. */
  function Ah23Harvest(root: string, item: string, parse: Parser): Harvest {
    var text := DropOpenedFlag(item);
    match parse(text)
    case None => Broken(MalformedLiteral(text))
    case Some(d) =>
      if d.link == "" then Skip
      else Found(Entry(root + d.link, Key(d.link)), Some(d.title))
  }

  /** The directory the 2023 and later menu links are relative to. */
  function Ah23Root(url: string): string {
    Root(url) + "statics/"
  }

  function Ah23Harvests(url: string, items: seq<string>, parse: Parser): seq<Harvest> {
    Harvests(items, (item: string) => Ah23Harvest(Ah23Root(url), item, parse))
  }

  method GetPagesAh23(url: string, items: seq<string>, parse: Parser)
    returns (r: Result<Extracted, ExtractError>)
    ensures r == Accumulate(Ah23Harvests(url, items, parse))
  {
    ghost var hs := Ah23Harvests(url, items, parse);
    var pageList: seq<Entry> := [];
    var renameDict: map<string, string> := map[];
    var root := Root(url) + "statics/";
    for i := 0 to |items|
      invariant Accumulate(hs[..i]) == Success(Extracted(pageList, renameDict))
    {
      AccumulatePrefix(hs, i);
      var text := DropOpenedFlag(items[i]);
      var d := parse(text);
      if d.None? {
        AbortAt(hs, i);
        return Failure(MalformedLiteral(text));
      }
      if d.value.link != "" {
        var u := root + d.value.link;
        var ff := d.value.link;
        var f := Key(ff);
        var n := d.value.title;
        pageList := pageList + [Entry(u, f)];
        renameDict := renameDict[f := n];
      }
    }
    TakeAll(hs);
    r := Success(Extracted(pageList, renameDict));
  }

  /** Every 2023 and later page lies under `statics/`, is keyed by its link's name without extension, and is labelled. */
  lemma Ah23Pages(url: string, items: seq<string>, parse: Parser)
    requires Accumulate(Ah23Harvests(url, items, parse)).Success?
    ensures var x := Accumulate(Ah23Harvests(url, items, parse)).value;
      forall e :: e in x.pages ==>
        && |Ah23Root(url)| <= |e.url| && e.url[..|Ah23Root(url)|] == Ah23Root(url)
        && e.ident == Key(e.url[|Ah23Root(url)|..]) && e.ident in x.renames
  {
    var hs := Ah23Harvests(url, items, parse);
    var root := Ah23Root(url);
    AccumulateOutcome(hs);
    EveryPageNamed(hs);
    forall i | 0 <= i < |hs| && hs[i].Found?
      ensures |root| <= |hs[i].entry.url| && hs[i].entry.url[..|root|] == root
      ensures hs[i].entry.ident == Key(hs[i].entry.url[|root|..])
    {
      var d := parse(DropOpenedFlag(items[i])).value;
      assert (root + d.link)[|root|..] == d.link;
    }
    FoundSatisfy(hs, (e: Entry) => |root| <= |e.url| && e.url[..|root|] == root && e.ident == Key(e.url[|root|..]));
  }

  // ---------------------------------------------------------------------
  // Anhui 2004-2005: the `mainFrame` menu, or chapters of `javascript:hf(...)` links.

  /** The name of the script call whose arguments an Anhui 2004-2005 chapter link carries. */
  const HfCall: string := "javascript:hf"

  /** One `javascript:hf(...)` href: the call's arguments, percent-decoded and parsed; link relative to the chapter's directory. */
  function Ah04HfHarvest(root: string, href: string, parse: Parser): Harvest {
    HfArgumentsHarvest(root, Replace(href, HfCall, ""), parse)
  }

  /** The call's arguments `soup`, percent-decoded and parsed. */
  function HfArgumentsHarvest(root: string, soup: string, parse: Parser): Harvest {
    match Percent.Unquote(soup)
    case None => Broken(UndecodableName(soup))
    case Some(clean) =>
      match parse(clean)
      case None => Broken(MalformedLiteral(clean))
      case Some(tup) =>
        if tup.link == "" then Skip
        else
          var u := root + tup.link;
          Found(Entry(u, Ident(u)), Some(tup.title))
  }

  /** The harvests of one chapter page. */
  function Ah04Chapter(ch: string, visit: string -> seq<string>, parse: Parser): seq<Harvest> {
    Harvests(visit(ch), (href: string) => Ah04HfHarvest(Root(ch), href, parse))
  }

  function Ah04Chapters(chList: seq<string>, visit: string -> seq<string>, parse: Parser): seq<seq<Harvest>> {
    seq(|chList|, c requires 0 <= c < |chList| => Ah04Chapter(chList[c], visit, parse))
  }

  /** The menu-font anchors when there are any, otherwise every chapter's hf links in chapter order. */
  function Ah04Spec(menu: seq<Link>, chapters: seq<Link>, visit: string -> seq<string>, parse: Parser)
    : Result<Extracted, ExtractError>
  {
    if |menu| > 0 then Accumulate(StdHarvests(menu))
    else Accumulate(Flatten(Ah04Chapters(NonEmptyHrefs(chapters), visit, parse)))
  }

  method ChapterHrefs(chapters: seq<Link>) returns (chList: seq<string>)
    ensures chList == NonEmptyHrefs(chapters)
  {
    chList := [];
    for i := 0 to |chapters|
      invariant chList == NonEmptyHrefs(chapters[..i])
    {
      assert chapters[..i + 1][..i] == chapters[..i];
      if chapters[i].href != "" {
        chList := chList + [chapters[i].href];
      }
    }
    assert chapters[..|chapters|] == chapters;
  }

  method GetPagesAh04(menu: seq<Link>, chapters: seq<Link>, visit: string -> seq<string>, parse: Parser)
    returns (r: Result<Extracted, ExtractError>)
    ensures r == Ah04Spec(menu, chapters, visit, parse)
  {
    if |menu| > 0 {
      r := GetPagesStd(menu);
    } else {
      var chList := ChapterHrefs(chapters);
      r := GetPagesAh04Chapters(chList, visit, parse);
    }
  }

  /** The body of the inner loop for one hf link, up to the appends. */
  method ReadHfLink(root: string, href: string, parse: Parser) returns (h: Harvest)
    ensures h == Ah04HfHarvest(root, href, parse)
    ensures h.Found? ==> h.name.Some?
  {
    var soup := Replace(href, HfCall, "");
    var decoded := Percent.Unquote(soup);
    if decoded.None? {
      return Broken(UndecodableName(soup));
    }
    var cleansoup := decoded.value;
    var tup := parse(cleansoup);
    if tup.None? {
      return Broken(MalformedLiteral(cleansoup));
    }
    if tup.value.link == "" {
      return Skip;
    }
    var u := root + tup.value.link;
    var f := Ident(u);
    var n := tup.value.title;
    h := Found(Entry(u, f), Some(n));
  }

  /** The chapter branch: each chapter page in turn, each of its hf links in document order. */
  method GetPagesAh04Chapters(chList: seq<string>, visit: string -> seq<string>, parse: Parser)
    returns (r: Result<Extracted, ExtractError>)
    ensures r == Accumulate(Flatten(Ah04Chapters(chList, visit, parse)))
  {
    ghost var css := Ah04Chapters(chList, visit, parse);
    var pageList: seq<Entry> := [];
    var renameDict: map<string, string> := map[];
    for c := 0 to |chList|
      invariant Accumulate(Flatten(css[..c])) == Success(Extracted(pageList, renameDict))
    {
      var ch := chList[c];
      var root := Root(ch);
      var subpages := visit(ch);
      ghost var done := Flatten(css[..c]);
      ghost var hs := css[c];
      assert |hs| == |subpages| && done + hs[..0] == done;
      for j := 0 to |subpages|
        invariant Accumulate(done + hs[..j]) == Success(Extracted(pageList, renameDict))
      {
        AccumulateInChapter(done, hs, j);
        var h := ReadHfLink(root, subpages[j], parse);
        match h {
          case Skip =>
          case Found(e, n) =>
            pageList := pageList + [e];
            renameDict := renameDict[e.ident := n.value];
          case Broken(err) =>
            AbortInChapter(css, c, j);
            return Failure(err);
        }
      }
      TakeAll(hs);
      FlattenStep(css, c);
    }
    TakeAll(css);
    r := Success(Extracted(pageList, renameDict));
  }

  /** Every Anhui 2004-2005 page is identified by its last segment (decoded, on the menu-font path) and is labelled. */
  lemma Ah04Pages(menu: seq<Link>, chapters: seq<Link>, visit: string -> seq<string>, parse: Parser)
    requires Ah04Spec(menu, chapters, visit, parse).Success?
    ensures var x := Ah04Spec(menu, chapters, visit, parse).value;
      forall e :: e in x.pages ==> e.ident in x.renames
    ensures |menu| == 0 ==> var x := Ah04Spec(menu, chapters, visit, parse).value;
      forall e :: e in x.pages ==> e.ident == Ident(e.url)
  {
    if |menu| > 0 {
      StdPages(menu);
    } else {
      Ah04ChapterPages(NonEmptyHrefs(chapters), visit, parse);
    }
  }

  /** Every page of the chapters' hf links is identified by its last segment and is labelled. */
  lemma Ah04ChapterPages(chList: seq<string>, visit: string -> seq<string>, parse: Parser)
    requires Accumulate(Flatten(Ah04Chapters(chList, visit, parse))).Success?
    ensures var x := Accumulate(Flatten(Ah04Chapters(chList, visit, parse))).value;
      forall e :: e in x.pages ==> e.ident == Ident(e.url) && e.ident in x.renames
  {
    var css: seq<seq<Harvest>> := Ah04Chapters(chList, visit, parse);
    var named := (e: Entry) => e.ident == Ident(e.url);
    forall c, j | 0 <= c < |css| && 0 <= j < |css[c]|
      ensures css[c][j].Found? ==> css[c][j].name.Some? && named(css[c][j].entry)
    {
      var ch := chList[c];
      assert css[c][j] == Ah04HfHarvest(Root(ch), visit(ch)[j], parse);
      HfHarvestNamed(Root(ch), Replace(visit(ch)[j], HfCall, ""), parse);
    }
    ChapterPages(css, named);
  }

  /** A found hf link is labelled and identified by its last segment. */
  lemma HfHarvestNamed(root: string, soup: string, parse: Parser)
    ensures var h := HfArgumentsHarvest(root, soup, parse);
      h.Found? ==> h.name.Some? && h.entry.ident == Ident(h.entry.url)
  {
  }

  // ---------------------------------------------------------------------
  // Jiangsu 2011 and later: chapters from `onclick` handlers, pages from their `nj` links.

  /** One `nj` link of a chapter page: its decoded last segment, labelled by its text without letters and the spreadsheet-link caption. */
  function JsHarvest(a: Link): Harvest {
    var raw := Ident(a.href);
    match Percent.Unquote(raw)
    case None => Broken(UndecodableName(raw))
    case Some(f) => Found(Entry(a.href, f), Some(JsLabel(a.html)))
  }

  function JsChapter(ch: string, visit: string -> seq<Link>): seq<Harvest> {
    Harvests(visit(ch), JsHarvest)
  }

  function JsChapters(chList: seq<string>, visit: string -> seq<Link>): seq<seq<Harvest>> {
    seq(|chList|, c requires 0 <= c < |chList| => JsChapter(chList[c], visit))
  }

  /** The chapter addresses, one per handler, in order. */
  function JsChapterUrls(url: string, onclicks: seq<string>): seq<string> {
    seq(|onclicks|, i requires 0 <= i < |onclicks| => JsChapterUrl(url, onclicks[i]))
  }

  method GetPagesJs(url: string, onclicks: seq<string>, visit: string -> seq<Link>)
    returns (r: Result<Extracted, ExtractError>)
    ensures r == Accumulate(Flatten(JsChapters(JsChapterUrls(url, onclicks), visit)))
  {
    var chList: seq<string> := [];
    var root := Root(url);
    for i := 0 to |onclicks|
      invariant |chList| == i
      invariant forall k :: 0 <= k < i ==> chList[k] == JsChapterUrl(url, onclicks[k])
    {
      var suff := JsChapterSuffix(onclicks[i]);
      var ch := root + suff;
      chList := chList + [ch];
    }
    assert chList == JsChapterUrls(url, onclicks);
    ghost var css := JsChapters(chList, visit);
    var pageList: seq<Entry> := [];
    var renameDict: map<string, string> := map[];
    for c := 0 to |chList|
      invariant Accumulate(Flatten(css[..c])) == Success(Extracted(pageList, renameDict))
    {
      var ch := chList[c];
      var subpages := visit(ch);
      ghost var done := Flatten(css[..c]);
      ghost var hs := css[c];
      assert |hs| == |subpages| && done + hs[..0] == done;
      for j := 0 to |subpages|
        invariant Accumulate(done + hs[..j]) == Success(Extracted(pageList, renameDict))
      {
        AccumulateInChapter(done, hs, j);
        assert hs[j] == JsHarvest(subpages[j]);
        var u := subpages[j].href;
        var fRaw := Ident(u);
        var decoded := Percent.Unquote(fRaw);
        if decoded.None? {
          AbortInChapter(css, c, j);
          return Failure(UndecodableName(fRaw));
        }
        var f := decoded.value;
        var n := JsLabel(subpages[j].html);
        pageList := pageList + [Entry(u, f)];
        renameDict := renameDict[f := n];
      }
      TakeAll(hs);
      FlattenStep(css, c);
    }
    TakeAll(css);
    r := Success(Extracted(pageList, renameDict));
  }

  /** Every Jiangsu page is identified by its decoded last segment and is labelled. */
  lemma JsPages(url: string, onclicks: seq<string>, visit: string -> seq<Link>)
    requires Accumulate(Flatten(JsChapters(JsChapterUrls(url, onclicks), visit))).Success?
    ensures var x := Accumulate(Flatten(JsChapters(JsChapterUrls(url, onclicks), visit))).value;
      forall e :: e in x.pages ==> Percent.Unquote(Ident(e.url)) == Some(e.ident) && e.ident in x.renames
  {
    var css := JsChapters(JsChapterUrls(url, onclicks), visit);
    var decoded := (e: Entry) => Percent.Unquote(Ident(e.url)) == Some(e.ident);
    forall c | 0 <= c < |css|
      ensures AllLabelled(css[c])
      ensures forall j :: 0 <= j < |css[c]| && css[c][j].Found? ==> decoded(css[c][j].entry)
    {
    }
    ChapterPages(css, decoded);
  }

  // ---------------------------------------------------------------------
  // Zhejiang: a framed layout read like the standard one, or a 2020 and later menu of `main` attributes.

  /** What the browser finds on a Zhejiang yearbook page. */
  datatype ZjLayout =
    | Framed(excelMenu: Option<seq<Link>>, contents: seq<Link>)  // a `top` frame; the excel menu's anchors if it has one
    | Listed(mains: seq<Option<string>>)                          // the `main` attribute of each menu item, `None` when absent

  /**
    One 2020 and later menu item: the spreadsheet beside its page, named by
    its decoded last segment, never labelled. An item without a `main`
    attribute raises when its value is sliced.
  */
  function ZjHarvest(url: string, main: Option<string>): Harvest {
    match main
    case None => Broken(MissingAttribute("main"))
    case Some(m) =>
      var u := ZjExcelUrl(url, m);
      var raw := Ident(u);
      match Percent.Unquote(raw)
      case None => Broken(UndecodableName(raw))
      case Some(f) => Found(Entry(u, f), None)
  }

  function ZjHarvests(url: string, mains: seq<Option<string>>): seq<Harvest> {
    Harvests(mains, (main: Option<string>) => ZjHarvest(url, main))
  }

  /** The excel menu when the top frame has one, else the contents frame, read as standard; or the listed menu. */
  function ZjSpec(url: string, layout: ZjLayout): Result<Extracted, ExtractError> {
    match layout
    case Framed(excelMenu, contents) =>
      Accumulate(StdHarvests(if excelMenu.Some? then excelMenu.value else contents))
    case Listed(mains) => Accumulate(ZjHarvests(url, mains))
  }

  method GetPagesZj(url: string, layout: ZjLayout) returns (r: Result<Extracted, ExtractError>)
    ensures r == ZjSpec(url, layout)
  {
    if layout.Framed? {
      if layout.excelMenu.Some? {
        r := GetPagesStd(layout.excelMenu.value);
      } else {
        r := GetPagesStd(layout.contents);
      }
      return;
    }
    var subpages := layout.mains;
    ghost var hs := ZjHarvests(url, subpages);
    var pageList: seq<Entry> := [];
    var renameDict: map<string, string> := map[];
    for i := 0 to |subpages|
      invariant Accumulate(hs[..i]) == Success(Extracted(pageList, renameDict))
    {
      AccumulatePrefix(hs, i);
      if subpages[i].None? {
        AbortAt(hs, i);
        return Failure(MissingAttribute("main"));
      }
      var u := ZjExcelUrl(url, subpages[i].value);
      var fRaw := Ident(u);
      var decoded := Percent.Unquote(fRaw);
      if decoded.None? {
        AbortAt(hs, i);
        return Failure(UndecodableName(fRaw));
      }
      pageList := pageList + [Entry(u, decoded.value)];
    }
    TakeAll(hs);
    r := Success(Extracted(pageList, renameDict));
  }

  /**
    The 2020 and later Zhejiang menu needs no renaming: the rename map is
    empty, and a menu item `./html/<name>.html` yields the spreadsheet
    `<directory>/excel/<name>.xlsx` identified by `name` itself.
  */
  lemma ZjListedPages(url: string, mains: seq<Option<string>>)
    requires ZjSpec(url, Listed(mains)).Success?
    ensures ZjSpec(url, Listed(mains)).value.renames == map[]
    ensures forall e :: e in ZjSpec(url, Listed(mains)).value.pages ==> Percent.Unquote(Ident(e.url)) == Some(e.ident)
  {
    var hs := ZjHarvests(url, mains);
    NoLabelsNoRenames(hs);
    AccumulateOutcome(hs);
    FoundSatisfy(hs, (e: Entry) => Percent.Unquote(Ident(e.url)) == Some(e.ident));
  }

  /** A 2020 and later menu with an item lacking its `main` attribute raises, whatever the other items are. */
  lemma ZjMissingMainFails(url: string, mains: seq<Option<string>>, i: int)
    requires 0 <= i < |mains| && mains[i].None?
    ensures ZjSpec(url, Listed(mains)).Failure?
  {
    var hs := ZjHarvests(url, mains);
    assert hs[i].Broken?;
    AccumulateOutcome(hs);
  }

  /** A 2020 and later menu item whose page is `./html/<name>.html`, with a plain name, is saved as `name`. */
  lemma ZjMenuItemHarvest(url: string, name: string)
    requires '/' !in name && '.' !in name && '%' !in name
    ensures ZjHarvest(url, Some("./html/" + name + ".html"))
         == Found(Entry(Slice(url, 0, RFind(url, '/')) + "/excel/" + name + ".xlsx", name), None)
  {
    ZjExcelUrlOfMenuItem(url, name);
    ZjIdentOfMenuItem(url, name);
    Percent.UnquotePlain(name);
  }

  /** Every Zhejiang framed-layout page is labelled, as in the standard layout. */
  lemma ZjFramedPages(url: string, excelMenu: Option<seq<Link>>, contents: seq<Link>)
    requires ZjSpec(url, Framed(excelMenu, contents)).Success?
    ensures var x := ZjSpec(url, Framed(excelMenu, contents)).value;
      forall e :: e in x.pages ==> Percent.Unquote(Ident(e.url)) == Some(e.ident) && e.ident in x.renames
  {
    StdPages(if excelMenu.Some? then excelMenu.value else contents);
  }
}
