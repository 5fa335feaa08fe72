/**
  `process_subpage`: what the downloader does with one missing page. The
  decision is taken on the lower-cased link, in a fixed order: spreadsheets
  are fetched by the browser, images and documents saved under the page's
  identifier, and HTML pages opened and searched for a spreadsheet link, a
  table to save as CSV, or saved as they are. The function returns the
  action and where it writes; the fetching and writing are not modelled.
*/
module Subpage {
  import opened Wrappers
  import opened PyStr
  import opened Names

  /** The three switches of `process_subpage`. */
  datatype Flags = Flags(disableCsv: bool, disableImg: bool, disableHtmlPage: bool)

  /** What the browser finds on an HTML page once it is loaded: the hrefs of its `xls` anchors and whether it has a table. */
  datatype PageDom = PageDom(xlsLinks: seq<string>, hasTable: bool)

  datatype Action =
    | BrowserDownload(url: string)         // `driver.get(u)`: the browser saves the spreadsheet
    | SaveBinary(url: string, dest: string) // `urlretrieve(u, dest)`
    | OpenLinkedSheet(url: string)          // `driver.get(xl)` for the page's first spreadsheet link
    | SaveTable(dest: string)               // the page's first table, written as CSV to `dest`
    | SaveHtml(dest: string)                // the page source, written to `dest`
    | NoAction

  /** The extensions of files saved as they are. */
  predicate IsBinaryLink(lu: string) {
    Contains(lu, ".jpg") || Contains(lu, ".png") || Contains(lu, ".pdf") || Contains(lu, ".doc")
  }

  /** `path + '/' + f + u[u.rfind('.'):]`: where an image or document is saved. */
  function BinaryDest(path: string, f: string, u: string): string {
    path + "/" + f + Ext(u)
  }

  /** `path + '/' + f + '.csv'`: where a page's table is saved. */
  function TableDest(path: string, f: string): string {
    path + "/" + f + ".csv"
  }

  /** `path + u[u.rfind('/'):]`: where a page's source is saved. */
  function HtmlDest(path: string, u: string): string {
    path + Slice(u, RFind(u, '/'), |u|)
  }

  /** The action for page `u` saved under identifier `f` in directory `path`; `dom` is what the page holds. */
  function Classify(u: string, f: string, path: string, flags: Flags, dom: PageDom): (a: Action)
    ensures a.BrowserDownload? <==> Contains(Lower(u), ".xls")
    ensures a.BrowserDownload? ==> a.url == u
    ensures a.SaveBinary? ==> !flags.disableImg && IsBinaryLink(Lower(u)) && a == SaveBinary(u, BinaryDest(path, f, u))
    ensures a.OpenLinkedSheet? || a.SaveTable? || a.SaveHtml? ==> Contains(Lower(u), ".htm")
    ensures a.OpenLinkedSheet? ==> |dom.xlsLinks| > 0 && a.url == dom.xlsLinks[0]
    ensures a.SaveTable? ==> dom.hasTable && !flags.disableCsv && |dom.xlsLinks| == 0 && a.dest == TableDest(path, f)
    ensures a.SaveHtml? ==> !flags.disableHtmlPage && |dom.xlsLinks| == 0 && a.dest == HtmlDest(path, u)
    // The order of the rules: each one applies exactly when none before it did.
    ensures (!Contains(Lower(u), ".xls") && IsBinaryLink(Lower(u)) && !flags.disableImg) ==>
      a == SaveBinary(u, BinaryDest(path, f, u))
    ensures (!Contains(Lower(u), ".xls") && !(IsBinaryLink(Lower(u)) && !flags.disableImg) && Contains(Lower(u), ".htm")) ==>
      && (|dom.xlsLinks| > 0 ==> a == OpenLinkedSheet(dom.xlsLinks[0]))
      && (|dom.xlsLinks| == 0 && dom.hasTable && !flags.disableCsv ==> a == SaveTable(TableDest(path, f)))
      && (|dom.xlsLinks| == 0 && !(dom.hasTable && !flags.disableCsv) && !flags.disableHtmlPage ==>
            a == SaveHtml(HtmlDest(path, u)))
    ensures a.NoAction? <==>
              && !Contains(Lower(u), ".xls")
              && !(IsBinaryLink(Lower(u)) && !flags.disableImg)
              && (Contains(Lower(u), ".htm") ==>
                    |dom.xlsLinks| == 0 && !(dom.hasTable && !flags.disableCsv) && flags.disableHtmlPage)
  {
    var lu := Lower(u);
    if Contains(lu, ".xls") then BrowserDownload(u)
    else if IsBinaryLink(lu) && !flags.disableImg then SaveBinary(u, BinaryDest(path, f, u))
    else if Contains(lu, ".htm") then
      if |dom.xlsLinks| > 0 then OpenLinkedSheet(dom.xlsLinks[0])
      else if dom.hasTable && !flags.disableCsv then SaveTable(TableDest(path, f))
      else if !flags.disableHtmlPage then SaveHtml(HtmlDest(path, u))
      else NoAction
    else NoAction
  }

  lemma LowerConcat(p: string, q: string)
    ensures Lower(p + q) == Lower(p) + Lower(q)
  {
  }

  /** A link ending in `.xlsx` is always fetched by the browser, whatever the switches and the page. */
  lemma SpreadsheetLinkDownloads(p: string, f: string, path: string, flags: Flags, dom: PageDom)
    ensures Classify(p + ".xlsx", f, path, flags, dom) == BrowserDownload(p + ".xlsx")
  {
    var lu := Lower(p + ".xlsx");
    LowerConcat(p, ".xlsx");
    assert lu[|p|..|p| + 4] == ".xls";
    ContainsWitness(lu, |p|, ".xls");
  }

  /** A lower-cased link contains a `.`-led pattern only where the link itself has a `.`. */
  lemma DotInLink(u: string, pat: string)
    requires |pat| > 0 && pat[0] == '.' && Contains(Lower(u), pat)
    ensures '.' in u
  {
    ContainsIff(Lower(u), pat);
    var i :| OccursAt(Lower(u), i, pat);
    assert Lower(u)[i..i + |pat|][0] == '.';
    assert u[i] == '.';
  }

  /** `dest` names a file directly inside `path` whose name has key `k`. */
  predicate FileWithKey(dest: string, path: string, k: string) {
    |path| + 1 <= |dest| && dest[..|path| + 1] == path + "/" && Key(dest[|path| + 1..]) == k
  }

  /** An image or document is saved in `path` under a name whose key is `f`. */
  lemma BinaryDestKey(path: string, f: string, u: string)
    requires IsBinaryLink(Lower(u))
    ensures FileWithKey(BinaryDest(path, f, u), path, f)
  {
    var lu := Lower(u);
    if Contains(lu, ".jpg") {
      DotInLink(u, ".jpg");
    } else if Contains(lu, ".png") {
      DotInLink(u, ".png");
    } else if Contains(lu, ".pdf") {
      DotInLink(u, ".pdf");
    } else {
      DotInLink(u, ".doc");
    }
    ExtShape(u);
    KeyOfSaved(f, Ext(u));
    assert BinaryDest(path, f, u) == (path + "/") + (f + Ext(u));
  }

  /** A table is saved in `path` under a name whose key is `f`. */
  lemma TableDestKey(path: string, f: string)
    ensures FileWithKey(TableDest(path, f), path, f)
  {
    KeyOfSaved(f, ".csv");
    assert TableDest(path, f) == (path + "/") + (f + ".csv");
  }

  /**
    What `process_subpage` writes itself, an image, a document or a table, is
    a file in `path` whose key is the page's identifier `f`: the next listing
    of the directory counts the page as downloaded. A saved HTML page is
    named after the link's last segment instead, so its key is the raw
    identifier `Ident(u)`, not the decoded `f` the page list uses.
  */
  lemma SavedUnderIdent(u: string, f: string, path: string, flags: Flags, dom: PageDom)
    ensures Classify(u, f, path, flags, dom).SaveBinary? ==> FileWithKey(Classify(u, f, path, flags, dom).dest, path, f)
    ensures Classify(u, f, path, flags, dom).SaveTable? ==> FileWithKey(Classify(u, f, path, flags, dom).dest, path, f)
    ensures Classify(u, f, path, flags, dom).SaveHtml? && 0 <= RFind(u, '/') < RFind(u, '.') ==>
              FileWithKey(Classify(u, f, path, flags, dom).dest, path, Ident(u))
  {
    var a := Classify(u, f, path, flags, dom);
    if a.SaveBinary? {
      BinaryDestKey(path, f, u);
    }
    if a.SaveTable? {
      TableDestKey(path, f);
    }
    if a.SaveHtml? && 0 <= RFind(u, '/') < RFind(u, '.') {
      HtmlDestKey(path, u);
    }
  }

  /** A saved HTML page's key is the raw identifier of its link. */
  lemma HtmlDestKey(path: string, u: string)
    requires RFind(u, '/') >= 0 && RFind(u, '/') < RFind(u, '.')
    ensures FileWithKey(HtmlDest(path, u), path, Ident(u))
  {
    var name := u[RFind(u, '/') + 1..];
    HtmlDestShape(path, u);
    LastSegmentKey(u);
    IdentBetween(u);
    var dest := HtmlDest(path, u);
    assert dest[..|path| + 1] == path + "/";
    assert dest[|path| + 1..] == name;
  }

  /** The saved source is `path`, a slash and the link's last segment. */
  lemma HtmlDestShape(path: string, u: string)
    requires RFind(u, '/') >= 0
    ensures HtmlDest(path, u) == path + "/" + u[RFind(u, '/') + 1..]
  {
    var s := RFind(u, '/');
    SliceInRange(u, s, |u|);
    assert u[s..] == "/" + u[s + 1..];
  }

  /** The key of the link's last segment is the part between the last `/` and the last `.`. */
  lemma LastSegmentKey(u: string)
    requires RFind(u, '/') >= 0 && RFind(u, '/') < RFind(u, '.')
    ensures Key(u[RFind(u, '/') + 1..]) == u[RFind(u, '/') + 1..RFind(u, '.')]
  {
    var s, d := RFind(u, '/'), RFind(u, '.');
    var name := u[s + 1..];
    RFindInSuffix(u, s + 1, '.');
    SliceInRange(name, 0, d - s - 1);
    assert name[..d - s - 1] == u[s + 1..d];
  }

  /** The last `x` of a suffix is the last `x` of the whole, when it lies in the suffix. */
  lemma RFindInSuffix(u: string, k: int, x: char)
    requires 0 <= k <= RFind(u, x)
    ensures RFind(u[k..], x) == RFind(u, x) - k
  {
    var t := u[k..];
    var r := RFind(u, x);
    assert t[r - k] == x;
    assert forall j :: r - k < j < |t| ==> t[j] == u[j + k];
    RFindCharacterised(t, x, r - k);
  }
}
