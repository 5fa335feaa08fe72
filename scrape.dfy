/**
  `scrape`: load a yearbook, recognise its layout by probing the page in a
  fixed order, build the page list with the matching extractor, download
  what is missing and, when the user agrees, rename the files. The browser's
  answers to the probes and everything the extractors read are the `Site`;
  the directory readings and the user's answers are further inputs.
*/
module Scrape {
  import opened Wrappers
  import opened Pages
  import opened Extractors
  import opened Subpage
  import opened Reconcile
  import opened Renamer

  /** The probes of `scrape`, each true when the element is on the page it is asked of. */
  datatype Probes = Probes(
    contentsFrame: bool,  // `frame[@name='contents']` on the yearbook page
    foldingList: bool,    // `ul[@id='foldinglist']`
    mainLists: bool,      // `ul[@class='mainlists']`
    leftFrame: bool,      // `frame[@name='left']`
    leftDtree: bool,      // `div[@class='dtree']/script`, on the left frame's page
    constContents: bool,  // a script containing `const contents`
    mainFrame: bool,      // `frame[@name='mainFrame']`
    iframe: bool,         // an `iframe`
    onclickTd: bool)      // `td[@onclick]`, on the iframe's page

  /** The layouts `scrape` tells apart, with the extractor each one gets. */
  datatype Format =
    | StdContents   // standard, inside the `contents` frame
    | StdLists      // standard, on the page itself
    | Ah06          // Anhui 2006-2022, the left frame's dtree script
    | StdLeft       // standard, on the left frame's page
    | Ah23          // Anhui 2023 on
    | Ah04          // Anhui 2004-2005
    | Js            // Jiangsu
    | Zj            // Zhejiang
    | Unrecognised  // "Unable to detect yearbook format"

  /** The decision chain of `scrape`. */
  function Dispatch(p: Probes): Format {
    if p.contentsFrame then StdContents
    else if p.foldingList || p.mainLists then StdLists
    else if p.leftFrame then (if p.leftDtree then Ah06 else StdLeft)
    else if p.constContents then Ah23
    else if p.mainFrame then Ah04
    else if p.iframe then (if p.onclickTd then Js else Zj)
    else Unrecognised
  }

  /** The first rule whose guard holds, or `Unrecognised`. */
  function FirstMatch(rules: seq<(bool, Format)>): Format {
    if rules == [] then Unrecognised
    else if rules[0].0 then rules[0].1
    else FirstMatch(rules[1..])
  }

  /** The layouts in the order `scrape` tries them, each with the probes that select it. */
  function Signatures(p: Probes): seq<(bool, Format)> {
    [ (p.contentsFrame, StdContents),
      (p.foldingList || p.mainLists, StdLists),
      (p.leftFrame && p.leftDtree, Ah06),
      (p.leftFrame, StdLeft),
      (p.constContents, Ah23),
      (p.mainFrame, Ah04),
      (p.iframe && p.onclickTd, Js),
      (p.iframe, Zj) ]
  }

  /** `FirstMatch` picks the rule of the first guard that holds, and `Unrecognised` when none does. */
  lemma {:induction false} FirstMatchIndex(rules: seq<(bool, Format)>, i: int)
    requires 0 <= i <= |rules|
    requires forall j :: 0 <= j < i ==> !rules[j].0
    ensures i < |rules| && rules[i].0 ==> FirstMatch(rules) == rules[i].1
    ensures i == |rules| ==> FirstMatch(rules) == Unrecognised
  {
    if i > 0 {
      assert !rules[0].0;
      FirstMatchIndex(rules[1..], i - 1);
      assert i < |rules| ==> rules[1..][i - 1] == rules[i];
    }
  }

  /** The decision chain is the first match over the signatures, in order. */
  lemma DispatchIsFirstMatch(p: Probes)
    ensures Dispatch(p) == FirstMatch(Signatures(p))
  {
    var rules := Signatures(p);
    if p.contentsFrame { FirstMatchIndex(rules, 0); }
    else if p.foldingList || p.mainLists { FirstMatchIndex(rules, 1); }
    else if p.leftFrame && p.leftDtree { FirstMatchIndex(rules, 2); }
    else if p.leftFrame { FirstMatchIndex(rules, 3); }
    else if p.constContents { FirstMatchIndex(rules, 4); }
    else if p.mainFrame { FirstMatchIndex(rules, 5); }
    else if p.iframe && p.onclickTd { FirstMatchIndex(rules, 6); }
    else if p.iframe { FirstMatchIndex(rules, 7); }
    else { FirstMatchIndex(rules, 8); }
  }

  /** No layout is recognised exactly when none of the yearbook page's probes holds. */
  lemma UnrecognisedIff(p: Probes)
    ensures Dispatch(p) == Unrecognised <==>
      !(p.contentsFrame || p.foldingList || p.mainLists || p.leftFrame || p.constContents || p.mainFrame || p.iframe)
  {
  }

  /** What the browser shows of one yearbook, per layout. */
  datatype Site = Site(
    probes: Probes,
    contentsAnchors: seq<Link>,                // the `a[@href]` of the contents frame
    pageAnchors: seq<Link>,                    // the `a[@href]` of the yearbook page
    pageUrl: string,                           // the yearbook page's address
    leftUrl: string,                           // the left frame's `src`
    leftAnchors: seq<Link>,                    // the `a[@href]` of the left frame's page
    dtreeItems: seq<string>,                   // the menu records of its dtree script
    constItems: seq<string>,                   // the menu records of the `const contents` script
    menuFonts: seq<Link>,                      // the `td[@class='menuFont']/a` of the main frame
    chapters: seq<Link>,                       // the `a[@href]` of the main frame
    hfLinks: string -> seq<string>,            // the `javascript:hf` hrefs of a chapter page
    iframeUrl: string,                         // the iframe's `src`
    onclicks: seq<string>,                     // its `td[@onclick]` handlers
    chapterAnchors: string -> seq<Link>,       // the `nj` anchors of a chapter page
    zjLayout: ZjLayout,                        // the Zhejiang menus
    parse: Parser,                             // `ast.literal_eval` and the field selection
    domOf: string -> PageDom)                  // what each page holds once loaded

  /** The page list and rename map of the recognised layout; none of either when nothing is recognised. */
  function ScrapePages(site: Site): Result<Extracted, ExtractError> {
    match Dispatch(site.probes)
    case StdContents => Accumulate(StdHarvests(site.contentsAnchors))
    case StdLists => Accumulate(StdHarvests(site.pageAnchors))
    case Ah06 => Accumulate(Ah06Harvests(site.leftUrl, site.dtreeItems, site.parse))
    case StdLeft => Accumulate(StdHarvests(site.leftAnchors))
    case Ah23 => Accumulate(Ah23Harvests(site.pageUrl, site.constItems, site.parse))
    case Ah04 => Ah04Spec(site.menuFonts, site.chapters, site.hfLinks, site.parse)
    case Js => Accumulate(Flatten(JsChapters(JsChapterUrls(site.iframeUrl, site.onclicks), site.chapterAnchors)))
    case Zj => ZjSpec(site.iframeUrl, site.zjLayout)
    case Unrecognised => Success(Extracted([], map[]))
  }

  /** `rename` over one directory listing. */
  function RenamePlan(path: string, listing: seq<string>, renames: map<string, string>): seq<RenameOutcome> {
    seq(|listing|, i requires 0 <= i < |listing| => RenameOf(path, listing[i], renames))
  }

  /**
    One run of `scrape`: the layout, the extractor's result, the download
    session if there was one, whether the rename question was asked, and the
    renames if they ran.
  */
  datatype Run = Run(
    format: Format,
    extracted: Result<Extracted, ExtractError>,
    session: Option<Session>,
    renamePrompted: bool,
    renamed: Option<seq<RenameOutcome>>)

  /**
    `scrape` for `site`, with `listingAt(k)` the `k`-th reading of the
    download directory and `answers` the user's replies. An exception in the
    extractor, or `input()` finding no answer, ends the run where it happens.
  */
  function ScrapeRun(site: Site, path: string, listingAt: nat -> seq<string>, answers: seq<string>): Run {
    var fmt := Dispatch(site.probes);
    var extracted := ScrapePages(site);
    if extracted.Failure? then Run(fmt, extracted, None, false, None)
    else
      var x := extracted.value;
      var session := if |x.pages| > 0 then Some(DownloadSession(x.pages, listingAt, answers)) else None;
      if session.Some? && session.value.ending.InputExhausted? then Run(fmt, extracted, session, false, None)
      else if |x.renames| == 0 then Run(fmt, extracted, session, false, None)
      else
        var used := if session.Some? then session.value.consumed else 0;
        var reading := if session.Some? then |session.value.rounds| + 1 else 0;
        if used < |answers| && answers[used] == "y" then
          Run(fmt, extracted, session, true, Some(RenamePlan(path, listingAt(reading), x.renames)))
        else Run(fmt, extracted, session, true, None)
  }

  /** Missing files are looked for exactly when the extractor returned a non-empty page list. */
  lemma DownloadIffPages(site: Site, path: string, listingAt: nat -> seq<string>, answers: seq<string>)
    ensures ScrapeRun(site, path, listingAt, answers).session.Some? <==>
      ScrapePages(site).Success? && |ScrapePages(site).value.pages| > 0
  {
  }

  /**
    The rename question is asked exactly when the extractor returned a
    non-empty rename map and the download loop, if it ran, did not run out
    of answers; the files are renamed exactly when it is answered `y`.
  */
  lemma RenameIffMap(site: Site, path: string, listingAt: nat -> seq<string>, answers: seq<string>)
    ensures var run := ScrapeRun(site, path, listingAt, answers);
      && (run.renamePrompted <==>
            && run.extracted.Success? && |run.extracted.value.renames| > 0
            && !(run.session.Some? && run.session.value.ending.InputExhausted?))
      && (run.renamed.Some? <==>
            && run.renamePrompted
            && var used := if run.session.Some? then run.session.value.consumed else 0;
               used < |answers| && answers[used] == "y")
  {
  }

  /** An unrecognised layout yields nothing: no download, no question, no rename. */
  lemma UnrecognisedDoesNothing(site: Site, path: string, listingAt: nat -> seq<string>, answers: seq<string>)
    requires Dispatch(site.probes) == Unrecognised
    ensures ScrapeRun(site, path, listingAt, answers) == Run(Unrecognised, Success(Extracted([], map[])), None, false, None)
  {
  }

  /**
    Every page of every layout but Zhejiang's listed menu has a label, so
    renaming can reach every file saved under a page's identifier; the listed
    menu has no labels at all, and so no rename question.
  */
  lemma PagesNamed(site: Site)
    requires ScrapePages(site).Success?
    ensures var x := ScrapePages(site).value;
      !(Dispatch(site.probes) == Zj && site.zjLayout.Listed?) ==> forall e :: e in x.pages ==> e.ident in x.renames
    ensures Dispatch(site.probes) == Zj && site.zjLayout.Listed? ==> ScrapePages(site).value.renames == map[]
  {
    match Dispatch(site.probes)
    case StdContents => StdPages(site.contentsAnchors);
    case StdLists => StdPages(site.pageAnchors);
    case Ah06 => Ah06Pages(site.leftUrl, site.dtreeItems, site.parse);
    case StdLeft => StdPages(site.leftAnchors);
    case Ah23 => Ah23Pages(site.pageUrl, site.constItems, site.parse);
    case Ah04 => Ah04Pages(site.menuFonts, site.chapters, site.hfLinks, site.parse);
    case Js => JsPages(site.iframeUrl, site.onclicks, site.chapterAnchors);
    case Zj => {
      match site.zjLayout
      case Framed(excelMenu, contents) => ZjFramedPages(site.iframeUrl, excelMenu, contents);
      case Listed(mains) => ZjListedPages(site.iframeUrl, mains);
    }
    case Unrecognised =>
  }

  /** The extractor of the recognised layout. */
  method GetPages(site: Site) returns (fmt: Format, r: Result<Extracted, ExtractError>)
    ensures fmt == Dispatch(site.probes)
    ensures r == ScrapePages(site)
  {
    fmt := Dispatch(site.probes);
    match fmt
    case StdContents => r := GetPagesStd(site.contentsAnchors);
    case StdLists => r := GetPagesStd(site.pageAnchors);
    case Ah06 => r := GetPagesAh06(site.leftUrl, site.dtreeItems, site.parse);
    case StdLeft => r := GetPagesStd(site.leftAnchors);
    case Ah23 => r := GetPagesAh23(site.pageUrl, site.constItems, site.parse);
    case Ah04 => r := GetPagesAh04(site.menuFonts, site.chapters, site.hfLinks, site.parse);
    case Js => r := GetPagesJs(site.iframeUrl, site.onclicks, site.chapterAnchors);
    case Zj => r := GetPagesZj(site.iframeUrl, site.zjLayout);
    case Unrecognised => r := Success(Extracted([], map[]));
  }

  /**
    `scrape`: `processed[i]` is what round `i` of the download loop did with
    each of its missing pages.
  */
  method Scrape(site: Site, path: string, flags: Flags, listingAt: nat -> seq<string>, answers: seq<string>)
    returns (run: Run, processed: seq<seq<Action>>)
    ensures run == ScrapeRun(site, path, listingAt, answers)
    ensures run.session.Some? ==>
      && |processed| == |run.session.value.rounds|
      && forall i :: 0 <= i < |processed| ==>
           processed[i] == Actions(run.session.value.rounds[i].missing, path, flags, site.domOf)
    ensures run.session.None? ==> processed == []
  {
    var fmt, extracted := GetPages(site);
    processed := [];
    if extracted.Failure? {
      return Run(fmt, extracted, None, false, None), processed;
    }
    var x := extracted.value;
    var session: Option<Session> := None;
    if |x.pages| > 0 {
      var s, acts := DownloadMissing(x.pages, listingAt, answers, path, flags, site.domOf);
      session, processed := Some(s), acts;
      if s.ending.InputExhausted? {
        return Run(fmt, extracted, session, false, None), processed;
      }
    }
    if |x.renames| == 0 {
      return Run(fmt, extracted, session, false, None), processed;
    }
    var used := if session.Some? then session.value.consumed else 0;
    if used < |answers| && answers[used] == "y" {
      var reading := if session.Some? then |session.value.rounds| + 1 else 0;
      var outcomes := Rename(path, listingAt(reading), x.renames);
      assert outcomes == RenamePlan(path, listingAt(reading), x.renames);
      run := Run(fmt, extracted, session, true, Some(outcomes));
    } else {
      run := Run(fmt, extracted, session, true, None);
    }
  }
}
