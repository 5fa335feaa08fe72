/**
  `get_downloaded` and `download_missing`: which pages of the list still lack
  a file in the download directory, and the confirm-and-fetch rounds that
  repeat until none is missing or the user stops. The directory is read
  afresh before every round: `listingAt(k)` is what the `k`-th reading
  returns. The user's answers are a sequence read two per round.
*/
module Reconcile {
  import opened PyStr
  import opened Names
  import opened Pages
  import opened Subpage

  /** The keys of the files in a directory: each name up to its last `.`. */
  function Downloaded(listing: seq<string>): set<string> {
    if listing == [] then {} else Downloaded(listing[..|listing| - 1]) + {Key(listing[|listing| - 1])}
  }

  /** `get_downloaded`: one key per file of the listing. */
  method GetDownloaded(listing: seq<string>) returns (downloaded: set<string>)
    ensures downloaded == Downloaded(listing)
  {
    downloaded := {};
    for i := 0 to |listing|
      invariant downloaded == Downloaded(listing[..i])
    {
      downloaded := downloaded + {Key(listing[i])};
      assert listing[..i + 1][..i] == listing[..i];
    }
    assert listing[..|listing|] == listing;
  }

  /** A key counts as downloaded exactly when some file of the listing has it. */
  lemma {:induction false} DownloadedIff(listing: seq<string>, k: string)
    ensures k in Downloaded(listing) <==> exists n :: n in listing && Key(n) == k
  {
    if listing != [] {
      var init := listing[..|listing| - 1];
      DownloadedIff(init, k);
      assert listing == init + [listing[|listing| - 1]];
    }
  }

  /** The pages of the list whose identifier has no file, in list order. */
  function Missing(pages: seq<Entry>, downloaded: set<string>): seq<Entry> {
    if pages == [] then []
    else (if pages[0].ident in downloaded then [] else [pages[0]]) + Missing(pages[1..], downloaded)
  }

  /** A page is missing exactly when it is on the list and its identifier has no file. */
  lemma {:induction false} MissingIff(pages: seq<Entry>, downloaded: set<string>, e: Entry)
    ensures e in Missing(pages, downloaded) <==> e in pages && e.ident !in downloaded
  {
    if pages != [] {
      MissingIff(pages[1..], downloaded, e);
      assert pages == [pages[0]] + pages[1..];
    }
  }

  /** The filter works piecewise, so it keeps the list's order. */
  lemma {:induction false} MissingConcat(p: seq<Entry>, q: seq<Entry>, downloaded: set<string>)
    ensures Missing(p + q, downloaded) == Missing(p, downloaded) + Missing(q, downloaded)
  {
    if p == [] {
      assert p + q == q;
    } else {
      assert (p + q)[1..] == p[1..] + q;
      MissingConcat(p[1..], q, downloaded);
    }
  }

  /** Nothing is missing exactly when every page's identifier has a file. */
  lemma {:induction false} NothingMissing(pages: seq<Entry>, downloaded: set<string>)
    ensures Missing(pages, downloaded) == [] <==> forall i :: 0 <= i < |pages| ==> pages[i].ident in downloaded
  {
    if pages != [] {
      NothingMissing(pages[1..], downloaded);
      assert forall i :: 1 <= i < |pages| ==> pages[i] == pages[1..][i - 1];
    }
  }

  /** Filtering twice against the same directory changes nothing. */
  lemma {:induction false} MissingIdempotent(pages: seq<Entry>, downloaded: set<string>)
    ensures Missing(Missing(pages, downloaded), downloaded) == Missing(pages, downloaded)
  {
    if pages != [] {
      var head := if pages[0].ident in downloaded then [] else [pages[0]];
      MissingConcat(head, Missing(pages[1..], downloaded), downloaded);
      MissingIdempotent(pages[1..], downloaded);
      if head != [] {
        assert Missing(head, downloaded) == head + Missing(head[1..], downloaded);
      }
    }
  }

  /** A page whose file has appeared in the listing is no longer missing. */
  lemma SavedPageNotMissing(pages: seq<Entry>, listing: seq<string>, e: Entry, dest: string, path: string)
    requires FileWithKey(dest, path, e.ident) && dest[|path| + 1..] in listing
    ensures e !in Missing(pages, Downloaded(listing))
  {
    DownloadedIff(listing, e.ident);
    MissingIff(pages, Downloaded(listing), e);
  }

  /** One confirmed round: the pages missing at its start and whether they were listed. */
  datatype Round = Round(missing: seq<Entry>, listed: bool)

  datatype Ending =
    | Complete        // nothing was missing any more
    | Declined        // the download question was answered with anything but `y`
    | InputExhausted  // `input()` found no answer left and raised

  /** The rounds, how the loop ended, and how many answers it read. */
  datatype Session = Session(rounds: seq<Round>, ending: Ending, consumed: nat)

  /** What `process_subpage` does with each missing page, in order. */
  function Actions(missing: seq<Entry>, path: string, flags: Flags, domOf: string -> PageDom): (acts: seq<Action>)
    ensures |acts| == |missing|
    ensures forall j :: 0 <= j < |missing| ==>
      acts[j] == Classify(missing[j].url, missing[j].ident, path, flags, domOf(missing[j].url))
  {
    seq(|missing|, j requires 0 <= j < |missing| =>
      Classify(missing[j].url, missing[j].ident, path, flags, domOf(missing[j].url)))
  }

  /**
    The loop of `download_missing` once the rounds `done` have run: the next
    reading of the directory is number `|done|`, and the next two answers
    are at `2 * |done|`. `missingAt(k)` is what the `k`-th reading leaves
    missing.
  */
  function ConfirmLoop(missingAt: nat -> seq<Entry>, answers: seq<string>, done: seq<Round>): (s: Session)
    requires 2 * |done| <= |answers|
    ensures |done| <= |s.rounds| && s.rounds[..|done|] == done
    ensures 2 * |s.rounds| <= s.consumed <= |answers|
    ensures s.ending.Complete? ==> s.consumed == 2 * |s.rounds|
    ensures s.ending.Declined? ==> s.consumed == 2 * |s.rounds| + 2 && answers[s.consumed - 1] != "y"
    ensures s.ending.InputExhausted? ==> s.consumed == |answers| < 2 * |s.rounds| + 2
    decreases |answers| - 2 * |done|
  {
    var n := |done|;
    if missingAt(n) == [] then Session(done, Complete, 2 * n)
    else if |answers| < 2 * n + 2 then Session(done, InputExhausted, |answers|)
    else if answers[2 * n + 1] != "y" then Session(done, Declined, 2 * n + 2)
    else ConfirmLoop(missingAt, answers, done + [Round(missingAt(n), answers[2 * n] == "y")])
  }

  /**
    Round `i` started from the `i`-th directory reading, found pages missing,
    listed them when the first answer of its pair was `y`, and was confirmed
    by the second.
  */
  predicate RoundAsked(missingAt: nat -> seq<Entry>, answers: seq<string>, rounds: seq<Round>, i: nat) {
    && i < |rounds| && 2 * i + 1 < |answers|
    && rounds[i].missing == missingAt(i) != []
    && rounds[i].listed == (answers[2 * i] == "y")
    && answers[2 * i + 1] == "y"
  }

  /** Every round of `rounds` was asked for and confirmed. */
  predicate AllAsked(missingAt: nat -> seq<Entry>, answers: seq<string>, rounds: seq<Round>) {
    forall i :: 0 <= i < |rounds| ==> RoundAsked(missingAt, answers, rounds, i)
  }

  /** Every round the loop runs is a confirmed round over what the directory then left missing. */
  lemma {:induction false} ConfirmLoopRounds(missingAt: nat -> seq<Entry>, answers: seq<string>, done: seq<Round>)
    requires 2 * |done| <= |answers|
    requires AllAsked(missingAt, answers, done)
    ensures AllAsked(missingAt, answers, ConfirmLoop(missingAt, answers, done).rounds)
    decreases |answers| - 2 * |done|
  {
    var n := |done|;
    if missingAt(n) != [] && |answers| >= 2 * n + 2 && answers[2 * n + 1] == "y" {
      var more := done + [Round(missingAt(n), answers[2 * n] == "y")];
      assert AllAsked(missingAt, answers, more) by {
        forall i | 0 <= i < |more| ensures RoundAsked(missingAt, answers, more, i) {
          if i < n {
            assert RoundAsked(missingAt, answers, done, i);
            assert more[i] == done[i];
          }
        }
      }
      ConfirmLoopRounds(missingAt, answers, more);
      assert ConfirmLoop(missingAt, answers, done) == ConfirmLoop(missingAt, answers, more);
    } else {
      assert ConfirmLoop(missingAt, answers, done).rounds == done;
    }
  }

  /** The loop ends as complete exactly when its last reading of the directory finds nothing missing. */
  lemma {:induction false} ConfirmLoopEnding(missingAt: nat -> seq<Entry>, answers: seq<string>, done: seq<Round>)
    requires 2 * |done| <= |answers|
    ensures var s := ConfirmLoop(missingAt, answers, done);
      s.ending.Complete? <==> missingAt(|s.rounds|) == []
    decreases |answers| - 2 * |done|
  {
    var n := |done|;
    if missingAt(n) != [] && |answers| >= 2 * n + 2 && answers[2 * n + 1] == "y" {
      ConfirmLoopEnding(missingAt, answers, done + [Round(missingAt(n), answers[2 * n] == "y")]);
    }
  }

  /** What each directory reading leaves missing of the page list. */
  function MissingAt(pages: seq<Entry>, listingAt: nat -> seq<string>): nat -> seq<Entry> {
    (k: nat) => Missing(pages, Downloaded(listingAt(k)))
  }

  /** `download_missing`'s loop over the page list and the successive directory readings. */
  function DownloadSession(pages: seq<Entry>, listingAt: nat -> seq<string>, answers: seq<string>): Session {
    ConfirmLoop(MissingAt(pages, listingAt), answers, [])
  }

  /** With every page already on disk, no question is asked and no round runs. */
  lemma NothingToDo(pages: seq<Entry>, listingAt: nat -> seq<string>, answers: seq<string>)
    requires forall i :: 0 <= i < |pages| ==> pages[i].ident in Downloaded(listingAt(0))
    ensures DownloadSession(pages, listingAt, answers) == Session([], Complete, 0)
  {
    NothingMissing(pages, Downloaded(listingAt(0)));
  }

  /** A round only holds pages of the list that had no file at its start. */
  lemma ProcessedOnlyMissing(pages: seq<Entry>, listingAt: nat -> seq<string>, answers: seq<string>, i: nat, e: Entry)
    requires i < |DownloadSession(pages, listingAt, answers).rounds|
    requires e in DownloadSession(pages, listingAt, answers).rounds[i].missing
    ensures e in pages && e.ident !in Downloaded(listingAt(i))
  {
    var missingAt := MissingAt(pages, listingAt);
    ConfirmLoopRounds(missingAt, answers, []);
    var s := ConfirmLoop(missingAt, answers, []);
    assert s == DownloadSession(pages, listingAt, answers);
    assert AllAsked(missingAt, answers, s.rounds);
    assert RoundAsked(missingAt, answers, s.rounds, i);
    assert e in Missing(pages, Downloaded(listingAt(i)));
    MissingIff(pages, Downloaded(listingAt(i)), e);
  }

  /** A session that completes leaves every page of the list with a file in the last reading. */
  lemma CompleteMeansAllSaved(pages: seq<Entry>, listingAt: nat -> seq<string>, answers: seq<string>)
    requires DownloadSession(pages, listingAt, answers).ending.Complete?
    ensures var last := listingAt(|DownloadSession(pages, listingAt, answers).rounds|);
      forall i :: 0 <= i < |pages| ==> pages[i].ident in Downloaded(last)
  {
    var s := DownloadSession(pages, listingAt, answers);
    ConfirmLoopEnding(MissingAt(pages, listingAt), answers, []);
    NothingMissing(pages, Downloaded(listingAt(|s.rounds|)));
  }

  /**
    `download_missing`, reading the directory through `listingAt` and the
    user's replies from `answers`; `processed[i]` is what round `i` did with
    each of its missing pages.
  */
  method DownloadMissing(pages: seq<Entry>, listingAt: nat -> seq<string>, answers: seq<string>,
                         path: string, flags: Flags, domOf: string -> PageDom)
    returns (s: Session, processed: seq<seq<Action>>)
    ensures s == DownloadSession(pages, listingAt, answers)
    ensures |processed| == |s.rounds|
    ensures forall i :: 0 <= i < |s.rounds| ==> processed[i] == Actions(s.rounds[i].missing, path, flags, domOf)
  {
    ghost var missingAt := MissingAt(pages, listingAt);
    var missing := ReadMissing(pages, listingAt(0));
    var rounds: seq<Round> := [];
    processed := [];
    var pos, n := 0, 0;
    while missing != []
      invariant pos == 2 * n <= |answers|
      invariant |rounds| == |processed| == n
      invariant forall i :: 0 <= i < n ==> processed[i] == Actions(rounds[i].missing, path, flags, domOf)
      invariant missing == missingAt(n)
      invariant ConfirmLoop(missingAt, answers, []) == ConfirmLoop(missingAt, answers, rounds)
      decreases |answers| - pos
    {
      if |answers| - pos < 2 {
        s := Session(rounds, InputExhausted, |answers|);
        return;
      }
      var moreinfo, resp := answers[pos], answers[pos + 1];
      if resp != "y" {
        s := Session(rounds, Declined, pos + 2);
        return;
      }
      var actions := ProcessMissing(missing, path, flags, domOf);
      rounds := rounds + [Round(missing, moreinfo == "y")];
      processed := processed + [actions];
      pos, n := pos + 2, n + 1;
      missing := ReadMissing(pages, listingAt(n));
    }
    s := Session(rounds, Complete, pos);
  }

  /** `get_downloaded` and the `missing` comprehension, for one reading of the directory. */
  method ReadMissing(pages: seq<Entry>, listing: seq<string>) returns (missing: seq<Entry>)
    ensures missing == Missing(pages, Downloaded(listing))
  {
    var downloaded := GetDownloaded(listing);
    missing := Missing(pages, downloaded);
  }

  /** The inner loop of a round: `process_subpage` for each missing page. */
  method ProcessMissing(missing: seq<Entry>, path: string, flags: Flags, domOf: string -> PageDom)
    returns (actions: seq<Action>)
    ensures actions == Actions(missing, path, flags, domOf)
  {
    actions := [];
    for j := 0 to |missing|
      invariant actions == Actions(missing[..j], path, flags, domOf)
    {
      var e := missing[j];
      actions := actions + [Classify(e.url, e.ident, path, flags, domOf(e.url))];
    }
    assert missing[..|missing|] == missing;
  }
}
