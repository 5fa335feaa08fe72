/**
  What every page-list extractor has in common: a loop over menu elements in
  which each element is skipped, contributes one page-list entry (and,
  usually, one rename-map update), or raises and ends the extractor. The
  fold `Accumulate` is the value such a loop has built; the reference
  definitions below it describe that value element by element.
*/
module Pages {
  import opened Wrappers

  /** A link element as the browser reports it: its `href` (empty when absent) and its `innerHTML`. */
  datatype Link = Link(href: string, html: string)

  /** One page-list entry: where the file is and the identifier it is saved under. */
  datatype Entry = Entry(url: string, ident: string)

  /** What an extractor returns: the ordered page list and the identifier-to-label rename map. */
  datatype Extracted = Extracted(pages: seq<Entry>, renames: map<string, string>)

  /** The exceptions an extractor does not catch. */
  datatype ExtractError =
    | UndecodableName(raw: string)    // `.decode('utf-8')` raised on the unquoted bytes
    | MalformedLiteral(text: string)  // `ast.literal_eval` raised, or the record lacks a field
    | MissingAttribute(name: string)  // `get_attribute` gave `None` and slicing it raised

  /** The outcome of one menu element: skipped, an entry with an optional label, or an exception. */
  datatype Harvest = Skip | Found(entry: Entry, name: Option<string>) | Broken(error: ExtractError)

  /** The harvests of the elements `xs`, one each, in order. */
  function Harvests<T>(xs: seq<T>, f: T -> Harvest): (hs: seq<Harvest>)
    ensures |hs| == |xs|
    ensures forall i :: 0 <= i < |xs| ==> hs[i] == f(xs[i])
  {
    seq(|xs|, i requires 0 <= i < |xs| => f(xs[i]))
  }

  lemma HarvestsSnoc<T>(xs: seq<T>, f: T -> Harvest)
    requires |xs| > 0
    ensures Harvests(xs, f) == Harvests(xs[..|xs| - 1], f) + [f(xs[|xs| - 1])]
  {
  }

  /** `page_list.append((u, f))` and `rename_dict.update({f: n})` for one element. */
  function Absorb(x: Extracted, h: Harvest): Result<Extracted, ExtractError> {
    match h
    case Skip => Success(x)
    case Found(e, l) =>
      Success(Extracted(x.pages + [e], if l.Some? then x.renames[e.ident := l.value] else x.renames))
    case Broken(err) => Failure(err)
  }

  /** The lists after absorbing `hs` in order, starting empty; the first exception ends the loop. */
  function Accumulate(hs: seq<Harvest>): Result<Extracted, ExtractError> {
    if hs == [] then Success(Extracted([], map[]))
    else match Accumulate(hs[..|hs| - 1])
      case Failure(e) => Failure(e)
      case Success(x) => Absorb(x, hs[|hs| - 1])
  }

  lemma AccumulateSnoc(hs: seq<Harvest>, h: Harvest)
    ensures Accumulate(hs + [h]) == match Accumulate(hs)
      case Failure(e) => Failure(e)
      case Success(x) => Absorb(x, h)
  {
    assert (hs + [h])[..|hs|] == hs;
  }

  /** One more element of a loop over `hs`. */
  lemma AccumulatePrefix(hs: seq<Harvest>, i: int)
    requires 0 <= i < |hs|
    ensures Accumulate(hs[..i + 1]) == match Accumulate(hs[..i])
      case Failure(e) => Failure(e)
      case Success(x) => Absorb(x, hs[i])
  {
    assert hs[..i + 1] == hs[..i] + [hs[i]];
    AccumulateSnoc(hs[..i], hs[i]);
  }

  /** One more element of the inner loop over `hs`, after the elements `done` of earlier chapters. */
  lemma AccumulateInChapter(done: seq<Harvest>, hs: seq<Harvest>, j: int)
    requires 0 <= j < |hs|
    ensures Accumulate(done + hs[..j + 1]) == match Accumulate(done + hs[..j])
      case Failure(e) => Failure(e)
      case Success(x) => Absorb(x, hs[j])
  {
    assert done + hs[..j + 1] == (done + hs[..j]) + [hs[j]];
    AccumulateSnoc(done + hs[..j], hs[j]);
  }

  lemma TakeAll<T>(s: seq<T>)
    ensures s[..|s|] == s
  {
  }

  /** Once an exception is raised, nothing later changes the outcome. */
  lemma {:induction false} FailurePersists(p: seq<Harvest>, q: seq<Harvest>)
    requires Accumulate(p).Failure?
    ensures Accumulate(p + q) == Accumulate(p)
    decreases |q|
  {
    if q != [] {
      var q' := q[..|q| - 1];
      assert p + q == (p + q') + [q[|q| - 1]];
      FailurePersists(p, q');
      AccumulateSnoc(p + q', q[|q| - 1]);
    } else {
      assert p + q == p;
    }
  }

  /** Concatenation of per-chapter harvests, in chapter order. */
  function Flatten(css: seq<seq<Harvest>>): seq<Harvest> {
    if css == [] then [] else Flatten(css[..|css| - 1]) + css[|css| - 1]
  }

  lemma FlattenSnoc(css: seq<seq<Harvest>>, cs: seq<Harvest>)
    ensures Flatten(css + [cs]) == Flatten(css) + cs
  {
    assert (css + [cs])[..|css|] == css;
  }

  lemma {:induction false} FlattenConcat(a: seq<seq<Harvest>>, b: seq<seq<Harvest>>)
    ensures Flatten(a + b) == Flatten(a) + Flatten(b)
    decreases |b|
  {
    if b == [] {
      assert a + b == a;
    } else {
      var b', last := b[..|b| - 1], b[|b| - 1];
      assert a + b == (a + b') + [last];
      assert b == b' + [last];
      FlattenConcat(a, b');
      FlattenSnoc(a + b', last);
      FlattenSnoc(b', last);
      assert Flatten(a + b) == Flatten(a) + Flatten(b') + last;
    }
  }

  /** A property of every found entry of every chapter holds of every found entry of the flattened list. */
  lemma {:induction false} FlattenFoundSatisfy(css: seq<seq<Harvest>>, P: Entry -> bool)
    requires forall c :: 0 <= c < |css| ==> forall j :: 0 <= j < |css[c]| && css[c][j].Found? ==> P(css[c][j].entry)
    ensures forall i :: 0 <= i < |Flatten(css)| && Flatten(css)[i].Found? ==> P(Flatten(css)[i].entry)
  {
    if css != [] {
      var p := css[..|css| - 1];
      FlattenFoundSatisfy(p, P);
      var a: seq<Harvest>, b: seq<Harvest> := Flatten(p), css[|css| - 1];
      forall i | 0 <= i < |a + b| && (a + b)[i].Found? ensures P((a + b)[i].entry) {
        if i >= |a| {
          assert (a + b)[i] == b[i - |a|];
        }
      }
    }
  }

  /** A finished chapter extends the flattened prefix. */
  lemma FlattenStep(css: seq<seq<Harvest>>, c: int)
    requires 0 <= c < |css|
    ensures Flatten(css[..c + 1]) == Flatten(css[..c]) + css[c]
  {
    assert css[..c + 1] == css[..c] + [css[c]];
    FlattenSnoc(css[..c], css[c]);
  }

  /** Chapter `c`'s harvests up to element `j` are a prefix of everything the chapters yield. */
  lemma FlattenAt(css: seq<seq<Harvest>>, c: int, j: int)
    requires 0 <= c < |css| && 0 <= j <= |css[c]|
    ensures Flatten(css) == (Flatten(css[..c]) + css[c][..j]) + (css[c][j..] + Flatten(css[c + 1..]))
  {
    assert css == css[..c] + ([css[c]] + css[c + 1..]);
    FlattenConcat(css[..c], [css[c]] + css[c + 1..]);
    FlattenConcat([css[c]], css[c + 1..]);
    FlattenSnoc([], css[c]);
    assert css[c] == css[c][..j] + css[c][j..];
  }

  // Reference definitions, element by element from the front.

  /** The entries the found elements contribute, in element order. */
  function FoundEntries(hs: seq<Harvest>): seq<Entry> {
    if hs == [] then []
    else (if hs[0].Found? then [hs[0].entry] else []) + FoundEntries(hs[1..])
  }

  /** The link of every entry, in order. */
  function Urls(es: seq<Entry>): seq<string> {
    if es == [] then [] else Urls(es[..|es| - 1]) + [es[|es| - 1].url]
  }

  lemma UrlsSnoc(es: seq<Entry>, e: Entry)
    ensures Urls(es + [e]) == Urls(es) + [e.url]
  {
    assert (es + [e])[..|es|] == es;
  }

  /** The exception of the first element that raises, if any does. */
  function FirstError(hs: seq<Harvest>): Option<ExtractError> {
    if hs == [] then None
    else if hs[0].Broken? then Some(hs[0].error)
    else FirstError(hs[1..])
  }

  /** Element `i` is found, labelled, and has identifier `k`. */
  predicate LabelledAt(hs: seq<Harvest>, i: int, k: string) {
    0 <= i < |hs| && hs[i].Found? && hs[i].name.Some? && hs[i].entry.ident == k
  }

  /** Element `i` is the last labelled one with identifier `k`. */
  predicate LastLabelledAt(hs: seq<Harvest>, i: int, k: string) {
    LabelledAt(hs, i, k) && forall j :: i < j < |hs| ==> !LabelledAt(hs, j, k)
  }

  lemma {:induction false} FoundEntriesSnoc(hs: seq<Harvest>, h: Harvest)
    ensures FoundEntries(hs + [h]) == FoundEntries(hs) + (if h.Found? then [h.entry] else [])
  {
    if hs != [] {
      assert (hs + [h])[1..] == hs[1..] + [h];
      FoundEntriesSnoc(hs[1..], h);
    } else {
      assert FoundEntries([h]) == (if h.Found? then [h.entry] else []) + FoundEntries([]);
    }
  }

  lemma {:induction false} FirstErrorSnoc(hs: seq<Harvest>, h: Harvest)
    ensures FirstError(hs + [h]) == if FirstError(hs).Some? then FirstError(hs)
                                    else if h.Broken? then Some(h.error) else None
  {
    if hs != [] {
      assert (hs + [h])[1..] == hs[1..] + [h];
      FirstErrorSnoc(hs[1..], h);
    } else {
      assert FirstError([h]) == if h.Broken? then Some(h.error) else FirstError([]);
    }
  }

  /**
    The fold fails exactly when some element raises, with the first such
    element's exception; otherwise its page list is the found entries in order.
  */
  lemma {:induction false} AccumulateOutcome(hs: seq<Harvest>)
    ensures Accumulate(hs).Failure? <==> FirstError(hs).Some?
    ensures Accumulate(hs).Failure? <==> exists i :: 0 <= i < |hs| && hs[i].Broken?
    ensures Accumulate(hs).Failure? ==> Accumulate(hs).error == FirstError(hs).value
    ensures Accumulate(hs).Success? ==> Accumulate(hs).value.pages == FoundEntries(hs)
    decreases |hs|
  {
    if hs != [] {
      var p, h := hs[..|hs| - 1], hs[|hs| - 1];
      assert hs == p + [h];
      AccumulateOutcome(p);
      AccumulateSnoc(p, h);
      FoundEntriesSnoc(p, h);
      FirstErrorSnoc(p, h);
      if Accumulate(p).Failure? {
        var i :| 0 <= i < |p| && p[i].Broken?;
        assert hs[i].Broken?;
      }
      if exists i :: 0 <= i < |hs| && hs[i].Broken? {
        var i :| 0 <= i < |hs| && hs[i].Broken?;
        if i < |p| {
          assert p[i].Broken?;
        }
      }
    }
  }

  /**
    On success the rename map's keys are exactly the identifiers of the
    labelled elements, and each maps to the label of the last such element
    (the map is updated last-write-wins).
  */
  lemma AccumulateRenames(hs: seq<Harvest>)
    requires Accumulate(hs).Success?
    ensures forall k :: k in Accumulate(hs).value.renames <==> exists i :: LabelledAt(hs, i, k)
    ensures forall i, k :: LastLabelledAt(hs, i, k) ==>
              k in Accumulate(hs).value.renames && Accumulate(hs).value.renames[k] == hs[i].name.value
  {
    AccumulateRenameKeys(hs);
    AccumulateRenameValues(hs);
  }

  lemma {:induction false} AccumulateRenameKeys(hs: seq<Harvest>)
    requires Accumulate(hs).Success?
    ensures forall k :: k in Accumulate(hs).value.renames <==> exists i :: LabelledAt(hs, i, k)
    decreases |hs|
  {
    if hs != [] {
      var p, h := hs[..|hs| - 1], hs[|hs| - 1];
      assert hs == p + [h];
      AccumulateSnoc(p, h);
      AccumulateRenameKeys(p);
      var m, m' := Accumulate(p).value.renames, Accumulate(hs).value.renames;
      forall k ensures k in m' <==> exists i :: LabelledAt(hs, i, k) {
        LabelledSnoc(p, h, k);
        assert k in m' <==> k in m || LabelledAt(hs, |p|, k);
      }
    }
  }

  /** An identifier is labelled in `p + [h]` when it is labelled in `p` or by `h`. */
  lemma LabelledSnoc(p: seq<Harvest>, h: Harvest, k: string)
    ensures (exists i :: LabelledAt(p + [h], i, k)) <==> (exists i :: LabelledAt(p, i, k)) || LabelledAt(p + [h], |p|, k)
  {
    var hs := p + [h];
    if exists i :: LabelledAt(p, i, k) {
      var i :| LabelledAt(p, i, k);
      assert LabelledAt(hs, i, k);
    }
    if exists i :: LabelledAt(hs, i, k) {
      var i :| LabelledAt(hs, i, k);
      if i < |p| {
        assert LabelledAt(p, i, k);
      }
    }
  }

  lemma {:induction false} AccumulateRenameValues(hs: seq<Harvest>)
    requires Accumulate(hs).Success?
    ensures forall i, k :: LastLabelledAt(hs, i, k) ==>
              k in Accumulate(hs).value.renames && Accumulate(hs).value.renames[k] == hs[i].name.value
    decreases |hs|
  {
    if hs != [] {
      var p, h := hs[..|hs| - 1], hs[|hs| - 1];
      assert hs == p + [h];
      AccumulateSnoc(p, h);
      AccumulateRenameValues(p);
      forall i, k | LastLabelledAt(hs, i, k) && i < |p|
        ensures LastLabelledAt(p, i, k) && !LabelledAt(hs, |p|, k)
      {
        LastLabelledSnoc(p, h, i, k);
      }
    }
  }

  /** The last labelling in `p + [h]` that lies in `p` is the last one in `p`, and `h` does not label it. */
  lemma LastLabelledSnoc(p: seq<Harvest>, h: Harvest, i: int, k: string)
    requires LastLabelledAt(p + [h], i, k) && i < |p|
    ensures LastLabelledAt(p, i, k) && !LabelledAt(p + [h], |p|, k)
  {
    var hs := p + [h];
    assert !LabelledAt(hs, |p|, k);
    forall j | i < j < |p| ensures !LabelledAt(p, j, k) {
      assert !LabelledAt(hs, j, k);
    }
  }

  /** Every found element is labelled. */
  predicate AllLabelled(hs: seq<Harvest>) {
    forall i :: 0 <= i < |hs| && hs[i].Found? ==> hs[i].name.Some?
  }

  /** When every found element is labelled, every page-list identifier is a key of the rename map. */
  lemma EveryPageNamed(hs: seq<Harvest>)
    requires Accumulate(hs).Success? && AllLabelled(hs)
    ensures forall e :: e in Accumulate(hs).value.pages ==> e.ident in Accumulate(hs).value.renames
  {
    AccumulateOutcome(hs);
    AccumulateRenames(hs);
    forall e | e in Accumulate(hs).value.pages ensures e.ident in Accumulate(hs).value.renames {
      var i := FoundIndex(hs, e);
      assert LabelledAt(hs, i, e.ident);
    }
  }

  /** The element a found entry came from. */
  lemma {:induction false} FoundIndex(hs: seq<Harvest>, e: Entry) returns (i: int)
    requires e in FoundEntries(hs)
    ensures 0 <= i < |hs| && hs[i].Found? && hs[i].entry == e
  {
    if hs[0].Found? && hs[0].entry == e {
      i := 0;
    } else {
      var j := FoundIndex(hs[1..], e);
      i := j + 1;
    }
  }

  /** When no element is labelled, the rename map stays empty. */
  lemma NoLabelsNoRenames(hs: seq<Harvest>)
    requires Accumulate(hs).Success?
    requires forall i :: 0 <= i < |hs| && hs[i].Found? ==> hs[i].name.None?
    ensures Accumulate(hs).value.renames == map[]
  {
    AccumulateRenames(hs);
  }

  /** An exception at element `i` decides the outcome of the whole loop. */
  lemma AbortAt(hs: seq<Harvest>, i: int)
    requires 0 <= i < |hs| && Accumulate(hs[..i + 1]).Failure?
    ensures Accumulate(hs) == Accumulate(hs[..i + 1])
  {
    FailurePersists(hs[..i + 1], hs[i + 1..]);
    assert hs == hs[..i + 1] + hs[i + 1..];
  }

  /** An exception in chapter `c` at element `j` decides the outcome of the nested loops. */
  lemma AbortInChapter(css: seq<seq<Harvest>>, c: int, j: int)
    requires 0 <= c < |css| && 0 <= j < |css[c]|
    requires Accumulate(Flatten(css[..c]) + css[c][..j + 1]).Failure?
    ensures Accumulate(Flatten(css)) == Accumulate(Flatten(css[..c]) + css[c][..j + 1])
  {
    FlattenAt(css, c, j + 1);
    FailurePersists(Flatten(css[..c]) + css[c][..j + 1], css[c][j + 1..] + Flatten(css[c + 1..]));
  }

  /** A property every found element's entry has is a property of every page-list entry. */
  lemma FoundSatisfy(hs: seq<Harvest>, P: Entry -> bool)
    requires forall i :: 0 <= i < |hs| && hs[i].Found? ==> P(hs[i].entry)
    ensures forall e :: e in FoundEntries(hs) ==> P(e)
  {
    forall e | e in FoundEntries(hs) ensures P(e) {
      var i := FoundIndex(hs, e);
    }
  }
  lemma {:induction false} FlattenAllLabelled(css: seq<seq<Harvest>>)
    requires forall c :: 0 <= c < |css| ==> AllLabelled(css[c])
    ensures AllLabelled(Flatten(css))
  {
    if css != [] {
      var p := css[..|css| - 1];
      FlattenAllLabelled(p);
      var a: seq<Harvest>, b: seq<Harvest> := Flatten(p), css[|css| - 1];
      assert AllLabelled(b);
      forall i | 0 <= i < |a + b| && (a + b)[i].Found? ensures (a + b)[i].name.Some? {
        if i >= |a| {
          assert (a + b)[i] == b[i - |a|];
        }
      }
    }
  }

  /**
    Over chapters whose found elements are all labelled and all satisfy `P`,
    every page of a successful fold satisfies `P` and is a key of the rename map.
  */
  lemma ChapterPages(css: seq<seq<Harvest>>, P: Entry -> bool)
    requires Accumulate(Flatten(css)).Success?
    requires forall c :: 0 <= c < |css| ==> AllLabelled(css[c])
    requires forall c :: 0 <= c < |css| ==> forall j :: 0 <= j < |css[c]| && css[c][j].Found? ==> P(css[c][j].entry)
    ensures forall e :: e in Accumulate(Flatten(css)).value.pages ==> P(e) && e.ident in Accumulate(Flatten(css)).value.renames
  {
    var hs := Flatten(css);
    FlattenAllLabelled(css);
    EveryPageNamed(hs);
    AccumulateOutcome(hs);
    FlattenFoundSatisfy(css, P);
    FoundSatisfy(hs, P);
  }
}
