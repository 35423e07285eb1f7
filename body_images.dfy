/**
 * The body-image pass of `run`: the scan over the image references of the
 * page's markdown that downloads each http(s) image once into the post's
 * asset directory, and the rewrite of the downloaded URLs to local paths.
 */
module BodyImages {
  import opened Wrappers
  import opened Text
  import opened FileNames

  // ---------------------------------------------------------------------------
  // The markdown, cut at the matches of the image pattern
  // ---------------------------------------------------------------------------

  /**
   * A piece of the page's markdown: text between matches, or one match of
   * `![alt](url "title")`, where `lead` is the text of the match before the
   * URL and `trail` the text after it.
   */
  datatype Segment =
    | Prose(text: string)
    | ImageLink(alt: string, lead: string, url: string, trail: string)

  /** One match of the pattern, as the scan sees it: `match[1]` and `match[3]`. */
  datatype Match = Match(alt: string, url: string)

  /** The markdown text the segments make up. */
  function Flatten(body: seq<Segment>): string
  {
    if body == [] then ""
    else
      var s := body[0];
      (match s
       case Prose(t) => t
       case ImageLink(_, lead, url, trail) => lead + url + trail)
      + Flatten(body[1..])
  }

  /** The matches of the image pattern, in the order the scan finds them. */
  function Matches(body: seq<Segment>): (ms: seq<Match>)
    ensures |ms| <= |body|
  {
    if body == [] then []
    else match body[0]
      case Prose(_) => Matches(body[1..])
      case ImageLink(alt, _, url, _) => [Match(alt, url)] + Matches(body[1..])
  }

  /** `/^https?:\/\//i.test(url)`. */
  predicate IsHttpUrl(url: string)
  {
    StartsWith(Lower(url), "http://") || StartsWith(Lower(url), "https://")
  }

  // ---------------------------------------------------------------------------
  // The scan: lines 282-305
  // ---------------------------------------------------------------------------

  /** One entry of the `replacements` map: an image URL and the local file it was saved as. */
  datatype Replacement = Replacement(url: string, name: string)

  /** The keys of the map, in insertion order. */
  function Urls(repl: seq<Replacement>): (us: seq<string>)
    ensures |us| == |repl|
    ensures forall k :: 0 <= k < |repl| ==> us[k] == repl[k].url
  {
    if repl == [] then [] else [repl[0].url] + Urls(repl[1..])
  }

  predicate UrlsDistinct(repl: seq<Replacement>)
  {
    forall j, k :: 0 <= j < k < |repl| ==> repl[j].url != repl[k].url
  }

  /**
   * The variables the scan updates: `imgIndex`, the `replacements` map (a
   * sequence in insertion order), the listing of the post's asset
   * directory, `coverFileName` and `coverAlt`.
   */
  datatype ScanState = ScanState(index: nat, repl: seq<Replacement>, dir: set<string>,
                                 cover: Option<string>, coverAlt: string)

  /**
   * What the scan reads from its surroundings: `dayjs(dateRaw).format("YYYYMMDD")`,
   * the slug, the pathname `new URL` gives for a URL (`None` when it throws),
   * and the download: the content type of the response to attempt `n` at a
   * URL, or `None` when it failed.
   */
  datatype ScanContext = ScanContext(compactDate: string, slug: string,
                                     pathOf: string -> Option<string>,
                                     fetch: (nat, string) -> Option<string>)

  /** The name hint of attempt `index`: `<YYYYMMDD>-<slug>-<NN>`. */
  function BaseFor(ctx: ScanContext, index: nat): string
  {
    ctx.compactDate + "-" + ctx.slug + "-" + Pad2(index)
  }

  /** Whether the scan downloads at a match: an http(s) URL that is not yet mapped. */
  predicate Attempted(st: ScanState, m: Match)
  {
    IsHttpUrl(m.url) && m.url !in Urls(st.repl)
  }

  /** One turn of the `while ((match = urlPattern.exec(contentMd)) !== null)` loop. */
  function ScanStep(ctx: ScanContext, st: ScanState, m: Match): ScanState
  {
    if !Attempted(st, m) then st
    else
      var saved := SavedName(ctx.pathOf(m.url), st.dir, BaseFor(ctx, st.index), ctx.fetch(st.index, m.url));
      match saved
      case None => st.(index := st.index + 1)
      case Some(name) =>
        var first := st.cover.None?;
        ScanState(st.index + 1, st.repl + [Replacement(m.url, name)], st.dir + {name},
                  if first then Some(name) else st.cover,
                  if first then (if st.coverAlt != "" then st.coverAlt else m.alt) else st.coverAlt)
  }

  /** The scan over the matches `ms`, from the state `init`. */
  function Scan(ctx: ScanContext, ms: seq<Match>, init: ScanState): ScanState
    decreases |ms|
  {
    if ms == [] then init else ScanStep(ctx, Scan(ctx, ms[..|ms| - 1], init), ms[|ms| - 1])
  }

  /** The loop of lines 287-305, run on the matches of the body. */
  method ScanImages(ctx: ScanContext, ms: seq<Match>, init: ScanState) returns (st: ScanState)
    ensures st == Scan(ctx, ms, init)
  {
    var imgIndex, replacements, dir := init.index, init.repl, init.dir;
    var coverFileName, coverAlt := init.cover, init.coverAlt;
    for i := 0 to |ms|
      invariant ScanState(imgIndex, replacements, dir, coverFileName, coverAlt) == Scan(ctx, ms[..i], init)
    {
      assert ms[..i + 1][..i] == ms[..i];
      imgIndex, replacements, dir, coverFileName, coverAlt :=
        ScanMatch(ctx, ms[i], imgIndex, replacements, dir, coverFileName, coverAlt);
    }
    assert ms[..|ms|] == ms;
    st := ScanState(imgIndex, replacements, dir, coverFileName, coverAlt);
  }

  /** The body of the loop, on one match. */
  method ScanMatch(ctx: ScanContext, m: Match, imgIndex0: nat, replacements0: seq<Replacement>,
                   dir0: set<string>, coverFileName0: Option<string>, coverAlt0: string)
    returns (imgIndex: nat, replacements: seq<Replacement>, dir: set<string>,
             coverFileName: Option<string>, coverAlt: string)
    ensures ScanState(imgIndex, replacements, dir, coverFileName, coverAlt)
            == ScanStep(ctx, ScanState(imgIndex0, replacements0, dir0, coverFileName0, coverAlt0), m)
  {
    imgIndex, replacements, dir, coverFileName, coverAlt := imgIndex0, replacements0, dir0, coverFileName0, coverAlt0;
    ghost var st0 := ScanState(imgIndex0, replacements0, dir0, coverFileName0, coverAlt0);
    var alt, url := m.alt, m.url;
    if !IsHttpUrl(url) || url in Urls(replacements) {
      StepSkipped(ctx, st0, m);
      return;
    }
    var base := BaseFor(ctx, imgIndex);
    var attempt := imgIndex;
    imgIndex := imgIndex + 1;
    var localName := SaveImage(ctx.pathOf(url), dir, base, ctx.fetch(attempt, url));
    if localName.None? {
      StepFailed(ctx, st0, m);
      return;
    }
    StepSaved(ctx, st0, m);
    assert localName == SavedAt(ctx, st0, m);
    replacements := replacements + [Replacement(url, localName.value)];
    dir := dir + {localName.value};
    if coverFileName.None? {
      coverFileName := localName;
      coverAlt := if coverAlt != "" then coverAlt else alt;
    }
  }

  // ---------------------------------------------------------------------------
  // Properties of the scan
  // ---------------------------------------------------------------------------

  /** The name attempt `st.index` at `m` saves under, when its download succeeds. */
  function SavedAt(ctx: ScanContext, st: ScanState, m: Match): Option<string>
  {
    SavedName(ctx.pathOf(m.url), st.dir, BaseFor(ctx, st.index), ctx.fetch(st.index, m.url))
  }

  lemma StepSkipped(ctx: ScanContext, st: ScanState, m: Match)
    requires !Attempted(st, m)
    ensures ScanStep(ctx, st, m) == st
  {
  }

  lemma StepFailed(ctx: ScanContext, st: ScanState, m: Match)
    requires Attempted(st, m) && ctx.fetch(st.index, m.url).None?
    ensures ScanStep(ctx, st, m) == st.(index := st.index + 1)
  {
    assert SavedAt(ctx, st, m).None?;
  }

  lemma StepSaved(ctx: ScanContext, st: ScanState, m: Match)
    requires Attempted(st, m) && ctx.fetch(st.index, m.url).Some?
    ensures SavedAt(ctx, st, m).Some?
    ensures var name := SavedAt(ctx, st, m).value;
            var st' := ScanStep(ctx, st, m);
            && name !in st.dir
            && st'.index == st.index + 1
            && st'.repl == st.repl + [Replacement(m.url, name)]
            && st'.dir == st.dir + {name}
            && st'.cover == (if st.cover.None? then Some(name) else st.cover)
            && st'.coverAlt == (if st.cover.None? && st.coverAlt == "" then m.alt else st.coverAlt)
  {
    assert SavedAt(ctx, st, m).Some?;
  }

  /** Every step either leaves the map, the directory and the cover alone, or saves one new file. */
  lemma StepShape(ctx: ScanContext, st: ScanState, m: Match)
    ensures var st' := ScanStep(ctx, st, m);
            || (st'.repl == st.repl && st'.dir == st.dir && st'.cover == st.cover && st'.coverAlt == st.coverAlt
                && st.index <= st'.index <= st.index + 1 && (st'.index == st.index + 1 <==> Attempted(st, m)))
            || (Attempted(st, m) && st'.index == st.index + 1
                && |st'.repl| == |st.repl| + 1
                && st'.repl == st.repl + [Replacement(m.url, st'.repl[|st.repl|].name)]
                && st'.repl[|st.repl|].name !in st.dir
                && st'.dir == st.dir + {st'.repl[|st.repl|].name}
                && st'.cover == (if st.cover.None? then Some(st'.repl[|st.repl|].name) else st.cover)
                && st'.coverAlt == (if st.cover.None? && st.coverAlt == "" then m.alt else st.coverAlt))
  {
    if !Attempted(st, m) {
      StepSkipped(ctx, st, m);
    } else if ctx.fetch(st.index, m.url).None? {
      StepFailed(ctx, st, m);
    } else {
      StepSaved(ctx, st, m);
    }
  }

  /** Every URL of the matches. */
  function MatchUrls(ms: seq<Match>): (us: seq<string>)
    ensures |us| == |ms|
    ensures forall k :: 0 <= k < |ms| ==> us[k] == ms[k].url
  {
    if ms == [] then [] else MatchUrls(ms[..|ms| - 1]) + [ms[|ms| - 1].url]
  }

  /**
   * The scan only adds to the map, each URL it adds is an http(s) URL of
   * some match, and no URL is added twice.
   */
  lemma {:induction false} ScanExtendsMap(ctx: ScanContext, ms: seq<Match>, init: ScanState)
    requires UrlsDistinct(init.repl)
    ensures var st := Scan(ctx, ms, init);
            && |init.repl| <= |st.repl| && st.repl[..|init.repl|] == init.repl
            && UrlsDistinct(st.repl)
            && forall k :: |init.repl| <= k < |st.repl| ==>
                 IsHttpUrl(st.repl[k].url) && st.repl[k].url in MatchUrls(ms)
    decreases |ms|
  {
    if ms != [] {
      var pre := ms[..|ms| - 1];
      var m := ms[|ms| - 1];
      ScanExtendsMap(ctx, pre, init);
      assert MatchUrls(ms) == MatchUrls(pre) + [m.url];
      StepExtendsMap(ctx, Scan(ctx, pre, init), m, init.repl, MatchUrls(pre));
    }
  }

  /** One step of the scan adds at most its own URL, once, and only an http(s) one. */
  lemma StepExtendsMap(ctx: ScanContext, st0: ScanState, m: Match, repl0: seq<Replacement>, urls: seq<string>)
    requires |repl0| <= |st0.repl| && st0.repl[..|repl0|] == repl0 && UrlsDistinct(st0.repl)
    requires forall k :: |repl0| <= k < |st0.repl| ==> IsHttpUrl(st0.repl[k].url) && st0.repl[k].url in urls
    ensures var st := ScanStep(ctx, st0, m);
            && |repl0| <= |st.repl| && st.repl[..|repl0|] == repl0
            && UrlsDistinct(st.repl)
            && forall k :: |repl0| <= k < |st.repl| ==> IsHttpUrl(st.repl[k].url) && st.repl[k].url in urls + [m.url]
  {
    var st := ScanStep(ctx, st0, m);
    if !Attempted(st0, m) {
      StepSkipped(ctx, st0, m);
    } else if ctx.fetch(st0.index, m.url).None? {
      StepFailed(ctx, st0, m);
    } else {
      StepSaved(ctx, st0, m);
      var name := SavedAt(ctx, st0, m).value;
      assert st.repl == st0.repl + [Replacement(m.url, name)];
      assert m.url !in Urls(st0.repl);
      SnocExtendsMap(st0.repl, Replacement(m.url, name), repl0, urls);
    }
  }

  /** Appending an http(s) URL that is not yet a key keeps the map's keys distinct. */
  lemma SnocExtendsMap(repl: seq<Replacement>, r: Replacement, repl0: seq<Replacement>, urls: seq<string>)
    requires |repl0| <= |repl| && repl[..|repl0|] == repl0 && UrlsDistinct(repl)
    requires forall k :: |repl0| <= k < |repl| ==> IsHttpUrl(repl[k].url) && repl[k].url in urls
    requires IsHttpUrl(r.url) && r.url !in Urls(repl)
    ensures var t := repl + [r];
            && |repl0| <= |t| && t[..|repl0|] == repl0
            && UrlsDistinct(t)
            && forall k :: |repl0| <= k < |t| ==> IsHttpUrl(t[k].url) && t[k].url in urls + [r.url]
  {
    var t := repl + [r];
    var n := |repl|;
    forall j | 0 <= j < n
      ensures repl[j].url != r.url
    {
      assert Urls(repl)[j] == repl[j].url;
    }
    forall j, k | 0 <= j < k < |t|
      ensures t[j].url != t[k].url
    {
      if k < n {
        assert t[j] == repl[j] && t[k] == repl[k];
      } else {
        assert t[j] == repl[j] && t[k] == r;
      }
    }
    forall k | |repl0| <= k < |t|
      ensures IsHttpUrl(t[k].url) && t[k].url in urls + [r.url]
    {
      if k < n {
        assert t[k] == repl[k];
      } else {
        assert t[k] == r;
      }
    }
    assert t[..|repl0|] == repl[..|repl0|];
  }

  /** The names of the entries from position `from` on. */
  function NamesFrom(repl: seq<Replacement>, from: nat): set<string>
  {
    set k | from <= k < |repl| :: repl[k].name
  }

  /** The asset directory grows by exactly the names of the saved files. */
  lemma {:induction false} ScanDirGrows(ctx: ScanContext, ms: seq<Match>, init: ScanState)
    ensures var st := Scan(ctx, ms, init);
            && |init.repl| <= |st.repl| && st.repl[..|init.repl|] == init.repl
            && st.dir == init.dir + NamesFrom(st.repl, |init.repl|)
    decreases |ms|
  {
    if ms != [] {
      var pre := ms[..|ms| - 1];
      var m := ms[|ms| - 1];
      ScanDirGrows(ctx, pre, init);
      StepDirGrows(ctx, Scan(ctx, pre, init), m, init.repl, init.dir);
    }
  }

  /** One step of the scan keeps the directory equal to the names saved since `repl0`. */
  lemma StepDirGrows(ctx: ScanContext, st0: ScanState, m: Match, repl0: seq<Replacement>, dir0: set<string>)
    requires |repl0| <= |st0.repl| && st0.repl[..|repl0|] == repl0
    requires st0.dir == dir0 + NamesFrom(st0.repl, |repl0|)
    ensures var st := ScanStep(ctx, st0, m);
            && |repl0| <= |st.repl| && st.repl[..|repl0|] == repl0
            && st.dir == dir0 + NamesFrom(st.repl, |repl0|)
  {
    var st := ScanStep(ctx, st0, m);
    var n := |repl0|;
    if !Attempted(st0, m) {
      StepSkipped(ctx, st0, m);
    } else if ctx.fetch(st0.index, m.url).None? {
      StepFailed(ctx, st0, m);
    } else {
      StepSaved(ctx, st0, m);
      var name := SavedAt(ctx, st0, m).value;
      SnocDirGrows(st0.repl, st.repl, Replacement(m.url, name), repl0, dir0, st0.dir, st.dir);
    }
  }

  /** Appending one saved pair keeps the old prefix and adds its name to the directory. */
  lemma SnocDirGrows(repl: seq<Replacement>, repl': seq<Replacement>, r: Replacement,
                     repl0: seq<Replacement>, dir0: set<string>, dir: set<string>, dir': set<string>)
    requires |repl0| <= |repl| && repl[..|repl0|] == repl0
    requires dir == dir0 + NamesFrom(repl, |repl0|)
    requires repl' == repl + [r] && dir' == dir + {r.name}
    ensures |repl0| <= |repl'| && repl'[..|repl0|] == repl0
    ensures dir' == dir0 + NamesFrom(repl', |repl0|)
  {
    assert repl'[..|repl0|] == repl[..|repl0|];
    NamesFromSnoc(repl, |repl0|, r);
  }

  lemma NamesFromSnoc(repl: seq<Replacement>, n: nat, r: Replacement)
    requires n <= |repl|
    ensures NamesFrom(repl + [r], n) == NamesFrom(repl, n) + {r.name}
  {
    var t := repl + [r];
    assert t[|repl|] == r;
    assert forall k :: n <= k < |repl| ==> t[k] == repl[k];
  }

  /**
   * Every file the scan saves has a name that was free in the asset
   * directory before the scan, and no two saved files share a name.
   */
  lemma {:induction false} ScanNamesFresh(ctx: ScanContext, ms: seq<Match>, init: ScanState)
    ensures var st := Scan(ctx, ms, init);
            && |init.repl| <= |st.repl|
            && (forall k :: |init.repl| <= k < |st.repl| ==> st.repl[k].name !in init.dir)
            && (forall j, k :: |init.repl| <= j < k < |st.repl| ==> st.repl[j].name != st.repl[k].name)
    decreases |ms|
  {
    if ms != [] {
      var pre := ms[..|ms| - 1];
      var m := ms[|ms| - 1];
      ScanNamesFresh(ctx, pre, init);
      ScanDirGrows(ctx, pre, init);
      var st0 := Scan(ctx, pre, init);
      var st := ScanStep(ctx, st0, m);
      StepShape(ctx, st0, m);
      var n := |init.repl|;
      if st.repl != st0.repl {
        var name := st.repl[|st0.repl|].name;
        assert name !in init.dir;
        forall j | n <= j < |st0.repl|
          ensures st.repl[j].name != name
        {
          assert st0.repl[j].name in NamesFrom(st0.repl, n);
        }
      }
    }
  }

  /** Match `k` is the first of `ms` at which the scan from `init` saved a file. */
  ghost predicate FirstSaveAt(ctx: ScanContext, ms: seq<Match>, init: ScanState, k: int)
  {
    0 <= k < |ms| && |Scan(ctx, ms[..k], init).repl| == |init.repl| < |Scan(ctx, ms[..k + 1], init).repl|
  }

  /**
   * The cover is kept when one was set before the scan; otherwise it is
   * the first file the scan saved, with the alternative text of the match
   * whose download saved it (when no alternative text was set before), or
   * none at all.
   */
  lemma {:induction false} ScanCover(ctx: ScanContext, ms: seq<Match>, init: ScanState)
    ensures var st := Scan(ctx, ms, init);
            && |init.repl| <= |st.repl|
            && (init.cover.Some? ==> st.cover == init.cover && st.coverAlt == init.coverAlt)
            && (init.cover.None? && |st.repl| == |init.repl| ==> st.cover.None? && st.coverAlt == init.coverAlt)
            && (init.cover.None? && |st.repl| > |init.repl| ==>
                  st.cover == Some(st.repl[|init.repl|].name)
                  && exists k :: FirstSaveAt(ctx, ms, init, k) && ms[k].url == st.repl[|init.repl|].url
                                 && st.coverAlt == (if init.coverAlt != "" then init.coverAlt else ms[k].alt))
    decreases |ms|
  {
    if ms != [] {
      var pre := ms[..|ms| - 1];
      var m := ms[|ms| - 1];
      ScanCover(ctx, pre, init);
      var st0 := Scan(ctx, pre, init);
      var st := ScanStep(ctx, st0, m);
      StepShape(ctx, st0, m);
      if init.cover.None? && |st.repl| > |init.repl| {
        if |st0.repl| > |init.repl| {
          CoverKept(ctx, st0, m, init, pre, ms);
        } else {
          assert st.repl[|init.repl|] == Replacement(m.url, st.repl[|st0.repl|].name);
          assert ms[..|ms| - 1] == pre && ms[..|ms|] == ms;
          assert FirstSaveAt(ctx, ms, init, |ms| - 1);
        }
      }
    }
  }

  /** Once the cover is set, a step keeps it, and the match that saved it is still the first to save. */
  lemma CoverKept(ctx: ScanContext, st0: ScanState, m: Match, init: ScanState, pre: seq<Match>, ms: seq<Match>)
    requires |ms| > 0 && pre == ms[..|ms| - 1]
    requires |init.repl| < |st0.repl| && st0.cover.Some?
    requires exists k :: FirstSaveAt(ctx, pre, init, k) && pre[k].url == st0.repl[|init.repl|].url
                         && st0.coverAlt == (if init.coverAlt != "" then init.coverAlt else pre[k].alt)
    ensures var st := ScanStep(ctx, st0, m);
            && |init.repl| < |st.repl| && st.cover == st0.cover && st.repl[|init.repl|] == st0.repl[|init.repl|]
            && exists k :: FirstSaveAt(ctx, ms, init, k) && ms[k].url == st.repl[|init.repl|].url
                           && st.coverAlt == (if init.coverAlt != "" then init.coverAlt else ms[k].alt)
  {
    StepShape(ctx, st0, m);
    var k :| FirstSaveAt(ctx, pre, init, k) && pre[k].url == st0.repl[|init.repl|].url
             && st0.coverAlt == (if init.coverAlt != "" then init.coverAlt else pre[k].alt);
    FirstSaveExtends(ctx, pre, ms, init, k);
  }

  /** The first save in a prefix of the matches is the first save in the whole. */
  lemma FirstSaveExtends(ctx: ScanContext, pre: seq<Match>, ms: seq<Match>, init: ScanState, k: int)
    requires |ms| > 0 && pre == ms[..|ms| - 1]
    requires FirstSaveAt(ctx, pre, init, k)
    ensures FirstSaveAt(ctx, ms, init, k) && ms[k] == pre[k]
  {
    assert ms[..k] == pre[..k] && ms[..k + 1] == pre[..k + 1];
  }

  /**
   * A URL whose every download fails is never recorded: after the scan it
   * is still not a key of the map, so its images keep their URL.
   */
  lemma {:induction false} ScanFailedUrlUnmapped(ctx: ScanContext, ms: seq<Match>, init: ScanState, u: string)
    requires u !in Urls(init.repl)
    requires forall n :: ctx.fetch(n, u).None?
    ensures u !in Urls(Scan(ctx, ms, init).repl)
    decreases |ms|
  {
    if ms != [] {
      var pre := ms[..|ms| - 1];
      var m := ms[|ms| - 1];
      ScanFailedUrlUnmapped(ctx, pre, init, u);
      var st0 := Scan(ctx, pre, init);
      if !Attempted(st0, m) {
        StepSkipped(ctx, st0, m);
      } else if ctx.fetch(st0.index, m.url).None? {
        StepFailed(ctx, st0, m);
      } else {
        StepSaved(ctx, st0, m);
        var st := ScanStep(ctx, st0, m);
        forall k | 0 <= k < |st.repl|
          ensures Urls(st.repl)[k] != u
        {
          if k < |st0.repl| {
            assert st.repl[k] == st0.repl[k];
            assert Urls(st0.repl)[k] == st0.repl[k].url;
          } else {
            assert st.repl[k].url == m.url;
          }
        }
      }
    }
  }

  /** The http(s) matches. */
  function CountHttp(ms: seq<Match>): (n: nat)
    ensures n <= |ms|
  {
    if ms == [] then 0 else CountHttp(ms[..|ms| - 1]) + (if IsHttpUrl(ms[|ms| - 1].url) then 1 else 0)
  }

  /**
   * When every download fails nothing is recorded, so each http(s) match is
   * attempted, a repeated URL included, and each attempt uses up an index.
   */
  lemma {:induction false} ScanAllFailed(ctx: ScanContext, ms: seq<Match>, init: ScanState)
    requires forall n, u :: ctx.fetch(n, u).None?
    requires init.repl == []
    ensures Scan(ctx, ms, init) == init.(index := init.index + CountHttp(ms))
    decreases |ms|
  {
    if ms != [] {
      var pre := ms[..|ms| - 1];
      var m := ms[|ms| - 1];
      ScanAllFailed(ctx, pre, init);
      var st0 := Scan(ctx, pre, init);
      assert Urls(st0.repl) == [];
      if IsHttpUrl(m.url) {
        assert ctx.fetch(st0.index, m.url).None?;
        StepFailed(ctx, st0, m);
      } else {
        StepSkipped(ctx, st0, m);
      }
    }
  }

  /** Matches whose URL is not http(s) change nothing. */
  lemma {:induction false} ScanSkipsNonHttp(ctx: ScanContext, ms: seq<Match>, init: ScanState)
    requires forall k :: 0 <= k < |ms| ==> !IsHttpUrl(ms[k].url)
    ensures Scan(ctx, ms, init) == init
    decreases |ms|
  {
    if ms != [] {
      ScanSkipsNonHttp(ctx, ms[..|ms| - 1], init);
    }
  }

  /** Each attempt uses up one index, and each saved file comes from one attempt. */
  lemma {:induction false} ScanIndexCounts(ctx: ScanContext, ms: seq<Match>, init: ScanState)
    ensures var st := Scan(ctx, ms, init);
            init.index + (|st.repl| - |init.repl|) <= st.index <= init.index + CountHttp(ms)
            && |init.repl| <= |st.repl|
    decreases |ms|
  {
    if ms != [] {
      ScanIndexCounts(ctx, ms[..|ms| - 1], init);
      StepShape(ctx, Scan(ctx, ms[..|ms| - 1], init), ms[|ms| - 1]);
    }
  }

  // ---------------------------------------------------------------------------
  // The rewrite: lines 306-308, as written
  // ---------------------------------------------------------------------------

  /** `{{ page.img_path }}<name>`. */
  function LocalRef(name: string): string
  {
    "{{ page.img_path }}" + name
  }

  predicate UrlsNonEmpty(repl: seq<Replacement>)
  {
    forall k :: 0 <= k < |repl| ==> repl[k].url != ""
  }

  /** `contentMd.split(from).join(...)` for each entry, in insertion order. */
  function ApplyAll(s: string, repl: seq<Replacement>): string
    requires UrlsNonEmpty(repl)
    decreases |repl|
  {
    if repl == [] then s
    else ApplyAll(ReplaceAll(s, repl[0].url, LocalRef(repl[0].name)), repl[1..])
  }

  /** The `for (const [from, localName] of replacements.entries())` loop. */
  method ApplyReplacements(content: string, repl: seq<Replacement>) returns (out: string)
    requires UrlsNonEmpty(repl)
    ensures out == ApplyAll(content, repl)
  {
    out := content;
    for i := 0 to |repl|
      invariant ApplyAll(out, repl[i..]) == ApplyAll(content, repl)
    {
      assert repl[i..][1..] == repl[i + 1..];
      out := ReplaceAll(out, repl[i].url, LocalRef(repl[i].name));
    }
  }

  /** Text in which no mapped URL occurs comes out of the rewrite unchanged. */
  lemma {:induction false} ApplyAllAbsent(s: string, repl: seq<Replacement>)
    requires UrlsNonEmpty(repl)
    requires forall k :: 0 <= k < |repl| ==> !Occurs(repl[k].url, s)
    ensures ApplyAll(s, repl) == s
    decreases |repl|
  {
    if repl != [] {
      ReplaceAllAbsent(s, repl[0].url, LocalRef(repl[0].name));
      ApplyAllAbsent(s, repl[1..]);
    }
  }

  // ---------------------------------------------------------------------------
  // The rewrite, one image reference at a time
  // ---------------------------------------------------------------------------

  /** `replacements.get(url)`. */
  function Lookup(repl: seq<Replacement>, url: string): (r: Option<string>)
    ensures r.None? <==> url !in Urls(repl)
    ensures r.Some? ==> exists k :: 0 <= k < |repl| && repl[k] == Replacement(url, r.value)
  {
    if repl == [] then None
    else if repl[0].url == url then Some(repl[0].name)
    else
      var r := Lookup(repl[1..], url);
      assert Urls(repl) == [repl[0].url] + Urls(repl[1..]);
      assert forall k :: 1 <= k < |repl| ==> repl[k] == repl[1..][k - 1];
      r
  }

  /**
   * One segment, rewritten: an image reference whose URL was downloaded
   * points at the local file, decided on its whole URL, while the text
   * around it and the prose get the literal replacement of every saved URL.
   */
  function RewriteSegment(s: Segment, repl: seq<Replacement>): Segment
    requires UrlsNonEmpty(repl)
  {
    match s
    case Prose(t) => Prose(ApplyAll(t, repl))
    case ImageLink(alt, lead, url, trail) =>
      var target := match Lookup(repl, url) case Some(name) => LocalRef(name) case None => url;
      ImageLink(alt, ApplyAll(lead, repl), target, ApplyAll(trail, repl))
  }

  /**
   * The rewrite the image pass is after: each image reference whose URL is
   * in the map points at that URL's local file, an image whose download
   * failed keeps its URL, and every other literal occurrence of a saved URL
   * is replaced as the split/join does.
   */
  function RewriteImages(body: seq<Segment>, repl: seq<Replacement>): (r: seq<Segment>)
    requires UrlsNonEmpty(repl)
    ensures |r| == |body|
    ensures forall k :: 0 <= k < |body| ==> r[k] == RewriteSegment(body[k], repl)
  {
    if body == [] then [] else [RewriteSegment(body[0], repl)] + RewriteImages(body[1..], repl)
  }

  /**
   * Prose gets the literal replacement; an image whose download failed (or
   * was never attempted) keeps its URL; a downloaded image names the local
   * file saved for exactly its URL. The text of a reference around its URL
   * gets the literal replacement in both cases.
   */
  lemma RewriteImagesEffect(body: seq<Segment>, repl: seq<Replacement>, k: nat)
    requires UrlsNonEmpty(repl)
    requires k < |body|
    ensures var r := RewriteImages(body, repl)[k];
            && (body[k].Prose? ==> r == Prose(ApplyAll(body[k].text, repl)))
            && (body[k].ImageLink? ==>
                  r.ImageLink? && r.alt == body[k].alt
                  && r.lead == ApplyAll(body[k].lead, repl) && r.trail == ApplyAll(body[k].trail, repl))
            && (body[k].ImageLink? && body[k].url !in Urls(repl) ==> r.url == body[k].url)
            && (body[k].ImageLink? && body[k].url in Urls(repl) ==>
                  exists j :: 0 <= j < |repl| && repl[j].url == body[k].url && r.url == LocalRef(repl[j].name))
  {
    if body[k].ImageLink? && body[k].url in Urls(repl) {
      var name := Lookup(repl, body[k].url).value;
      var j :| 0 <= j < |repl| && repl[j] == Replacement(body[k].url, name);
      assert repl[j].url == body[k].url;
    }
  }

  /** A single replacement leaves text alone in which no character starts its URL. */
  lemma ApplyOneUntouched(p: string, u: string, name: string)
    requires u != [] && forall k :: 0 <= k < |p| ==> p[k] != u[0]
    ensures ApplyAll(p, [Replacement(u, name)]) == p
  {
    ReplaceAllPrefix(p, "", u, LocalRef(name));
    ReplaceAllShort("", u, LocalRef(name));
    assert p + "" == p;
    assert [Replacement(u, name)][1..] == [];
  }

  /** With an empty map the markdown is unchanged by both rewrites. */
  lemma NothingToRewrite(body: seq<Segment>)
    ensures RewriteImages(body, []) == body
    ensures ApplyAll(Flatten(body), []) == Flatten(body)
  {
  }

  // ---------------------------------------------------------------------------
  // Where the two rewrites differ
  // ---------------------------------------------------------------------------

  /** Two image references, the second to a URL that extends the first. */
  function PrefixPair(u: string, x: string): seq<Segment>
  {
    [ImageLink("", "![](", u, ")"), Prose(" "), ImageLink("", "![](", u + x, ")")]
  }

  /**
   * When the first URL was downloaded and a download of the second failed,
   * the scan maps only the first.
   */
  lemma PrefixPairScan(ctx: ScanContext, u: string, x: string, init: ScanState)
    requires IsHttpUrl(u) && IsHttpUrl(u + x) && x != ""
    requires init.repl == []
    requires ctx.fetch(init.index, u).Some? && ctx.fetch(init.index + 1, u + x).None?
    ensures exists name :: Scan(ctx, Matches(PrefixPair(u, x)), init).repl == [Replacement(u, name)]
  {
    MatchesOfPrefixPair(u, x);
    assert u + x != u by {
      assert |u + x| > |u|;
    }
    ScanSavedThenFailed(ctx, Match("", u), Match("", u + x), init);
  }

  lemma ScanSnoc(ctx: ScanContext, ms: seq<Match>, m: Match, init: ScanState)
    ensures Scan(ctx, ms + [m], init) == ScanStep(ctx, Scan(ctx, ms, init), m)
  {
    assert (ms + [m])[..|ms|] == ms;
  }

  /** Two matches at different URLs, where the first download succeeds and the second fails. */
  lemma ScanSavedThenFailed(ctx: ScanContext, m1: Match, m2: Match, init: ScanState)
    requires IsHttpUrl(m1.url) && IsHttpUrl(m2.url) && m1.url != m2.url
    requires init.repl == []
    requires ctx.fetch(init.index, m1.url).Some? && ctx.fetch(init.index + 1, m2.url).None?
    ensures exists name :: Scan(ctx, [m1, m2], init).repl == [Replacement(m1.url, name)]
  {
    ScanPair(ctx, m1, m2, init);
    StepSaved(ctx, init, m1);
    var st1 := ScanStep(ctx, init, m1);
    var name := SavedAt(ctx, init, m1).value;
    assert st1.repl == [Replacement(m1.url, name)];
    assert Urls(st1.repl) == [m1.url];
    StepFailed(ctx, st1, m2);
  }

  lemma ScanPair(ctx: ScanContext, m1: Match, m2: Match, init: ScanState)
    ensures Scan(ctx, [m1, m2], init) == ScanStep(ctx, ScanStep(ctx, init, m1), m2)
  {
    ScanSnoc(ctx, [], m1, init);
    ScanSnoc(ctx, [m1], m2, init);
    assert [] + [m1] == [m1];
    assert [m1] + [m2] == [m1, m2];
  }

  lemma MatchesOfPrefixPair(u: string, x: string)
    ensures Matches(PrefixPair(u, x)) == [Match("", u), Match("", u + x)]
  {
    var body := PrefixPair(u, x);
    assert body[1..] == [Prose(" "), ImageLink("", "![](", u + x, ")")];
    assert body[1..][1..] == [ImageLink("", "![](", u + x, ")")];
    assert body[1..][1..][1..] == [];
    assert Matches(body[1..][1..]) == [Match("", u + x)];
    assert Matches(body[1..]) == [Match("", u + x)];
    assert Matches(body) == [Match("", u)] + [Match("", u + x)];
  }

  /**
   * The split/join rewrite replaces the first URL inside the second as
   * well: the image whose download failed ends up pointing at
   * `{{ page.img_path }}<name><x>`, a file that was never saved, while the
   * per-reference rewrite keeps its URL.
   */
  lemma SplitJoinRewritesFailedUrl(u: string, x: string, name: string)
    requires |u| > 0 && u[0] == 'h' && x != [] && |x| + 1 < |u|
    ensures ApplyAll(Flatten(PrefixPair(u, x)), [Replacement(u, name)])
            == "![](" + LocalRef(name) + ") ![](" + LocalRef(name) + x + ")"
    ensures Flatten(RewriteImages(PrefixPair(u, x), [Replacement(u, name)]))
            == "![](" + LocalRef(name) + ") ![](" + u + x + ")"
    ensures ApplyAll(Flatten(PrefixPair(u, x)), [Replacement(u, name)])
            != Flatten(RewriteImages(PrefixPair(u, x), [Replacement(u, name)]))
  {
    var to := LocalRef(name);
    SplitJoinPrefixPair(u, x, name);
    RewritePrefixPair(u, x, name);
    var written := "![](" + to + ") ![](" + to + x + ")";
    var intended := "![](" + to + ") ![](" + u + x + ")";
    var i := 4 + |to| + 6;
    assert written[i] == to[0] == '{';
    assert intended[i] == u[0] == 'h';
  }

  lemma SplitJoinPrefixPair(u: string, x: string, name: string)
    requires |u| > 0 && u[0] == 'h' && |x| + 1 < |u|
    ensures ApplyAll(Flatten(PrefixPair(u, x)), [Replacement(u, name)])
            == "![](" + LocalRef(name) + ") ![](" + LocalRef(name) + x + ")"
  {
    var to := LocalRef(name);
    FlattenPrefixPair(u, x);
    ApplyOne(Flatten(PrefixPair(u, x)), u, name);
    ReplaceAllTwice("![](", ") ![](", u, x + ")", to);
    assert "![](" + (to + (") ![](" + (to + (x + ")")))) == "![](" + to + ") ![](" + to + x + ")";
  }

  /** A map of one pair is one split/join. */
  lemma ApplyOne(s: string, u: string, name: string)
    requires u != []
    ensures ApplyAll(s, [Replacement(u, name)]) == ReplaceAll(s, u, LocalRef(name))
  {
    assert [Replacement(u, name)][1..] == [];
  }

  /** Two occurrences of `from`, the second followed by text too short to hold another. */
  lemma ReplaceAllTwice(p1: string, p2: string, from: string, tail: string, to: string)
    requires from != [] && |tail| < |from|
    requires forall k :: 0 <= k < |p1| ==> p1[k] != from[0]
    requires forall k :: 0 <= k < |p2| ==> p2[k] != from[0]
    ensures ReplaceAll(p1 + (from + (p2 + (from + tail))), from, to) == p1 + (to + (p2 + (to + tail)))
  {
    ReplaceAllShort(tail, from, to);
    ReplaceAllMatch(tail, from, to);
    ReplaceAllPrefix(p2, from + tail, from, to);
    ReplaceAllMatch(p2 + (from + tail), from, to);
    ReplaceAllPrefix(p1, from + (p2 + (from + tail)), from, to);
  }

  lemma FlattenPrefixPair(u: string, x: string)
    ensures Flatten(PrefixPair(u, x)) == "![](" + (u + (") ![](" + (u + (x + ")"))))
  {
    var body := PrefixPair(u, x);
    assert body[1..] == [Prose(" "), ImageLink("", "![](", u + x, ")")];
    assert body[1..][1..] == [ImageLink("", "![](", u + x, ")")];
    assert body[1..][1..][1..] == [];
    assert Flatten(body[1..][1..]) == "![](" + (u + x) + ")";
    assert Flatten(body[1..]) == " " + ("![](" + (u + x) + ")");
  }

  lemma RewritePrefixPair(u: string, x: string, name: string)
    requires |u| > 0 && u[0] == 'h' && x != []
    ensures Flatten(RewriteImages(PrefixPair(u, x), [Replacement(u, name)]))
            == "![](" + LocalRef(name) + ") ![](" + u + x + ")"
  {
    var r := RewriteImages(PrefixPair(u, x), [Replacement(u, name)]);
    RewritePrefixPairSegments(u, x, name);
    assert r[1..] == [Prose(" "), ImageLink("", "![](", u + x, ")")];
    assert r[1..][1..] == [ImageLink("", "![](", u + x, ")")];
    assert r[1..][1..][1..] == [];
    assert Flatten(r[1..][1..]) == "![](" + (u + x) + ")";
    assert Flatten(r[1..]) == " " + ("![](" + (u + x) + ")");
    assert Flatten(r) == "![](" + LocalRef(name) + ")" + (" " + ("![](" + (u + x) + ")"));
  }

  /** The per-reference rewrite of the pair rewrites only the first image. */
  lemma RewritePrefixPairSegments(u: string, x: string, name: string)
    requires |u| > 0 && u[0] == 'h' && x != []
    ensures RewriteImages(PrefixPair(u, x), [Replacement(u, name)])
            == [ImageLink("", "![](", LocalRef(name), ")"), Prose(" "), ImageLink("", "![](", u + x, ")")]
  {
    var repl := [Replacement(u, name)];
    var body := PrefixPair(u, x);
    assert u + x != u by {
      assert |u + x| > |u|;
    }
    assert Lookup(repl, u) == Some(name);
    assert Lookup(repl[1..], u + x) == None;
    assert Lookup(repl, u + x) == None;
    ApplyOneUntouched("![](", u, name);
    ApplyOneUntouched(")", u, name);
    ApplyOneUntouched(" ", u, name);
    assert RewriteSegment(body[0], repl) == ImageLink("", "![](", LocalRef(name), ")");
    assert RewriteSegment(body[1], repl) == Prose(" ");
    assert RewriteSegment(body[2], repl) == ImageLink("", "![](", u + x, ")");
  }

  /** A prefix none of whose characters starts `from` is copied by the replacement. */
  lemma {:induction false} ReplaceAllPrefix(p: string, s: string, from: string, to: string)
    requires from != [] && forall k :: 0 <= k < |p| ==> p[k] != from[0]
    ensures ReplaceAll(p + s, from, to) == p + ReplaceAll(s, from, to)
    decreases |p|
  {
    if p != [] {
      assert p + s == [p[0]] + (p[1..] + s);
      assert p[0] != from[0];
      ReplaceAllCons(p[0], p[1..] + s, from, to);
      assert forall k :: 0 <= k < |p[1..]| ==> p[1..][k] == p[k + 1];
      ReplaceAllPrefix(p[1..], s, from, to);
      assert ReplaceAll(p + s, from, to) == [p[0]] + (p[1..] + ReplaceAll(s, from, to));
      assert [p[0]] + (p[1..] + ReplaceAll(s, from, to)) == p + ReplaceAll(s, from, to);
    } else {
      assert p + s == s;
    }
  }
}
