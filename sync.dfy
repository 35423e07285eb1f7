/**
 * `run`: for every page of the deploy queue, build the post, write it when
 * its text changed, and clear the page's deploy checkbox. The posts
 * directory, the asset directories and the Notion checkboxes are the fields
 * of a `Site`; everything the script asks of libraries and of the network
 * comes in through an `Env`.
 */
module Sync {
  import opened Wrappers
  import opened Text
  import opened Properties
  import opened FileNames
  import opened ExistingPost
  import opened BodyImages
  import opened FrontMatter

  /**
   * A page of the deploy queue: its id, `created_time`, `last_edited_time`,
   * properties, the cover URL (`cover.file.url || cover.external.url`,
   * `None` when the page has no cover or neither URL is set; `Some("")`,
   * like `None`, is skipped by `if (coverUrl)`), and its
   * markdown cut at the image references.
   */
  datatype Page = Page(id: string, createdTime: string, lastEdited: string, props: Props,
                       coverUrl: Option<string>, body: seq<Segment>)

  /** The two values `run` may take over from the front matter of an existing post. */
  datatype ExistingFm = ExistingFm(date: FmValue, imgPath: FmValue)

  /**
   * The configuration (the environment variables with their defaults
   * applied) and the libraries, as functions: `slugify` with its options,
   * the three `dayjs` formats and the compact one, `yaml.dump`, the
   * front-matter reader (an unreadable file gives an `ExistingFm` of
   * `undefined`s and no id), `new URL(u).pathname`, the downloads (the
   * content type of attempt `n` for page `p` at URL `u`, attempt 0 being the
   * cover), and whether Notion accepts clearing a page's checkbox.
   */
  datatype Env = Env(titleKeys: seq<string>, dateProp: string, tagProp: string,
                     primaryProp: string, secondaryProp: string, assetDir: string,
                     downloadCover: bool,
                     slugify: string -> string,
                     ymd: string -> string, year: string -> string,
                     jekyllDate: string -> string, compactDate: string -> string,
                     dump: (seq<string>, map<string, FmValue>) -> string,
                     idOf: string -> Option<string>,
                     frontMatterOf: string -> ExistingFm,
                     pathOf: string -> Option<string>,
                     fetch: (string, nat, string) -> Option<string>,
                     updateOk: string -> bool)

  /** `title || "post"`: what the slug is made from. */
  function SlugSource(title: string): (r: string)
    ensures r != ""
    ensures title != "" ==> r == title
  {
    if title == "" then "post" else title
  }

  /** `props[DATE_PROP]?.date?.start || p.created_time`. */
  function DateRaw(props: Props, dateProp: string, createdTime: string): (r: string)
    ensures (dateProp in props && props[dateProp].dateStart.Some? && props[dateProp].dateStart.value != "")
            ==> r == props[dateProp].dateStart.value
    ensures !(dateProp in props && props[dateProp].dateStart.Some? && props[dateProp].dateStart.value != "")
            ==> r == createdTime
  {
    if dateProp in props && props[dateProp].dateStart.Some? && props[dateProp].dateStart.value != ""
    then props[dateProp].dateStart.value
    else createdTime
  }

  /** `` `/${ASSET_DIR}/${year}/${slug}/` ``: the `img_path` of a new post. */
  function FreshImgPath(assetDir: string, year: string, slug: string): (r: string)
    ensures StartsWith(r, "/") && EndsWith(r, "/")
  {
    var r := "/" + assetDir + "/" + year + "/" + slug + "/";
    assert r[..1] == "/";
    assert r[|r| - 1..] == "/";
    r
  }

  /** `` `${dateForFile}-${slug}.md` ``: the name of a new post. */
  function NewPostName(dateForFile: string, slug: string): (r: string)
    ensures EndsWith(r, SlugSuffix(slug))
    ensures IsMarkdownName(r)
  {
    var r := dateForFile + "-" + slug + ".md";
    assert r == dateForFile + SlugSuffix(slug);
    assert r[|r| - |SlugSuffix(slug)|..] == SlugSuffix(slug);
    SlugSuffixIsMarkdown(r, slug);
    r
  }

  /** `` `---\n${fmYaml}---\n\n${contentMd}\n` ``. */
  function PostText(fmYaml: string, content: string): (r: string)
    ensures StartsWith(r, "---\n") && EndsWith(r, "\n")
    ensures |r| == |fmYaml| + |content| + 10
  {
    var r := "---\n" + fmYaml + "---\n\n" + content + "\n";
    assert r[..4] == "---\n";
    assert r[|r| - 1..] == "\n";
    r
  }

  /** The listing as `findExistingPostFileByNotionIdOrSlug` reads it: each file with its `notion_id`. */
  function Entries(listing: seq<string>, contents: map<string, string>, idOf: string -> Option<string>): (es: seq<PostEntry>)
    requires forall n :: n in listing ==> n in contents
    ensures |es| == |listing|
    ensures forall i :: 0 <= i < |listing| ==> es[i] == PostEntry(listing[i], idOf(contents[listing[i]]))
  {
    if listing == [] then []
    else
      var rest := Entries(listing[1..], contents, idOf);
      [PostEntry(listing[0], idOf(contents[listing[0]]))] + rest
  }

  /** The write decision of lines 338-342: write unless the file exists with exactly this text. */
  predicate NeedWrite(contents: map<string, string>, target: string, text: string)
  {
    target !in contents || contents[target] != text
  }

  /** Writing the same text a second time is no change. */
  lemma SecondWriteIsNoChange(contents: map<string, string>, target: string, text: string)
    ensures !NeedWrite(contents[target := text], target, text)
    ensures NeedWrite(contents, target, text) <==> contents[target := text] != contents
  {
    if !NeedWrite(contents, target, text) {
      assert contents[target := text] == contents;
    } else if target in contents {
      assert contents[target := text][target] != contents[target];
    }
  }

  /** The posts directory, the asset directories and the deploy checkboxes, as `run` changes them. */
  class Site {
    /** `readdirSync(POSTS_DIR)`, in listing order; a new post is listed last. */
    var listing: seq<string>
    /** The text of every file of the posts directory. */
    var contents: map<string, string>
    /** The names in each asset directory, keyed by `path.join(ASSET_DIR, year, slug)`. */
    var assets: map<string, set<string>>
    /** `changed`: the number of files written. */
    var changed: nat
    /** The page ids for which a `pages.update` clearing the checkbox was sent, in order. */
    var unchecked: seq<string>
    /** The deploy checkbox of each page. */
    var deploy: map<string, bool>

    /** Every listed file has a text, every file is listed, and no file is listed twice. */
    predicate Valid()
      reads this
    {
      NoDuplicates(listing)
      && (forall n :: n in listing ==> n in contents)
      && (forall n :: n in contents ==> n in listing)
    }

    constructor (listing0: seq<string>, contents0: map<string, string>,
                 assets0: map<string, set<string>>, deploy0: map<string, bool>)
      requires NoDuplicates(listing0)
      requires forall n :: n in listing0 ==> n in contents0
      requires forall n :: n in contents0 ==> n in listing0
      ensures Valid()
      ensures listing == listing0 && contents == contents0 && assets == assets0 && deploy == deploy0
      ensures changed == 0 && unchecked == []
    {
      listing, contents, assets, deploy := listing0, contents0, assets0, deploy0;
      changed, unchecked := 0, [];
    }

    /**
     * Lines 338-353: the file is written, and counted, exactly when it does
     * not exist or holds another text; afterwards it holds `text`.
     */
    method WritePost(target: string, text: string) returns (wrote: bool)
      requires Valid()
      modifies this
      ensures Valid()
      ensures wrote <==> NeedWrite(old(contents), target, text)
      ensures contents == old(contents)[target := text]
      ensures listing == if target in old(contents) then old(listing) else old(listing) + [target]
      ensures changed == old(changed) + (if wrote then 1 else 0)
      ensures assets == old(assets) && unchecked == old(unchecked) && deploy == old(deploy)
    {
      var needWrite := true;
      if target in contents {
        var prev := contents[target];
        if prev == text {
          needWrite := false;
        }
      }
      if needWrite {
        if target !in contents {
          listing := listing + [target];
        }
        contents := contents[target := text];
        changed := changed + 1;
      }
      wrote := needWrite;
      if !wrote {
        assert contents == old(contents)[target := text];
      }
    }

    /**
     * Lines 355-366: the checkbox is cleared whether or not the file was
     * written; a failed update is only logged.
     */
    method ClearDeployFlag(pageId: string, ok: bool)
      modifies this
      ensures unchecked == old(unchecked) + [pageId]
      ensures deploy == if ok then old(deploy)[pageId := false] else old(deploy)
      ensures listing == old(listing) && contents == old(contents) && assets == old(assets)
      ensures changed == old(changed)
    {
      unchecked := unchecked + [pageId];
      if ok {
        deploy := deploy[pageId := false];
      }
    }

    /** One turn of the `for (const p of deployPages)` loop. */
    method SyncPage(env: Env, page: Page) returns (target: string, text: string)
      requires Valid()
      modifies this
      ensures Valid()
      ensures contents == old(contents)[target := text]
      ensures listing == if target in old(contents) then old(listing) else old(listing) + [target]
      ensures target in old(contents) || target == NewPostName(env.ymd(DateRaw(page.props, env.dateProp, page.createdTime)),
                                                               env.slugify(SlugSource(GetTitle(page.props, env.titleKeys))))
      ensures IsMarkdownName(target)
      ensures StartsWith(text, "---\n") && EndsWith(text, "\n")
      ensures changed == old(changed) + (if NeedWrite(old(contents), target, text) then 1 else 0)
      ensures unchecked == old(unchecked) + [page.id]
      ensures deploy == if env.updateOk(page.id) then old(deploy)[page.id := false] else old(deploy)
      ensures forall d :: d in old(assets) ==> d in assets && old(assets)[d] <= assets[d]
      ensures var p := PlanFor(env, page, old(listing), old(contents), old(assets));
              target == p.target && text == p.text && assets == old(assets)[p.assetKey := p.pass.dir]
    {
      var assetKey, assetNames;
      target, text, assetKey, assetNames := PreparePage(env, page);
      Commit(assetKey, assetNames, target, text, page.id, env.updateOk(page.id));
    }

    /**
     * Lines 253-336: the existing post is looked up, the images are saved
     * and the text is built, all before anything is written.
     */
    method PreparePage(env: Env, page: Page) returns (target: string, text: string, assetKey: string, assetNames: set<string>)
      requires Valid()
      ensures var p := PlanFor(env, page, listing, contents, assets);
              target == p.target && text == p.text && assetKey == p.assetKey && assetNames == p.pass.dir
      ensures assetKey in assets ==> assets[assetKey] <= assetNames
      ensures target in contents || target == NewPostName(env.ymd(DateRaw(page.props, env.dateProp, page.createdTime)),
                                                           env.slugify(SlugSource(GetTitle(page.props, env.titleKeys))))
      ensures IsMarkdownName(target)
      ensures StartsWith(text, "---\n") && EndsWith(text, "\n")
    {
      var title := GetTitle(page.props, env.titleKeys);
      var slug := env.slugify(SlugSource(title));
      var dateRaw := DateRaw(page.props, env.dateProp, page.createdTime);
      var existingFile, existingFm := LocatePost(env, page.id, slug);
      assetKey := AssetKey(env.assetDir, env.year(dateRaw), slug);
      var dir: set<string> := if assetKey in assets then assets[assetKey] else {};
      var st;
      text, st := BuildPost(env, page, title, slug, dateRaw, existingFm, dir);
      target := if existingFile.Some? then existingFile.value else NewPostName(env.ymd(dateRaw), slug);
      assetNames := st.dir;
    }

    /**
     * Lines 260-266: the existing post of the page, if any, and the date and
     * `img_path` of its front matter (`{}` when there is none).
     */
    method LocatePost(env: Env, pageId: string, slug: string) returns (existingFile: Option<string>, existingFm: ExistingFm)
      requires Valid()
      ensures existingFile == ExistingPostName(Entries(listing, contents, env.idOf), pageId, slug)
      ensures existingFile.Some? ==> (existingFile.value in contents && IsMarkdownName(existingFile.value)
                                      && existingFm == env.frontMatterOf(contents[existingFile.value]))
      ensures existingFile.None? ==> existingFm == ExistingFm(Undefined, Undefined)
      ensures existingFm == FrontMatterOfFile(env, contents, existingFile)
    {
      var entries := Entries(listing, contents, env.idOf);
      existingFile := FindExistingPost(true, entries, pageId, slug);
      existingFm := ExistingFm(Undefined, Undefined);
      if existingFile.Some? {
        ExistingPostIsMarkdown(entries, pageId, slug);
        var e :| e in entries && e.name == existingFile.value && IsMarkdownName(e.name);
        var i :| 0 <= i < |entries| && entries[i] == e;
        assert listing[i] == e.name;
        existingFm := env.frontMatterOf(contents[existingFile.value]);
      }
    }

    /** Lines 338-366 and the asset directory's new listing: write the post, then clear the checkbox. */
    method Commit(assetKey: string, assetNames: set<string>, target: string, text: string, pageId: string, ok: bool)
      requires Valid()
      requires assetKey in assets ==> assets[assetKey] <= assetNames
      modifies this
      ensures Valid()
      ensures assets == old(assets)[assetKey := assetNames]
      ensures forall d :: d in old(assets) ==> d in assets && old(assets)[d] <= assets[d]
      ensures contents == old(contents)[target := text]
      ensures listing == if target in old(contents) then old(listing) else old(listing) + [target]
      ensures changed == old(changed) + (if NeedWrite(old(contents), target, text) then 1 else 0)
      ensures unchecked == old(unchecked) + [pageId]
      ensures deploy == if ok then old(deploy)[pageId := false] else old(deploy)
    {
      assets := assets[assetKey := assetNames];
      var _ := WritePost(target, text);
      ClearDeployFlag(pageId, ok);
    }

    /**
     * The loop of `run` over the deploy queue: each page is synced in turn
     * and every page's checkbox clearing is requested, in queue order.
     */
    method Run(env: Env, pages: seq<Page>)
      requires Valid()
      modifies this
      ensures Valid()
      ensures unchecked == old(unchecked) + PageIds(pages)
      ensures old(changed) <= changed <= old(changed) + |pages|
      ensures forall i :: 0 <= i < |pages| && env.updateOk(pages[i].id) ==>
                pages[i].id in deploy && !deploy[pages[i].id]
      ensures forall n :: n in old(contents) ==> n in contents
    {
      for i := 0 to |pages|
        invariant Valid()
        invariant unchecked == old(unchecked) + PageIds(pages[..i])
        invariant old(changed) <= changed <= old(changed) + i
        invariant forall j :: 0 <= j < i && env.updateOk(pages[j].id) ==>
                    pages[j].id in deploy && !deploy[pages[j].id]
        invariant forall n :: n in old(contents) ==> n in contents
      {
        RunStep(env, pages, i);
        PageIdsSnoc(pages, i);
      }
      assert pages[..|pages|] == pages;
    }

    /** Turn `i` of the loop: the checkboxes cleared so far stay cleared. */
    method RunStep(env: Env, pages: seq<Page>, i: nat)
      requires Valid() && i < |pages|
      requires forall j :: 0 <= j < i && env.updateOk(pages[j].id) ==>
                 pages[j].id in deploy && !deploy[pages[j].id]
      modifies this
      ensures Valid()
      ensures unchecked == old(unchecked) + [pages[i].id]
      ensures old(changed) <= changed <= old(changed) + 1
      ensures forall j :: 0 <= j <= i && env.updateOk(pages[j].id) ==>
                pages[j].id in deploy && !deploy[pages[j].id]
      ensures forall n :: n in old(contents) ==> n in contents
    {
      ghost var deploy0 := deploy;
      var _, _ := SyncPage(env, pages[i]);
      ClearedStayCleared(env, pages, i, deploy0, deploy);
    }
  }

  /** Clearing the checkbox of page `i` keeps the checkboxes of the pages before it cleared. */
  lemma ClearedStayCleared(env: Env, pages: seq<Page>, i: nat, deploy0: map<string, bool>, deploy: map<string, bool>)
    requires i < |pages|
    requires forall j :: 0 <= j < i && env.updateOk(pages[j].id) ==> pages[j].id in deploy0 && !deploy0[pages[j].id]
    requires deploy == if env.updateOk(pages[i].id) then deploy0[pages[i].id := false] else deploy0
    ensures forall j :: 0 <= j <= i && env.updateOk(pages[j].id) ==> pages[j].id in deploy && !deploy[pages[j].id]
  {
  }

  /** `path.join(ASSET_DIR, year, slug)`: the asset directory of a post. */
  function AssetKey(assetDir: string, year: string, slug: string): string
  {
    assetDir + "/" + year + "/" + slug
  }

  /** `if (coverUrl)`: the page has a cover URL and it is not the empty string. */
  predicate HasCoverUrl(page: Page)
  {
    page.coverUrl.Some? && page.coverUrl.value != ""
  }

  /** Lines 267-276: the cover, saved as `cover.<ext>` when covers are downloaded and the page has one. */
  function CoverName(env: Env, page: Page, dir: set<string>): (r: Option<string>)
    ensures r.Some? ==> env.downloadCover && HasCoverUrl(page) && r.value !in dir
  {
    if env.downloadCover && HasCoverUrl(page) then
      SavedName(env.pathOf(page.coverUrl.value), dir, "cover", env.fetch(page.id, 0, page.coverUrl.value))
    else None
  }

  /** What the body scan of a page reads: the compact date, the slug, and the page's downloads. */
  function ContextFor(env: Env, page: Page, slug: string, dateRaw: string): ScanContext
  {
    ScanContext(env.compactDate(dateRaw), slug, env.pathOf, (n: nat, u: string) => env.fetch(page.id, n, u))
  }

  /** The image pass of a page: the cover first, then the body scan from `imgIndex = 1`. */
  function ImagePass(env: Env, page: Page, slug: string, dateRaw: string, dir: set<string>): (st: ScanState)
    ensures UrlsNonEmpty(st.repl)
  {
    var cover := CoverName(env, page, dir);
    var dir1 := if cover.Some? then dir + {cover.value} else dir;
    var init := ScanState(1, [], dir1, cover, "");
    ScanExtendsMap(ContextFor(env, page, slug, dateRaw), Matches(page.body), init);
    var st := Scan(ContextFor(env, page, slug, dateRaw), Matches(page.body), init);
    st
  }

  /** `fmObj` of lines 311-321, before pruning. */
  function FrontMatterFor(env: Env, page: Page, title: string, slug: string, dateRaw: string,
                          existingFm: ExistingFm, st: ScanState): map<string, FmValue>
  {
    FrontMatterValues(title, OrElse(existingFm.date, Str(env.jekyllDate(dateRaw))),
                      OrElse(existingFm.imgPath, Str(FreshImgPath(env.assetDir, env.year(dateRaw), slug))),
                      st.cover, st.coverAlt,
                      Categories(page.props, env.primaryProp, env.secondaryProp), Tags(page.props, env.tagProp),
                      page.id, page.lastEdited)
  }

  /**
   * The text written for a page: the pruned front matter, dumped, and the
   * body with every saved URL replaced by the split/join of lines 306-308.
   */
  function PostFor(env: Env, page: Page, title: string, slug: string, dateRaw: string,
                   existingFm: ExistingFm, st: ScanState): string
    requires UrlsNonEmpty(st.repl)
  {
    var values := FrontMatterFor(env, page, title, slug, dateRaw, existingFm, st);
    PostText(env.dump(KeptKeys(FieldOrder, values), KeptValues(values)), ApplyAll(Flatten(page.body), st.repl))
  }

  /**
   * What one turn of the loop decides for a page, from the site as it was
   * before the turn: the title, slug and date, the existing post and its
   * front matter, the asset directory, the image pass, the file written and
   * its text.
   */
  datatype Plan = Plan(title: string, slug: string, dateRaw: string,
                       existingFile: Option<string>, existingFm: ExistingFm,
                       assetKey: string, pass: ScanState, target: string, text: string)

  /** The front matter `readExistingFrontMatter` gives for the existing post, `{}` without one. */
  function FrontMatterOfFile(env: Env, contents: map<string, string>, file: Option<string>): ExistingFm
  {
    if file.Some? && file.value in contents then env.frontMatterOf(contents[file.value]) else ExistingFm(Undefined, Undefined)
  }

  /** Lines 253-336: the plan of a page on a site with this listing, these files and these asset directories. */
  function PlanFor(env: Env, page: Page, listing: seq<string>, contents: map<string, string>,
                   assets: map<string, set<string>>): Plan
    requires forall n :: n in listing ==> n in contents
  {
    var title := GetTitle(page.props, env.titleKeys);
    var slug := env.slugify(SlugSource(title));
    var dateRaw := DateRaw(page.props, env.dateProp, page.createdTime);
    var existingFile := ExistingPostName(Entries(listing, contents, env.idOf), page.id, slug);
    var existingFm := FrontMatterOfFile(env, contents, existingFile);
    var assetKey := AssetKey(env.assetDir, env.year(dateRaw), slug);
    var st := ImagePass(env, page, slug, dateRaw, if assetKey in assets then assets[assetKey] else {});
    var target := match existingFile case Some(n) => n case None => NewPostName(env.ymd(dateRaw), slug);
    Plan(title, slug, dateRaw, existingFile, existingFm, assetKey, st, target,
         PostFor(env, page, title, slug, dateRaw, existingFm, st))
  }

  /**
   * Lines 253-336 for one page: downloads the cover and the body images
   * into the asset directory listed by `dir`, rewrites the body, and builds
   * and prunes the front matter.
   */
  method BuildPost(env: Env, page: Page, title: string, slug: string, dateRaw: string,
                   existingFm: ExistingFm, dir: set<string>) returns (text: string, st: ScanState)
    ensures st == ImagePass(env, page, slug, dateRaw, dir)
    ensures text == PostFor(env, page, title, slug, dateRaw, existingFm, st)
    ensures dir <= st.dir
  {
    var postDir := dir;
    var coverFileName: Option<string> := None;
    if env.downloadCover && page.coverUrl.Some? && page.coverUrl.value != "" {
      var url := page.coverUrl.value;
      var name := SaveImage(env.pathOf(url), postDir, "cover", env.fetch(page.id, 0, url));
      if name.Some? {
        coverFileName := name;
        postDir := postDir + {name.value};
      }
    }
    var ctx := ContextFor(env, page, slug, dateRaw);
    var init := ScanState(1, [], postDir, coverFileName, "");
    st := ScanImages(ctx, Matches(page.body), init);
    ScanDirGrows(ctx, Matches(page.body), init);
    assert st == ImagePass(env, page, slug, dateRaw, dir);
    var contentMd := ApplyReplacements(Flatten(page.body), st.repl);

    var values := FrontMatterFor(env, page, title, slug, dateRaw, existingFm, st);
    FieldOrderDistinct();
    var fmObj := new FrontMatterObject(FieldOrder, values);
    fmObj.Prune();
    text := PostText(env.dump(fmObj.keys, fmObj.values), contentMd);
  }

  /** The ids of the pages, in queue order. */
  function PageIds(pages: seq<Page>): (ids: seq<string>)
    ensures |ids| == |pages|
    ensures forall i :: 0 <= i < |pages| ==> ids[i] == pages[i].id
  {
    if pages == [] then [] else [pages[0].id] + PageIds(pages[1..])
  }

  lemma PageIdsSnoc(pages: seq<Page>, i: nat)
    requires i < |pages|
    ensures PageIds(pages[..i + 1]) == PageIds(pages[..i]) + [pages[i].id]
  {
    assert PageIds(pages[..i + 1]) == PageIds(pages[..i]) + [pages[i].id];
  }
}
