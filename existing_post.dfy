/**
 * `findExistingPostFileByNotionIdOrSlug`: which file of the posts directory a
 * page overwrites. The directory is its listing, in `readdirSync` order, with
 * the `notion_id` read from each file's front matter.
 */
module ExistingPost {
  import opened Wrappers
  import opened Text

  /**
   * A file of the posts directory: its name, and the `notion_id` string of
   * its front matter (`None` when the key is absent, is not a string, or
   * the front matter cannot be read).
   */
  datatype PostEntry = PostEntry(name: string, notionId: Option<string>)

  /** `f.toLowerCase().endsWith(".md")`. */
  predicate IsMarkdownName(name: string)
  {
    EndsWith(Lower(name), ".md")
  }

  /** The `.md` files of the listing (the extension compared without case), in listing order. */
  function MarkdownFiles(entries: seq<PostEntry>): (r: seq<PostEntry>)
    ensures |r| <= |entries|
  {
    if entries == [] then []
    else
      var rest := MarkdownFiles(entries[1..]);
      if IsMarkdownName(entries[0].name) then [entries[0]] + rest else rest
  }

  /** Exactly the `.md` entries of the listing are kept. */
  lemma {:induction false} MarkdownFilesMembers(entries: seq<PostEntry>)
    ensures forall e :: e in MarkdownFiles(entries) <==> e in entries && IsMarkdownName(e.name)
  {
    if entries != [] {
      MarkdownFilesMembers(entries[1..]);
      assert forall e :: e in entries <==> e == entries[0] || e in entries[1..];
    }
  }

  lemma {:induction false} MarkdownFilesAppend(a: seq<PostEntry>, b: seq<PostEntry>)
    ensures MarkdownFiles(a + b) == MarkdownFiles(a) + MarkdownFiles(b)
  {
    if a == [] {
      assert a + b == b;
    } else {
      assert (a + b)[0] == a[0];
      assert (a + b)[1..] == a[1..] + b;
      MarkdownFilesAppend(a[1..], b);
    }
  }

  /** The position of the first file satisfying `p`, or `|files|` when there is none. */
  function FirstWhere(files: seq<PostEntry>, p: PostEntry -> bool): (k: nat)
    ensures k <= |files|
    ensures forall j :: 0 <= j < k ==> !p(files[j])
    ensures k < |files| ==> p(files[k])
  {
    if files == [] || p(files[0]) then 0 else 1 + FirstWhere(files[1..], p)
  }

  lemma {:induction false} FirstWhereAppend(a: seq<PostEntry>, b: seq<PostEntry>, p: PostEntry -> bool)
    ensures FirstWhere(a + b, p) == if FirstWhere(a, p) < |a| then FirstWhere(a, p) else |a| + FirstWhere(b, p)
  {
    if a == [] {
      assert a + b == b;
    } else {
      assert (a + b)[0] == a[0];
      assert (a + b)[1..] == a[1..] + b;
      FirstWhereAppend(a[1..], b, p);
    }
  }

  /** `fm?.notion_id === pageId`. */
  function HasId(pageId: string): PostEntry -> bool
  {
    (e: PostEntry) => e.notionId == Some(pageId)
  }

  /** `f.endsWith(suffix)`, compared with case. */
  function HasSuffix(suffix: string): PostEntry -> bool
  {
    (e: PostEntry) => EndsWith(e.name, suffix)
  }

  /** The pattern `-<slug>.md` that a file name must end with to match by slug. */
  function SlugSuffix(slug: string): string
  {
    "-" + slug + ".md"
  }

  /**
   * The file the page maps to: the first `.md` file whose front matter
   * names the page, else the first `.md` file ending in `-<slug>.md`, else
   * none.
   */
  function ExistingPostName(entries: seq<PostEntry>, pageId: string, slug: string): Option<string>
  {
    var files := MarkdownFiles(entries);
    var k := FirstWhere(files, HasId(pageId));
    if k < |files| then Some(files[k].name)
    else
      var m := FirstWhere(files, HasSuffix(SlugSuffix(slug)));
      if m < |files| then Some(files[m].name) else None
  }

  /**
   * `findExistingPostFileByNotionIdOrSlug(pageId, slug)`; `dirExists` is
   * `fs.existsSync(POSTS_DIR)`. Returns the file's name within the posts
   * directory.
   */
  method FindExistingPost(dirExists: bool, entries: seq<PostEntry>, pageId: string, slug: string)
    returns (found: Option<string>)
    ensures found == if dirExists then ExistingPostName(entries, pageId, slug) else None
  {
    if !dirExists {
      return None;
    }
    var files := MarkdownFiles(entries);
    for i := 0 to |files|
      invariant forall j :: 0 <= j < i ==> files[j].notionId != Some(pageId)
    {
      if files[i].notionId == Some(pageId) {
        assert HasId(pageId)(files[i]);
        return Some(files[i].name);
      }
    }
    assert forall j :: 0 <= j < |files| ==> !HasId(pageId)(files[j]);
    var suffix := SlugSuffix(slug);
    var m := FirstWhere(files, HasSuffix(suffix));
    found := if m < |files| then Some(files[m].name) else None;
  }

  lemma SplitAt<T>(s: seq<T>, i: nat)
    requires i < |s|
    ensures s == s[..i] + ([s[i]] + s[i + 1..])
  {
  }

  /** Splits the `.md` files of a listing at a position of the listing. */
  lemma MarkdownFilesAt(entries: seq<PostEntry>, i: nat)
    requires i < |entries|
    ensures MarkdownFiles(entries) == MarkdownFiles(entries[..i])
                                      + MarkdownFiles([entries[i]]) + MarkdownFiles(entries[i + 1..])
  {
    var a, c := entries[..i], entries[i + 1..];
    var b := [entries[i]] + c;
    SplitAt(entries, i);
    MarkdownFilesAppend(a, b);
    MarkdownFilesAppend([entries[i]], c);
  }

  /** The first `.md` entry satisfying `p` in the listing is the first one among the `.md` files. */
  lemma FirstMarkdownWhere(entries: seq<PostEntry>, i: nat, p: PostEntry -> bool)
    requires i < |entries| && IsMarkdownName(entries[i].name) && p(entries[i])
    requires forall j :: 0 <= j < i && IsMarkdownName(entries[j].name) ==> !p(entries[j])
    ensures var files := MarkdownFiles(entries);
            FirstWhere(files, p) < |files| && files[FirstWhere(files, p)] == entries[i]
  {
    var e := entries[i];
    var pre := MarkdownFiles(entries[..i]);
    var post := MarkdownFiles(entries[i + 1..]);
    assert [e][1..] == [];
    assert MarkdownFiles([e]) == [e];
    MarkdownFilesAt(entries, i);
    var rest := [e] + post;
    assert MarkdownFiles(entries) == pre + rest;
    forall j | 0 <= j < |entries[..i]| && IsMarkdownName(entries[..i][j].name)
      ensures !p(entries[..i][j])
    {
      assert entries[..i][j] == entries[j];
    }
    NoMarkdownWhere(entries[..i], p);
    assert rest[0] == e;
    assert FirstWhere(rest, p) == 0;
    FirstWhereAppend(pre, rest, p);
  }

  /** No `.md` entry satisfies `p` exactly when no `.md` file does. */
  lemma NoMarkdownWhere(entries: seq<PostEntry>, p: PostEntry -> bool)
    requires forall j :: 0 <= j < |entries| && IsMarkdownName(entries[j].name) ==> !p(entries[j])
    ensures FirstWhere(MarkdownFiles(entries), p) == |MarkdownFiles(entries)|
  {
    var files := MarkdownFiles(entries);
    MarkdownFilesMembers(entries);
    forall k | 0 <= k < |files|
      ensures !p(files[k])
    {
      assert files[k] in entries;
    }
  }

  /**
   * A file whose front matter names the page wins, and among those the
   * first in listing order, whatever file names match the slug.
   */
  lemma ExistingPostById(entries: seq<PostEntry>, pageId: string, slug: string, i: nat)
    requires i < |entries| && IsMarkdownName(entries[i].name) && entries[i].notionId == Some(pageId)
    requires forall j :: 0 <= j < i && IsMarkdownName(entries[j].name) ==> entries[j].notionId != Some(pageId)
    ensures ExistingPostName(entries, pageId, slug) == Some(entries[i].name)
  {
    FirstMarkdownWhere(entries, i, HasId(pageId));
  }

  /**
   * Only when no `.md` file names the page, the first file ending in
   * `-<slug>.md` is taken.
   */
  lemma ExistingPostBySlug(entries: seq<PostEntry>, pageId: string, slug: string, i: nat)
    requires forall j :: 0 <= j < |entries| && IsMarkdownName(entries[j].name) ==> entries[j].notionId != Some(pageId)
    requires i < |entries| && EndsWith(entries[i].name, SlugSuffix(slug))
    requires forall j :: 0 <= j < i ==> !EndsWith(entries[j].name, SlugSuffix(slug))
    ensures ExistingPostName(entries, pageId, slug) == Some(entries[i].name)
  {
    NoMarkdownWhere(entries, HasId(pageId));
    SlugSuffixIsMarkdown(entries[i].name, slug);
    FirstMarkdownWhere(entries, i, HasSuffix(SlugSuffix(slug)));
  }

  /** With neither kind of match there is no existing file. */
  lemma ExistingPostNone(entries: seq<PostEntry>, pageId: string, slug: string)
    requires forall j :: 0 <= j < |entries| && IsMarkdownName(entries[j].name) ==> entries[j].notionId != Some(pageId)
    requires forall j :: 0 <= j < |entries| ==> !EndsWith(entries[j].name, SlugSuffix(slug))
    ensures ExistingPostName(entries, pageId, slug) == None
  {
    NoMarkdownWhere(entries, HasId(pageId));
    NoMarkdownWhere(entries, HasSuffix(SlugSuffix(slug)));
  }

  /** Whatever is found is a `.md` file of the listing. */
  lemma ExistingPostIsMarkdown(entries: seq<PostEntry>, pageId: string, slug: string)
    ensures var r := ExistingPostName(entries, pageId, slug);
            r.Some? ==> exists e :: e in entries && e.name == r.value && IsMarkdownName(e.name)
  {
    var files := MarkdownFiles(entries);
    var k := FirstWhere(files, HasId(pageId));
    var m := FirstWhere(files, HasSuffix(SlugSuffix(slug)));
    MarkdownFilesMembers(entries);
    if k < |files| {
      assert files[k] in files;
    } else if m < |files| {
      assert files[m] in files;
    }
  }

  /** A name ending in `-<slug>.md` passes the `.md` filter. */
  lemma SlugSuffixIsMarkdown(name: string, slug: string)
    requires EndsWith(name, SlugSuffix(slug))
    ensures IsMarkdownName(name)
  {
    var n := |name|;
    var s := SlugSuffix(slug);
    assert name[n - 3..] == s[|s| - 3..];
    assert s[|s| - 3..] == ".md";
    assert Lower(name)[n - 3..] == ".md";
  }

  /** The `.md` filter ignores case, the slug match does not: `…-slug.MD` is only found by id. */
  lemma UpperCaseExtensionOnlyById(slug: string)
    ensures IsMarkdownName("x-" + slug + ".MD")
    ensures !EndsWith("x-" + slug + ".MD", SlugSuffix(slug))
  {
    var name := "x-" + slug + ".MD";
    var n := |name|;
    assert name[n - 3..] == ".MD";
    assert Lower(name)[n - 3..] == ".md";
    assert name[n - 1] == 'D';
  }
}
