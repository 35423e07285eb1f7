# notion-sync, modelled in Dafny

`scripts/notion-sync.mjs` is a batch script that publishes the pages of a
Notion database whose "deploy" checkbox is set as Jekyll posts. It works in
this order:

1. It reads each page's title, date, categories and tags.
2. It finds the post file the page already has, first by the `notion_id` of
   the file's front matter and then by the file name's `-<slug>.md` suffix.
3. It downloads the cover and every http(s) image of the page's markdown
   into the post's asset directory, under collision-free names, and
   rewrites the image URLs to local paths.
4. It assembles and prunes the front matter.
5. It writes the post only when its text changed.
6. It clears the page's checkbox.

This project models the decision and string rules of that script and the
loops of `run` that apply them. It then proves what those rules promise.

The modules follow the script's parts:

| module | what it models |
|---|---|
| `Wrappers` | `Option` |
| `Text` | The JavaScript string operations the script relies on: `trim` (its whitespace and line-terminator set), ASCII `toLowerCase`, `startsWith`/`endsWith`, `split`/`pop`/`lastIndexOf`, `padStart(2, "0")`, and `split(from).join(to)` as `ReplaceAll`. |
| `Properties` | `plain`, `getTitle`, `getSelectOrMultiNames`, `uniq` and the category and tag lists. |
| `FileNames` | `sanitizeFileName`, `extFromContentType`, `extFromUrl` on a parsed pathname, and `saveImageFromUrl`'s choice of extension and collision-free name. The name-picking `while` loop is the method `PickName`. |
| `ExistingPost` | `findExistingPostFileByNotionIdOrSlug`. Its `for` loop with early return is the method `FindExistingPost`. |
| `BodyImages` | The image scan of `run` and the URL rewrite. The scan is the method `ScanImages`, proved equal to the fold `Scan`. |
| `FrontMatter` | The front-matter object of `run` and its pruning. The object is a class with a key list and a value map. `Prune` deletes keys in place, in key order. |
| `Sync` | One whole turn of `run`'s loop (`Site.SyncPage`) and the loop itself (`Site.Run`). The posts directory, the asset directories, the `changed` counter and the Notion checkboxes are the fields of the class `Site`. |

The script's interaction with Notion, the network, the file system and its
libraries comes in through the `Env` datatype, as plain functions:
- `slugify`, and the `dayjs` formats;
- `yaml.dump`, and the front-matter reader;
- `new URL(u).pathname`;
- the downloads, as the content type of attempt `n` for a page at a URL, or
  `None` when it failed;
- whether clearing a checkbox succeeds.

The page's markdown comes in already cut at the matches of the image
pattern, as a sequence of `Segment`s.

## Model

| member | source | states |
|---|---|---|
| Text.Trim | scripts/notion-sync.mjs:55 | The result is one slice of the input with only JavaScript whitespace cut before and after it (`IsCutOf`), and it neither starts nor ends with whitespace. It is empty exactly when every input character is whitespace. An input that neither starts nor ends with whitespace is returned unchanged. |
| Text.TrimUnique | scripts/notion-sync.mjs:55 | Any slice with only whitespace outside it and none at its own ends is the trimmed text. So `trim` is fixed by the first and last non-whitespace characters of its input. |
| Text.JoinSplit | scripts/notion-sync.mjs:307 | Joining the pieces of `s.split(sep)` with `sep` gives back `s`, for any non-empty separator. |
| Text.ReplaceAllAbsent | scripts/notion-sync.mjs:307 | `split(from).join(to)` leaves a text in which `from` does not occur unchanged. |
| Text.ParsePad2 | scripts/notion-sync.mjs:135 | Reading back the digits of `String(i).padStart(2, "0")` gives `i`. |
| Text.Pad2Injective | scripts/notion-sync.mjs:293-295 | Distinct numbers pad to distinct strings, so distinct image indexes give distinct name hints. |
| Properties.Plain | scripts/notion-sync.mjs:51-55 | A slice of the joined `plain_text` of the runs with only whitespace cut before and after it. It neither starts nor ends with whitespace, and is empty exactly when the joined text is all whitespace. |
| Properties.PlainOfOneRun | scripts/notion-sync.mjs:51-55 | A single run yields its own text, trimmed. |
| Properties.TitleSearch | scripts/notion-sync.mjs:58-60 | `None` exactly when no candidate key has a non-empty title. Otherwise the plain text of the first candidate key, in order, that has one. |
| Properties.GetTitle | scripts/notion-sync.mjs:57-65 | The configured keys, then `Name`, then `Title`, else `Untitled`. It has no contract of its own; `GetTitleIsFirstTitled`, `GetTitleUntitled` and `BlankTitleIsEmpty` state its properties. |
| Properties.GetTitleIsFirstTitled | scripts/notion-sync.mjs:57-65 | The title is the plain text of the first key with a non-empty title among `TITLE_KEYS`, then `Name`, then `Title`; with none it is `Untitled`. |
| Properties.TitleSearchFallbacks | scripts/notion-sync.mjs:62-63 | The fallback tries `Name` before `Title`. |
| Properties.GetTitleUntitled | scripts/notion-sync.mjs:64 | With no non-empty title under any key, the title is `Untitled`. The converse is not claimed: a title whose text is `Untitled` gives the same name. |
| Properties.BlankTitleIsEmpty | scripts/notion-sync.mjs:57-65 | The title is `""` exactly when the first titled key among the configured keys, `Name` and `Title` holds text made only of whitespace. Such a title is taken, not skipped for `Untitled`. |
| Properties.SelectOrMultiNames | scripts/notion-sync.mjs:186-192 | A missing property gives `[]`. A non-empty `multi_select` gives its names. Otherwise the result is the select name alone, or `[]` exactly when there is no select name or it is empty. |
| Properties.Uniq | scripts/notion-sync.mjs:193-195 | No duplicates and no empty strings. An element is in the result exactly when it is a non-empty input element. |
| Properties.UniqKeepsFirstOccurrenceOrder | scripts/notion-sync.mjs:193-195 | The result lists its elements in the order of their first occurrence in the input. |
| Properties.UniqOfDistinct | scripts/notion-sync.mjs:193-195 | Input that is already distinct and has no empty strings is returned as it is. |
| Properties.Categories | scripts/notion-sync.mjs:240-243 | The first primary and the first secondary name, each present only when non-empty, the secondary dropped when it equals the primary. |
| Properties.CategoriesBounded | scripts/notion-sync.mjs:243 | At most two categories, never repeated, never empty. |
| Properties.Tags | scripts/notion-sync.mjs:246-250 | No duplicates and no empty strings. A name is a tag exactly when it is a non-empty name of the tag property, of `Tags` or of `Tag`. |
| FileNames.SanitizeFileName | scripts/notion-sync.mjs:85-87 | Every character of the result is a word character, `.` or `-`, and the result is no longer than the input. |
| FileNames.SanitizeKeepsSafeName | scripts/notion-sync.mjs:85-87 | A name made only of `[\w.-]` characters is unchanged. |
| FileNames.SanitizeIdempotent | scripts/notion-sync.mjs:85-87 | Sanitizing twice is sanitizing once. |
| FileNames.SanitizeRun | scripts/notion-sync.mjs:86 | Safe characters are kept in order, and a maximal run of other characters becomes exactly one `_`. |
| FileNames.SanitizeCollapsesRun | scripts/notion-sync.mjs:86 | A leading maximal run of unsafe characters becomes one `_`. |
| FileNames.ExtFromContentType | scripts/notion-sync.mjs:89-96 | An extension exactly when the content type is non-empty and the part before `;`, trimmed and lowercased, starts with `image/`. The extension is never `jpeg`, and holds no `/`, no `;` and no upper case. |
| FileNames.ExtOfImageType | scripts/notion-sync.mjs:91-95 | `image/<sub>`, with or without parameters, yields `<sub>`, with `jpeg` rewritten to `jpg`. |
| FileNames.NoExtForOtherTypes | scripts/notion-sync.mjs:92 | A non-image content type yields no extension. |
| FileNames.ExtFromPath | scripts/notion-sync.mjs:99-105 | Any extension found is 2 to 5 lowercase letters or digits. |
| FileNames.ExtFromPathIsDotTail | scripts/notion-sync.mjs:100-104 | Any extension found is the lowercased text after a `.` at the end of the pathname. |
| FileNames.ExtFromPathOfName | scripts/notion-sync.mjs:100-104 | Every pathname ending in `.<e>` yields `e` lowercased, whenever `e` lowercased is 2 to 5 letters or digits. |
| FileNames.NoExtWithoutDot | scripts/notion-sync.mjs:101-102 | A last path segment without a dot yields no extension. |
| FileNames.ExtFromUrl | scripts/notion-sync.mjs:97-108 | A URL that does not parse yields no extension. Any extension found matches `^[a-z0-9]{2,5}$`. |
| FileNames.ImageExt | scripts/notion-sync.mjs:120-130 | The URL extension when there is one, else the content-type extension, else `png`. Never empty. |
| FileNames.BaseName | scripts/notion-sync.mjs:131 | The sanitized hint, or `img` for an empty hint. Non-empty and made of safe characters. |
| FileNames.CandidateInjective | scripts/notion-sync.mjs:132-135 | `base.ext`, `base-01.ext`, `base-02.ext`, … are pairwise distinct. |
| FileNames.CollisionsBounded | scripts/notion-sync.mjs:134-136 | The loop cannot find more taken candidates than there are existing names, so it terminates. |
| FileNames.FirstFree | scripts/notion-sync.mjs:132-136 | The index of the first candidate not among the existing names. Every earlier candidate is taken, and the index is at most the number of existing names. |
| FileNames.PickName | scripts/notion-sync.mjs:132-136 | The `while` loop returns the first free candidate, so the name is not among the existing names. |
| FileNames.SavedName | scripts/notion-sync.mjs:118-139 | A name exactly when the download succeeded, and that name is free in the directory. |
| FileNames.SaveImage | scripts/notion-sync.mjs:118-139 | Computes `SavedName`: `None` exactly for a failed download, otherwise a name not yet in the directory. |
| FileNames.SavedNamePlainWhenFree | scripts/notion-sync.mjs:132-134 | The plain `base.ext` is chosen exactly when it is free. |
| ExistingPost.MarkdownFiles | scripts/notion-sync.mjs:161-163 | The filtered listing is no longer than the listing. |
| ExistingPost.MarkdownFilesMembers | scripts/notion-sync.mjs:163 | Exactly the entries whose lowercased name ends in `.md` are considered. |
| ExistingPost.ExistingPostName | scripts/notion-sync.mjs:159-178 | The resolution rule: the first `.md` file with the page's `notion_id`, else the first `.md` file ending in `-<slug>.md`, else none. It has no contract of its own; `ExistingPostById`, `ExistingPostBySlug`, `ExistingPostNone` and `ExistingPostIsMarkdown` state its properties, and `FindExistingPost` is proved to compute it. |
| ExistingPost.FindExistingPost | scripts/notion-sync.mjs:159-178 | The two loops return what `ExistingPostName` specifies, or nothing when the posts directory is missing. |
| ExistingPost.ExistingPostById | scripts/notion-sync.mjs:165-172 | The first `.md` file in listing order whose `notion_id` is the page id is returned, whatever names match the slug. |
| ExistingPost.ExistingPostBySlug | scripts/notion-sync.mjs:174-177 | When no `.md` file has the page's id, the first file ending in `-<slug>.md` is returned. |
| ExistingPost.ExistingPostNone | scripts/notion-sync.mjs:177 | With neither kind of match there is no existing post. |
| ExistingPost.ExistingPostIsMarkdown | scripts/notion-sync.mjs:161-177 | Whatever is found is a `.md` entry of the listing. |
| ExistingPost.SlugSuffixIsMarkdown | scripts/notion-sync.mjs:163-175 | A name ending in `-<slug>.md` passes the `.md` filter. |
| ExistingPost.UpperCaseExtensionOnlyById | scripts/notion-sync.mjs:163-176 | A `….MD` file passes the case-insensitive filter but never matches the case-sensitive slug suffix. |
| BodyImages.IsHttpUrl | scripts/notion-sync.mjs:290 | `/^https?:\/\//i`: the URL, lowercased, starts with `http://` or `https://`. Used by `ScanStep`; `ScanSkipsNonHttp` and `ScanExtendsMap` state what it filters. |
| BodyImages.ScanStep | scripts/notion-sync.mjs:288-304 | One turn of the `while` loop on the variables it updates. It has no contract of its own; `StepSkipped`, `StepFailed`, `StepSaved` and `StepShape` state its cases. |
| BodyImages.Scan | scripts/notion-sync.mjs:284-305 | The fold of `ScanStep` over the matches. It has no contract of its own; `ScanExtendsMap`, `ScanDirGrows`, `ScanNamesFresh`, `ScanCover`, `ScanFailedUrlUnmapped`, `ScanAllFailed`, `ScanSkipsNonHttp` and `ScanIndexCounts` state its properties. |
| BodyImages.ScanImages | scripts/notion-sync.mjs:284-305 | The `while` loop over the matches ends in the state of the scan specification `Scan`. |
| BodyImages.ScanMatch | scripts/notion-sync.mjs:288-304 | One turn of the loop performs exactly one step of the scan. |
| BodyImages.StepSkipped | scripts/notion-sync.mjs:290-291 | A non-http(s) URL, or one already in the map, changes nothing: no attempt and no index used. |
| BodyImages.StepFailed | scripts/notion-sync.mjs:293-297 | A failed attempt uses up one index and records nothing. |
| BodyImages.StepSaved | scripts/notion-sync.mjs:293-303 | A successful attempt uses one index, appends the URL and a fresh name to the map, adds the name to the directory, and takes the cover only when none was set. |
| BodyImages.ScanExtendsMap | scripts/notion-sync.mjs:290-298 | The map only grows, its keys stay distinct, and each key added is an http(s) URL of some match. |
| BodyImages.ScanDirGrows | scripts/notion-sync.mjs:296 | The asset directory grows by exactly the names of the saved files. |
| BodyImages.ScanNamesFresh | scripts/notion-sync.mjs:296 | Each saved file's name was free before the scan, and no two saved files share a name. |
| BodyImages.ScanCover | scripts/notion-sync.mjs:299-303 | A cover set before the scan is kept with its alt text. Otherwise the cover is the first saved file. Its alt text is the one set before the scan when that is non-empty, else the alt text of the match whose download saved that file: the first match after which the map has grown. With nothing saved there is no cover and the alt text is unchanged. |
| BodyImages.ScanFailedUrlUnmapped | scripts/notion-sync.mjs:287-305 | Only successful downloads are recorded: a URL whose every download fails, and which was not mapped before, is still not a key of the map after the scan. With `RewriteImagesEffect`, its images keep their URL. |
| BodyImages.ScanAllFailed | scripts/notion-sync.mjs:290-297 | When every download fails, every http(s) match is attempted, repeated URLs included, and each attempt uses one index. |
| BodyImages.ScanSkipsNonHttp | scripts/notion-sync.mjs:290 | Matches without an http(s) URL change nothing. |
| BodyImages.ScanIndexCounts | scripts/notion-sync.mjs:293-295 | The index advances at least once per saved file and at most once per http(s) match. |
| BodyImages.ApplyAll | scripts/notion-sync.mjs:306-308 | The rewrite as written: `split(from).join(to)` for each map entry in insertion order. It has no contract of its own; `ApplyReplacements` computes it, `ApplyAllAbsent` and `NothingToRewrite` state where it changes nothing, and `SplitJoinRewritesFailedUrl` where it goes wrong. |
| BodyImages.ApplyReplacements | scripts/notion-sync.mjs:306-308 | The rewrite loop as written: each mapped URL is replaced throughout the text by split/join, in insertion order. |
| BodyImages.ApplyAllAbsent | scripts/notion-sync.mjs:306-308 | Text in which no mapped URL occurs is unchanged by the split/join rewrite. |
| BodyImages.Lookup | scripts/notion-sync.mjs:291-298 | `replacements.get(url)`: none exactly for an unmapped URL, otherwise the name stored for that URL. |
| BodyImages.RewriteImages | scripts/notion-sync.mjs:306-308 | The corrected rewrite keeps the number of segments, and rewrites each segment on its own. |
| BodyImages.RewriteImagesEffect | scripts/notion-sync.mjs:306-308 | The corrected rewrite. Prose and the text of a reference around its URL get the same literal replacement of every saved URL as the script applies. An image whose own URL is not mapped, failed downloads included, keeps its URL. A mapped image points at the file saved for exactly its URL. |
| BodyImages.NothingToRewrite | scripts/notion-sync.mjs:306-308 | With an empty map both rewrites leave the markdown unchanged. |
| BodyImages.PrefixPairScan | scripts/notion-sync.mjs:287-305 | The scan of the finding's input maps only the first URL. |
| BodyImages.SplitJoinRewritesFailedUrl | scripts/notion-sync.mjs:306-308 | On that input the split/join rewrite also changes the second URL, whose download failed. The per-reference rewrite keeps it, so the two differ. |
| FrontMatter.IsBlank | scripts/notion-sync.mjs:325-328 | The pruning test: `undefined`, an empty array, or a string whose `trim()` is empty. Used by `KeptKeys`; `KeptKeysMembers` and `BlankExistingDateIsDropped` state its effect. |
| FrontMatter.Truthy | scripts/notion-sync.mjs:313 | JavaScript truthiness of a front-matter value, as `\|\|` reads it. `OrElse` states its use. |
| FrontMatter.OrElse | scripts/notion-sync.mjs:313 | `existing \|\| otherwise`: the existing value when it is truthy, else the other one. |
| FrontMatter.KeptKeys | scripts/notion-sync.mjs:323-332 | Every kept key holds a non-blank value, and the result is no longer than the key list. Which keys are kept is stated by `KeptKeysMembers`, their order by `Prune`. |
| FrontMatter.KeptValues | scripts/notion-sync.mjs:323-332 | No remaining value is undefined, an empty array or a whitespace-only string. |
| FrontMatter.KeptKeysMembers | scripts/notion-sync.mjs:323-332 | A key survives exactly when it was present with a non-blank value. |
| FrontMatter.KeptKeysDistinct | scripts/notion-sync.mjs:323-332 | Pruning keeps the keys distinct. |
| FrontMatter.KeptKeysIdempotent | scripts/notion-sync.mjs:323-332 | Pruning a pruned object changes nothing. |
| FrontMatter.ValueOfKept | scripts/notion-sync.mjs:323-332 | After pruning, each key reads as before unless its value was blank, in which case it reads as undefined. |
| FrontMatter.RemoveKey | scripts/notion-sync.mjs:330 | The key is gone, and a key is kept exactly when it was there and is another key. |
| FrontMatter.FrontMatterObject.Delete | scripts/notion-sync.mjs:330 | `delete fmObj[k]`: the key leaves the key order and the map; nothing else changes. |
| FrontMatter.FrontMatterObject.Prune | scripts/notion-sync.mjs:323-332 | The in-place `forEach`/`delete` loop leaves the object consistent. The keys are the non-blank ones, in their original order, and the values those of the pruning specification. |
| FrontMatter.FrontMatterValues | scripts/notion-sync.mjs:311-321 | The object has exactly the eight fields of the script's layout. |
| FrontMatter.FieldOrderDistinct | scripts/notion-sync.mjs:311-321 | The eight field names are distinct. |
| FrontMatter.KeepsExistingDate | scripts/notion-sync.mjs:313 | A truthy, non-blank `date` of the existing post is the date written, whatever the page's own date. |
| FrontMatter.BlankExistingDateIsDropped | scripts/notion-sync.mjs:313-328 | Any existing date that is truthy but blank, such as a non-empty whitespace-only string, wins the `\|\|` and is then pruned, so no date is written. |
| FrontMatter.KeepsNotionId | scripts/notion-sync.mjs:318 | A non-blank page id always survives pruning as `notion_id`. |
| FrontMatter.OmitsEmptyEntries | scripts/notion-sync.mjs:315-317 | Without a cover, categories or tags, none of `image`, `categories`, `tags` is written. |
| Sync.SlugSource | scripts/notion-sync.mjs:69 | `title \|\| "post"`: never empty, and the title itself when it is non-empty. |
| Sync.DateRaw | scripts/notion-sync.mjs:234 | The date property's non-empty start when there is one, else the page's `created_time`. |
| Sync.FreshImgPath | scripts/notion-sync.mjs:265-266 | The new `img_path` starts and ends with `/`. |
| Sync.NewPostName | scripts/notion-sync.mjs:338-339 | A new post's name ends in `-<slug>.md`, so a later run finds it by slug. |
| Sync.PostText | scripts/notion-sync.mjs:335 | The text starts with `---\n`, ends with `\n`, and holds the YAML, the content and ten fixed characters. |
| Sync.Entries | scripts/notion-sync.mjs:161-170 | One entry per listed file, in listing order, with the `notion_id` read from that file's text. |
| Sync.NeedWrite | scripts/notion-sync.mjs:342-346 | The write decision: the target does not exist, or it holds another text. `Site.WritePost` and `SecondWriteIsNoChange` state its effect. |
| Sync.SecondWriteIsNoChange | scripts/notion-sync.mjs:342-348 | A write is needed exactly when it would change the directory, and writing the same text again changes nothing. |
| Sync.CoverName | scripts/notion-sync.mjs:271-279 | A cover is only saved when covers are downloaded and the page has a non-empty cover URL, and its name is free. |
| Sync.ImagePass | scripts/notion-sync.mjs:267-305 | The cover, then `Scan` from `imgIndex = 1` with an empty map. Every URL it maps is non-empty, so the split/join rewrite is defined. |
| Sync.FrontMatterFor | scripts/notion-sync.mjs:311-321 | `fmObj` before pruning, with the existing date and `img_path` taken over through `\|\|`. It has no contract of its own; `FrontMatterValues`, `KeepsExistingDate` and `BlankExistingDateIsDropped` state its properties. |
| Sync.PostFor | scripts/notion-sync.mjs:306-335 | The text written: the pruned front matter, dumped, then the body rewritten by `ApplyAll`, the split/join as written. It has no contract of its own; `PostText` states its shape. |
| Sync.PlanFor | scripts/notion-sync.mjs:232-339 | What one turn decides from the site as it was: title, slug, date, the existing post and its front matter, the asset directory, the image pass, the target and the text. It has no contract of its own; it specifies `Site.SyncPage`. |
| Sync.BuildPost | scripts/notion-sync.mjs:265-336 | The text and scan state are those of `PostFor` and `ImagePass`, so the body is rewritten by the split/join as written. The asset directory only grows. |
| Sync.Site.constructor | scripts/notion-sync.mjs:221-224 | The sync starts with `changed` at 0 and no checkbox cleared. |
| Sync.Site.LocatePost | scripts/notion-sync.mjs:257-263 | The existing post is the one the resolution rule picks. It is a `.md` file of the directory, and its front matter is read. With no post, the values are undefined. |
| Sync.Site.PreparePage | scripts/notion-sync.mjs:232-339 | Changes nothing. The target, text, asset directory and its new listing are those of `PlanFor` on the current site. The target is an existing file or `YYYY-MM-DD-<slug>.md`, and the text has the post's shape. |
| Sync.Site.WritePost | scripts/notion-sync.mjs:341-353 | Writes exactly when the target is absent or its content differs. The counter rises exactly on writes. Afterwards the target holds the new text and nothing else changes. |
| Sync.Site.ClearDeployFlag | scripts/notion-sync.mjs:355-366 | The clearing is requested for every page. The checkbox is false afterwards exactly when Notion accepted it, and a failure changes nothing else. |
| Sync.Site.Commit | scripts/notion-sync.mjs:338-366 | The new asset listing, then the write decision, then the checkbox, for every page, whether or not the file was written. A post written to a new name is placed last in the listing, and the listing is otherwise unchanged. |
| Sync.Site.SyncPage | scripts/notion-sync.mjs:226-366 | One page. The target, the text written and the new asset listing are exactly those of `PlanFor` on the site before the turn: the existing post or `YYYY-MM-DD-<slug>.md`, and the post text with the body rewritten by the split/join. The target, a `.md` file, holds that text afterwards, and a new target is placed last in the listing, which is otherwise unchanged. `changed` rises exactly when the text differed. The page's checkbox clearing is requested, and no asset is lost. |
| Sync.Site.RunStep | scripts/notion-sync.mjs:226-366 | A turn of the loop. Checkboxes cleared earlier stay cleared, and no post disappears. |
| Sync.Site.Run | scripts/notion-sync.mjs:224-367 | Every page's clearing is requested, in queue order. `changed` is at most the number of pages. Every page whose clearing Notion accepted ends unchecked. No existing post disappears. |

## Left out

- The Notion API is not modelled: `queryDeployQueue` and its paging, `pages.retrieve`, `pages.update` and `notion-to-md`. The queue is an input sequence of pages, and the success of a checkbox update is `Env.updateOk`.
- HTTP is not modelled: `fetch`, `encodeURI`, response status and bytes. A download is the oracle `Env.fetch`, the content type or `None`; the bytes written are not modelled.
- `new URL(u).pathname` is the oracle `Env.pathOf`; `None` stands for a URL it rejects.
- The file system is modelled as a `Site` object: the listing, a map from name to text, and a map from asset directory to its set of names. `mkdirSync`, encodings and I/O errors are not modelled. `path.join` is not modelled either: a post is named by its file name within the posts directory.
- `slugify`, `dayjs` with its time zone, and `js-yaml` are uninterpreted functions of `Env`.
- The front-matter reader `readFrontMatter` is an oracle (`Env.idOf`, `Env.frontMatterOf`); its regex and YAML parsing are not modelled.
- The regex `![alt](url "title")` is not modelled: the markdown arrives cut into `Segment`s at its matches.
- Reading environment variables, parsing `TITLE_KEYS`, logging and `process.exit` are not modelled; the configuration is a field of `Env`.
- `replaceMarkdownImageUrls` (lines 140-146) is never called by the script and is not modelled.
- `toLowerCase` is modelled on ASCII letters only; other letters are kept as they are.
- `readdirSync` order is an input: the listing is a sequence, and a newly written post is placed last.
- Front-matter values are reduced to what pruning and `||` inspect: a string, a list of strings, the cover object, and any other YAML value as opaque text with its truthiness.
- A download's outcome is a function of the page, the attempt number and the URL. The attempt number is 0 for the cover and `imgIndex` for a body image. Retrying a URL therefore can give a different outcome; time and network state are not modelled beyond that.
- `imgIndex` and `changed` are unbounded integers. JavaScript numbers lose precision beyond 2^53, a limit no page reaches.
- BodyImages.ApplyAll: requires every mapped URL to be non-empty (JavaScript's `split("")` is not modelled); every mapped URL is an http(s) URL, so this always holds.
- BodyImages.ScanAllFailed: stated for a scan that starts with an empty map, as the script's does.
- BodyImages.RewriteImagesEffect: the corrected rewrite decides an image reference on its whole URL. Prose, link targets and the text around an image's URL still get the script's literal replacement, so a longer URL outside an image reference that extends a saved one is still altered. Only the split/join inside image URLs is corrected.

## Findings

| source | as written | input that shows it | evidently intended | confidence | as-written member | corrected member |
|---|---|---|---|---|---|---|
| scripts/notion-sync.mjs:306-308 | Each mapped URL is replaced everywhere it occurs as plain text by `split(from).join(to)`, including inside other, longer URLs. | Markdown `![](u) ![](ux)` holds two http(s) image URLs, the second extending the first. The download of `u` succeeds as `name`, and the download of `ux` fails. The second image then points at `{{ page.img_path }}<name>x`, a file that was never saved. | An image reference points at a saved file only when its own URL was downloaded, and every image whose download failed keeps its URL. Other literal occurrences of a saved URL are still replaced. | not executed | BodyImages.SplitJoinRewritesFailedUrl | BodyImages.RewriteImagesEffect |

`Sync.PostFor`, `Sync.BuildPost` and `Sync.Site.SyncPage` model the script as written: the text they write has its body rewritten by `BodyImages.ApplyAll`, computed by `BodyImages.ApplyReplacements`. So the discrepancy carries through to the file written. The corrected rewrite `BodyImages.RewriteImages` stands beside it, with its property proved in `BodyImages.RewriteImagesEffect`. `BodyImages.PrefixPairScan` shows that the scan produces the map of the finding's input.
