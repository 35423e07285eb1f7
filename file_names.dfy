/**
 * Naming of downloaded image files: `sanitizeFileName`, `extFromContentType`,
 * `extFromUrl`, and the name picker and download outcome of `saveImageFromUrl`.
 */
module FileNames {
  import opened Wrappers
  import opened Text

  // ---------------------------------------------------------------------------
  // sanitizeFileName: name.replace(/[^\w.\-]+/g, "_")
  // ---------------------------------------------------------------------------

  /** The class `[\w.\-]`: ASCII letters, digits, `_`, `.` and `-`. */
  predicate IsNameChar(c: char)
  {
    'A' <= c <= 'Z' || 'a' <= c <= 'z' || '0' <= c <= '9' || c == '_' || c == '.' || c == '-'
  }

  predicate AllNameChars(s: string)
  {
    forall i :: 0 <= i < |s| ==> IsNameChar(s[i])
  }

  predicate NoNameChars(s: string)
  {
    forall i :: 0 <= i < |s| ==> !IsNameChar(s[i])
  }

  /** Length of the maximal run of characters outside the class at the start of `s`. */
  function UnsafeRun(s: string): (k: nat)
    ensures k <= |s|
    ensures NoNameChars(s[..k])
    ensures k < |s| ==> IsNameChar(s[k])
  {
    if s == [] || IsNameChar(s[0]) then 0 else 1 + UnsafeRun(s[1..])
  }

  /**
   * `sanitizeFileName(name)`: scanning from the left, a character of the class
   * is copied and a maximal run of other characters becomes one `_`.
   */
  function SanitizeFileName(name: string): (r: string)
    ensures AllNameChars(r)
    ensures |r| <= |name|
    decreases |name|
  {
    if name == [] then []
    else if IsNameChar(name[0]) then [name[0]] + SanitizeFileName(name[1..])
    else
      var k := UnsafeRun(name);
      assert k > 0;
      "_" + SanitizeFileName(name[k..])
  }

  /** A name made only of allowed characters is left as it is. */
  lemma {:induction false} SanitizeKeepsSafeName(s: string)
    requires AllNameChars(s)
    ensures SanitizeFileName(s) == s
    decreases |s|
  {
    if s != [] {
      SanitizeKeepsSafeName(s[1..]);
      assert [s[0]] + s[1..] == s;
    }
  }

  /** Sanitizing twice is the same as sanitizing once. */
  lemma SanitizeIdempotent(s: string)
    ensures SanitizeFileName(SanitizeFileName(s)) == SanitizeFileName(s)
  {
    SanitizeKeepsSafeName(SanitizeFileName(s));
  }

  /** A prefix of allowed characters is copied unchanged in front of the rest. */
  lemma {:induction false} SanitizeSafePrefix(p: string, t: string)
    requires AllNameChars(p)
    ensures SanitizeFileName(p + t) == p + SanitizeFileName(t)
    decreases |p|
  {
    if p == [] {
      assert p + t == t;
    } else {
      var s := p + t;
      assert s[0] == p[0] && IsNameChar(s[0]);
      assert s[1..] == p[1..] + t;
      assert SanitizeFileName(s) == [p[0]] + SanitizeFileName(p[1..] + t);
      SanitizeSafePrefix(p[1..], t);
      assert [p[0]] + (p[1..] + SanitizeFileName(t)) == p + SanitizeFileName(t);
    }
  }

  /**
   * A maximal run `q` of disallowed characters (followed by the end of the
   * string or by an allowed character) becomes exactly one `_`.
   */
  lemma SanitizeCollapsesRun(q: string, t: string)
    requires q != [] && NoNameChars(q)
    requires t == [] || IsNameChar(t[0])
    ensures SanitizeFileName(q + t) == "_" + SanitizeFileName(t)
  {
    var s := q + t;
    UnsafeRunOfRun(q, t);
    assert s[0] == q[0];
    assert s[|q|..] == t;
  }

  lemma {:induction false} UnsafeRunOfRun(q: string, t: string)
    requires NoNameChars(q)
    requires t == [] || IsNameChar(t[0])
    ensures UnsafeRun(q + t) == |q|
    decreases |q|
  {
    var s := q + t;
    if q == [] {
      assert s == t;
    } else {
      assert s[0] == q[0];
      assert s[1..] == q[1..] + t;
      UnsafeRunOfRun(q[1..], t);
    }
  }

  /** Both rules together: kept prefix, one `_` for the run, then the rest. */
  lemma SanitizeRun(p: string, q: string, t: string)
    requires AllNameChars(p)
    requires q != [] && NoNameChars(q)
    requires t == [] || IsNameChar(t[0])
    ensures SanitizeFileName(p + q + t) == p + "_" + SanitizeFileName(t)
  {
    assert p + q + t == p + (q + t);
    SanitizeSafePrefix(p, q + t);
    SanitizeCollapsesRun(q, t);
  }

  // ---------------------------------------------------------------------------
  // extFromContentType
  // ---------------------------------------------------------------------------

  /** `ct.split(";")[0].trim().toLowerCase()`. */
  function MimeOf(ct: string): string
  {
    Lower(Trim(BeforeFirst(ct, ';')))
  }

  predicate NoUpperAscii(s: string)
  {
    forall i :: 0 <= i < |s| ==> !IsUpperAscii(s[i])
  }

  lemma MimeFacts(ct: string)
    ensures NoUpperAscii(MimeOf(ct)) && ';' !in MimeOf(ct)
  {
    var t := Trim(BeforeFirst(ct, ';'));
    var m := Lower(t);
    assert forall i :: 0 <= i < |m| ==> m[i] == LowerChar(t[i]) && t[i] != ';';
  }

  lemma SubtypeFacts(mime: string)
    requires NoUpperAscii(mime) && ';' !in mime && StartsWith(mime, "image/")
    ensures var ext := BeforeFirst(mime[6..], '/'); NoUpperAscii(ext) && ';' !in ext
  {
    var ext := BeforeFirst(mime[6..], '/');
    assert forall i :: 0 <= i < |ext| ==> ext[i] == mime[6 + i];
  }

  lemma JpgIsLowercase()
    ensures NoUpperAscii("jpg")
  {
  }

  /**
   * `extFromContentType(ct)`: no extension for an empty content type or a
   * media type other than `image/…`; otherwise the subtype up to the next `/`,
   * with `jpeg` spelled `jpg`. The subtype may be empty (`Some("")`).
   */
  function ExtFromContentType(ct: string): (r: Option<string>)
    ensures r.Some? <==> ct != "" && StartsWith(MimeOf(ct), "image/")
    ensures r.Some? ==> r.value != "jpeg" && '/' !in r.value && ';' !in r.value && NoUpperAscii(r.value)
  {
    if ct == "" then None
    else
      var mime := MimeOf(ct);
      if !StartsWith(mime, "image/") then None
      else
        var ext := BeforeFirst(mime[6..], '/');
        MimeFacts(ct);
        SubtypeFacts(mime);
        JpgIsLowercase();
        Some(if ext == "jpeg" then "jpg" else ext)
  }

  /** A lowercase ASCII-free-of-separators subtype, as content types carry it. */
  predicate IsPlainSubtype(sub: string)
  {
    && '/' !in sub && ';' !in sub
    && NoUpperAscii(sub)
    && (sub != [] ==> !IsJsSpace(sub[|sub| - 1]))
  }

  lemma LowerOfLowercase(s: string)
    requires NoUpperAscii(s)
    ensures Lower(s) == s
  {
  }

  /**
   * `image/<sub>`, with or without `;` parameters, yields `<sub>`, and
   * `image/jpeg` yields `jpg`.
   */
  lemma ExtOfImageType(sub: string, params: Option<string>)
    requires IsPlainSubtype(sub)
    ensures var ct := "image/" + sub + (if params.Some? then ";" + params.value else "");
            ExtFromContentType(ct) == Some(if sub == "jpeg" then "jpg" else sub)
  {
    var mime := "image/" + sub;
    var rest := if params.Some? then ";" + params.value else "";
    var ct := mime + rest;
    MimeOfImage(sub, rest);
    assert MimeOf(ct) == mime;
    assert ct != "";
    assert mime[..6] == "image/";
    assert StartsWith(MimeOf(ct), "image/");
    assert mime[6..] == sub;
    BeforeFirstOfPrefix(sub, "", '/');
    assert sub + "" == sub;
    assert BeforeFirst(MimeOf(ct)[6..], '/') == sub;
  }

  lemma MimeOfImage(sub: string, rest: string)
    requires IsPlainSubtype(sub)
    requires rest == [] || rest[0] == ';'
    ensures MimeOf("image/" + sub + rest) == "image/" + sub
  {
    var mime := "image/" + sub;
    ImageTypeHasNoSemicolon(sub);
    BeforeFirstOfPrefix(mime, rest, ';');
    assert BeforeFirst(mime + rest, ';') == mime;
    ImageTypeIsTrimmed(sub);
    assert Trim(BeforeFirst(mime + rest, ';')) == mime;
    ImageTypeIsLowercase(sub);
    LowerOfLowercase(mime);
  }

  lemma ImageTypeHasNoSemicolon(sub: string)
    requires IsPlainSubtype(sub)
    ensures ';' !in "image/" + sub
  {
  }

  lemma ImageTypeIsTrimmed(sub: string)
    requires IsPlainSubtype(sub)
    ensures Trim("image/" + sub) == "image/" + sub
  {
    var mime := "image/" + sub;
    assert mime[0] == 'i' && !IsJsSpace('i');
    if sub == [] {
      assert mime[|mime| - 1] == '/' && !IsJsSpace('/');
    } else {
      assert mime[|mime| - 1] == sub[|sub| - 1];
    }
  }

  lemma ImageTypeIsLowercase(sub: string)
    requires IsPlainSubtype(sub)
    ensures NoUpperAscii("image/" + sub)
  {
  }

  /** `split(c)[0]` of a string whose first `c` starts `b` is the part before `b`. */
  lemma {:induction false} BeforeFirstOfPrefix(a: string, b: string, c: char)
    requires c !in a
    requires b == [] || b[0] == c
    ensures BeforeFirst(a + b, c) == a
    decreases |a|
  {
    var s := a + b;
    if a == [] {
      assert s == b;
    } else {
      assert s[0] == a[0];
      assert s[1..] == a[1..] + b;
      BeforeFirstOfPrefix(a[1..], b, c);
      assert [a[0]] + a[1..] == a;
    }
  }

  /** A media type whose top-level type is not `image` yields no extension. */
  lemma NoExtForOtherTypes(ct: string)
    requires ct != ""
    requires !StartsWith(MimeOf(ct), "image/")
    ensures ExtFromContentType(ct) == None
  {
  }

  // ---------------------------------------------------------------------------
  // extFromUrl, on the pathname of the parsed URL
  // ---------------------------------------------------------------------------

  predicate IsExtChar(c: char)
  {
    'a' <= c <= 'z' || '0' <= c <= '9'
  }

  /** `/^[a-z0-9]{2,5}$/`. */
  predicate IsUrlExt(e: string)
  {
    2 <= |e| <= 5 && forall i :: 0 <= i < |e| ==> IsExtChar(e[i])
  }

  /**
   * `extFromUrl` once `new URL(u).pathname` is known: the lowercased text
   * after the last `.` of the last path segment, when it is 2 to 5 lowercase
   * letters or digits.
   */
  function ExtFromPath(pathname: string): (r: Option<string>)
    ensures r.Some? ==> IsUrlExt(r.value)
  {
    var base := AfterLast(pathname, '/');
    var dot := LastIndexOf(base, '.');
    if dot > -1 && dot < |base| - 1 then
      var ext := Lower(base[dot + 1..]);
      if IsUrlExt(ext) then Some(ext) else None
    else None
  }

  /** `e` is the lowercased tail of `p` that follows a `.`. */
  predicate IsDotTail(p: string, e: string)
  {
    |e| < |p| && p[|p| - |e| - 1] == '.' && Lower(p[|p| - |e|..]) == e
  }

  /** An extension found in a path is always the lowercased text right after a dot at its end. */
  lemma ExtFromPathIsDotTail(p: string)
    ensures ExtFromPath(p).Some? ==> IsDotTail(p, ExtFromPath(p).value)
  {
    var base := AfterLast(p, '/');
    var dot := LastIndexOf(base, '.');
    if dot > -1 && dot < |base| - 1 && IsUrlExt(Lower(base[dot + 1..])) {
      DotTail(p, base, dot);
    }
  }

  lemma DotTail(p: string, base: string, dot: int)
    requires |base| <= |p| && base == p[|p| - |base|..]
    requires 0 <= dot < |base| - 1 && base[dot] == '.'
    ensures IsDotTail(p, Lower(base[dot + 1..]))
  {
    var k := |p| - |base| + dot + 1;
    TailOfTail(p, base, dot + 1);
    var e := Lower(base[dot + 1..]);
    assert |e| == |p| - k;
    assert p[k..] == base[dot + 1..];
    assert p[k - 1] == '.';
  }

  lemma TailOfTail(s: string, t: string, j: nat)
    requires |t| <= |s| && t == s[|s| - |t|..] && j <= |t|
    ensures t[j..] == s[|s| - |t| + j..] && (j > 0 ==> t[j - 1] == s[|s| - |t| + j - 1])
  {
  }

  /** `extFromUrl(u)`, where `None` stands for a URL that `new URL` rejects. */
  function ExtFromUrl(pathname: Option<string>): (r: Option<string>)
    ensures r.Some? ==> pathname.Some? && IsUrlExt(r.value)
  {
    match pathname
    case None => None
    case Some(p) => ExtFromPath(p)
  }

  lemma {:induction false} AfterLastKeepsTail(s: string, t: string, c: char)
    requires c !in t
    ensures |t| <= |AfterLast(s + t, c)|
    decreases |t|
  {
    if t != [] {
      var u := s + t;
      assert u[..|u| - 1] == s + t[..|t| - 1];
      assert u[|u| - 1] == t[|t| - 1];
      AfterLastKeepsTail(s, t[..|t| - 1], c);
    }
  }

  lemma LastIndexOfAt(s: string, c: char, i: nat)
    requires i < |s| && s[i] == c && c !in s[i + 1..]
    ensures LastIndexOf(s, c) == i
  {
    assert c in s;
  }

  lemma SuffixOfSuffix(s: string, t: string, u: string)
    requires |t| <= |s| && t == s[|s| - |t|..]
    requires |u| <= |t| && EndsWith(s, u)
    ensures t[|t| - |u|..] == u
  {
    assert t[|t| - |u|..] == s[|s| - |u|..];
  }

  lemma UrlExtChars(e: string)
    requires IsUrlExt(Lower(e))
    ensures '/' !in e && '.' !in e && 2 <= |e|
  {
    forall i | 0 <= i < |e|
      ensures e[i] != '/' && e[i] != '.'
    {
      assert Lower(e)[i] == LowerChar(e[i]);
      ExtCharFrom(e[i]);
    }
  }

  lemma ExtCharFrom(c: char)
    requires IsExtChar(LowerChar(c))
    ensures c != '/' && c != '.'
  {
  }

  /** Any path ending in `.<e>`, with `e` made of 2 to 5 letters or digits, yields `e` lowercased. */
  lemma ExtFromPathOfName(x: string, e: string)
    requires IsUrlExt(Lower(e))
    ensures ExtFromPath(x + "." + e) == Some(Lower(e))
  {
    var p := x + "." + e;
    var t := "." + e;
    assert p == x + t;
    UrlExtChars(e);
    assert '/' !in t;
    AfterLastKeepsTail(x, t, '/');
    var base := AfterLast(p, '/');
    assert EndsWith(p, t);
    SuffixOfSuffix(p, base, t);
    var i := |base| - |e| - 1;
    assert base[i..] == t;
    assert base[i] == '.';
    assert base[i + 1..] == e;
    LastIndexOfAt(base, '.', i);
  }

  /** A last path segment without a dot yields no extension. */
  lemma NoExtWithoutDot(pathname: string)
    requires '.' !in AfterLast(pathname, '/')
    ensures ExtFromPath(pathname) == None
  {
  }

  // ---------------------------------------------------------------------------
  // saveImageFromUrl: extension, base name and the collision-free name
  // ---------------------------------------------------------------------------

  /** `ext = extFromUrl(url); if (!ext) ext = extFromContentType(ct) || "png"`. */
  function ImageExt(urlExt: Option<string>, ct: string): (r: string)
    ensures r != ""
    ensures urlExt.Some? && urlExt.value != "" ==> r == urlExt.value
    ensures ((urlExt.None? || urlExt.value == "") && ExtFromContentType(ct).Some?
             && ExtFromContentType(ct).value != "") ==> r == ExtFromContentType(ct).value
    ensures r != "png" ==> (urlExt.Some? && r == urlExt.value) || ExtFromContentType(ct) == Some(r)
  {
    if urlExt.Some? && urlExt.value != "" then urlExt.value
    else
      match ExtFromContentType(ct)
      case Some(e) => if e != "" then e else "png"
      case None => "png"
  }

  /** `sanitizeFileName(baseNameHint || "img")`. */
  function BaseName(hint: string): (r: string)
    ensures r != [] && AllNameChars(r)
  {
    var h := if hint == "" then "img" else hint;
    assert h != [];
    if IsNameChar(h[0]) then assert SanitizeFileName(h)[0] == h[0]; SanitizeFileName(h)
    else assert SanitizeFileName(h)[0] == '_'; SanitizeFileName(h)
  }

  /** The name tried in round `i`: `base.ext`, then `base-01.ext`, `base-02.ext`, … */
  function Candidate(base: string, ext: string, i: nat): string
  {
    if i == 0 then base + "." + ext else base + "-" + Pad2(i) + "." + ext
  }

  /** Different rounds try different names. */
  lemma CandidateInjective(base: string, ext: string, i: nat, j: nat)
    requires i != j
    ensures Candidate(base, ext, i) != Candidate(base, ext, j)
  {
    if i != 0 && j != 0 && Candidate(base, ext, i) == Candidate(base, ext, j) {
      var a, b := Candidate(base, ext, i), Candidate(base, ext, j);
      assert |Pad2(i)| == |Pad2(j)|;
      var lo, hi := |base| + 1, |base| + 1 + |Pad2(i)|;
      assert a[lo..hi] == Pad2(i);
      assert b[lo..hi] == Pad2(j);
      Pad2Injective(i, j);
    }
  }

  /** The names tried in rounds 0 .. n-1. */
  function Tried(base: string, ext: string, n: nat): set<string>
  {
    if n == 0 then {} else Tried(base, ext, n - 1) + {Candidate(base, ext, n - 1)}
  }

  lemma {:induction false} TriedSize(base: string, ext: string, n: nat)
    ensures |Tried(base, ext, n)| == n
    ensures forall m :: m >= n ==> Candidate(base, ext, m) !in Tried(base, ext, n)
  {
    if n > 0 {
      TriedSize(base, ext, n - 1);
      forall m | m >= n
        ensures Candidate(base, ext, m) !in Tried(base, ext, n)
      {
        CandidateInjective(base, ext, m, n - 1);
      }
    }
  }

  lemma {:induction false} TriedAreCandidates(base: string, ext: string, n: nat, existing: set<string>)
    requires forall j :: 0 <= j < n ==> Candidate(base, ext, j) in existing
    ensures Tried(base, ext, n) <= existing
  {
    if n > 0 {
      TriedAreCandidates(base, ext, n - 1, existing);
    }
  }

  /** If rounds 0 .. n-1 all collided, the directory holds at least n names. */
  lemma CollisionsBounded(base: string, ext: string, existing: set<string>, n: nat)
    requires forall j :: 0 <= j < n ==> Candidate(base, ext, j) in existing
    ensures n <= |existing|
  {
    TriedSize(base, ext, n);
    TriedAreCandidates(base, ext, n, existing);
    SubsetCardinality(Tried(base, ext, n), existing);
  }

  lemma SubsetCardinality<T>(a: set<T>, b: set<T>)
    requires a <= b
    ensures |a| <= |b|
  {
    if a != {} {
      var x :| x in a;
      SubsetCardinality(a - {x}, b - {x});
    }
  }

  /** The first round, from `k` on, whose name is free; rounds before `k` are known to collide. */
  function FirstFreeFrom(base: string, ext: string, existing: set<string>, k: nat): (r: nat)
    requires forall j :: 0 <= j < k ==> Candidate(base, ext, j) in existing
    ensures k <= r
    ensures Candidate(base, ext, r) !in existing
    ensures forall j :: 0 <= j < r ==> Candidate(base, ext, j) in existing
    decreases |existing| - k
  {
    if Candidate(base, ext, k) !in existing then k
    else
      CollisionsBounded(base, ext, existing, k + 1);
      FirstFreeFrom(base, ext, existing, k + 1)
  }

  /** The round at which the picker stops: the smallest one whose name is free. */
  function FirstFree(base: string, ext: string, existing: set<string>): (r: nat)
    ensures Candidate(base, ext, r) !in existing
    ensures forall j :: 0 <= j < r ==> Candidate(base, ext, j) in existing
    ensures r <= |existing|
  {
    var r := FirstFreeFrom(base, ext, existing, 0);
    CollisionsBounded(base, ext, existing, r);
    r
  }

  /**
   * What `saveImageFromUrl` produces: nothing when the download failed,
   * otherwise the first free name for the hint's base and the chosen
   * extension.
   */
  function SavedName(pathname: Option<string>, existing: set<string>, hint: string,
                     download: Option<string>): (r: Option<string>)
    ensures r.Some? <==> download.Some?
    ensures r.Some? ==> r.value !in existing
  {
    match download
    case None => None
    case Some(ct) =>
      var base := BaseName(hint);
      var ext := ImageExt(ExtFromUrl(pathname), ct);
      Some(Candidate(base, ext, FirstFree(base, ext, existing)))
  }

  /**
   * `saveImageFromUrl(url, destDir, hint)` after the download: `download` is
   * the response's content type (`""` when the header is absent), or `None`
   * when the fetch failed; `existing` is the destination directory's listing.
   * Returns the name to write, which is free in that directory.
   */
  method SaveImage(pathname: Option<string>, existing: set<string>, hint: string,
                   download: Option<string>) returns (saved: Option<string>)
    ensures saved == SavedName(pathname, existing, hint, download)
    ensures saved.None? <==> download.None?
    ensures saved.Some? ==> saved.value !in existing
  {
    var ext := ExtFromUrl(pathname);
    if download.None? {
      return None;
    }
    var e := ImageExt(ext, download.value);
    var base := BaseName(hint);
    var name := PickName(base, e, existing);
    saved := Some(name);
  }

  /**
   * The `while (fs.existsSync(...))` loop: tries `base.ext`, then
   * `base-01.ext`, `base-02.ext`, … and stops at the first free name.
   */
  method PickName(base: string, ext: string, existing: set<string>) returns (name: string)
    ensures name == Candidate(base, ext, FirstFree(base, ext, existing))
    ensures name !in existing
  {
    name := base + "." + ext;
    var i := 1;
    while name in existing
      invariant 1 <= i
      invariant name == Candidate(base, ext, i - 1)
      invariant forall j :: 0 <= j < i - 1 ==> Candidate(base, ext, j) in existing
      invariant FirstFreeFrom(base, ext, existing, i - 1) == FirstFree(base, ext, existing)
      decreases |existing| - (i - 1)
    {
      CollisionsBounded(base, ext, existing, i);
      name := base + "-" + Pad2(i) + "." + ext;
      i := i + 1;
    }
  }

  /** The chosen name is `base.ext` exactly when that name is free. */
  lemma SavedNamePlainWhenFree(pathname: Option<string>, existing: set<string>, hint: string, ct: string)
    ensures var base := BaseName(hint);
            var ext := ImageExt(ExtFromUrl(pathname), ct);
            (SavedName(pathname, existing, hint, Some(ct)) == Some(base + "." + ext))
            <==> (base + "." + ext !in existing)
  {
    var base := BaseName(hint);
    var ext := ImageExt(ExtFromUrl(pathname), ct);
    var r := FirstFree(base, ext, existing);
    if r != 0 {
      CandidateInjective(base, ext, 0, r);
      assert Candidate(base, ext, 0) in existing;
    }
  }
}
