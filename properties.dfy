/**
 * Reading a Notion page's properties: `plain`, `getTitle`,
 * `getSelectOrMultiNames`, `uniq`, and the category and tag lists the sync
 * builds from them.
 */
module Properties {
  import opened Wrappers
  import opened Text

  /** One rich-text run; only its `plain_text` is read. */
  datatype RichText = RichText(plainText: string)

  /**
   * A page property, reduced to the parts the script reads. An absent or
   * empty `title` array is `[]`, an absent or empty `multi_select` is `[]`,
   * and `select` is the select option's name (`None` when there is no
   * option or it has no name). `dateStart` is `date.start`.
   */
  datatype Property = Property(title: seq<RichText>, multiSelect: seq<string>,
                               select: Option<string>, dateStart: Option<string>)

  /** `page.properties`, keyed by property name. */
  type Props = map<string, Property>

  // ---------------------------------------------------------------------------
  // plain
  // ---------------------------------------------------------------------------

  /** The `plain_text` of every run, in order, joined with `""`. */
  function Concat(rich: seq<RichText>): (r: string)
    ensures forall i :: 0 <= i < |rich| ==> |rich[i].plainText| <= |r|
  {
    if rich == [] then "" else rich[0].plainText + Concat(rich[1..])
  }

  lemma {:induction false} ConcatAppend(a: seq<RichText>, b: seq<RichText>)
    ensures Concat(a + b) == Concat(a) + Concat(b)
  {
    if a == [] {
      assert a + b == b;
    } else {
      assert (a + b)[1..] == a[1..] + b;
      ConcatAppend(a[1..], b);
    }
  }

  /**
   * `plain(richArr)`: the joined text with the whitespace at both ends cut;
   * empty exactly when the text is all whitespace.
   */
  function Plain(rich: seq<RichText>): (r: string)
    ensures NoSpaceAtEnds(r)
    ensures r == [] <==> AllSpace(Concat(rich))
    ensures IsCutOf(Concat(rich), r)
  {
    Trim(Concat(rich))
  }

  /** A title made of one run is that run's text, trimmed. */
  lemma PlainOfOneRun(t: string)
    ensures Plain([RichText(t)]) == Trim(t)
  {
    assert [RichText(t)][1..] == [];
    assert Concat([RichText(t)]) == t + "";
    assert t + "" == t;
  }

  // ---------------------------------------------------------------------------
  // getTitle
  // ---------------------------------------------------------------------------

  /** `props[k]?.title?.length` is truthy. */
  predicate HasTitle(props: Props, k: string)
  {
    k in props && props[k].title != []
  }

  /**
   * The loop over the title keys with its early return: the position of the
   * first key that has a non-empty title, or `|keys|` when no key has one.
   */
  function FirstTitled(props: Props, keys: seq<string>): (k: nat)
    ensures k <= |keys|
    ensures forall j :: 0 <= j < k ==> !HasTitle(props, keys[j])
    ensures k < |keys| ==> HasTitle(props, keys[k])
  {
    if keys == [] || HasTitle(props, keys[0]) then 0 else 1 + FirstTitled(props, keys[1..])
  }

  /** The plain text of the first titled key, or `None` when no key has a title. */
  function TitleSearch(props: Props, keys: seq<string>): (r: Option<string>)
    ensures r.None? <==> forall i :: 0 <= i < |keys| ==> !HasTitle(props, keys[i])
    ensures r.Some? ==> var k := FirstTitled(props, keys);
                        k < |keys| && HasTitle(props, keys[k]) && r.value == Plain(props[keys[k]].title)
  {
    var k := FirstTitled(props, keys);
    if k < |keys| then Some(Plain(props[keys[k]].title)) else None
  }

  /** `getTitle(props)`: the configured keys, then `Name`, then `Title`, else `"Untitled"`. */
  function GetTitle(props: Props, titleKeys: seq<string>): (r: string)
  {
    match TitleSearch(props, titleKeys)
    case Some(t) => t
    case None =>
      if HasTitle(props, "Name") then Plain(props["Name"].title)
      else if HasTitle(props, "Title") then Plain(props["Title"].title)
      else "Untitled"
  }

  lemma {:induction false} FirstTitledAppend(props: Props, a: seq<string>, b: seq<string>)
    ensures FirstTitled(props, a + b) == if FirstTitled(props, a) < |a| then FirstTitled(props, a)
                                         else |a| + FirstTitled(props, b)
  {
    if a == [] {
      assert a + b == b;
    } else {
      assert (a + b)[0] == a[0];
      assert (a + b)[1..] == a[1..] + b;
      FirstTitledAppend(props, a[1..], b);
    }
  }

  lemma TitleSearchAppend(props: Props, a: seq<string>, b: seq<string>)
    ensures TitleSearch(props, a + b) == if TitleSearch(props, a).Some? then TitleSearch(props, a) else TitleSearch(props, b)
  {
    FirstTitledAppend(props, a, b);
    var k := FirstTitled(props, a + b);
    if k < |a| {
      assert (a + b)[k] == a[k];
    } else if k < |a + b| {
      assert (a + b)[k] == b[k - |a|];
    }
  }

  /**
   * The title is the first titled key of the configured keys followed by
   * `Name` and `Title`, and `"Untitled"` when none of them has a title.
   */
  lemma GetTitleIsFirstTitled(props: Props, titleKeys: seq<string>)
    ensures GetTitle(props, titleKeys) == match TitleSearch(props, titleKeys + ["Name", "Title"])
                                         case Some(t) => t
                                         case None => "Untitled"
  {
    TitleSearchAppend(props, titleKeys, ["Name", "Title"]);
    TitleSearchFallbacks(props);
  }

  lemma TitleSearchFallbacks(props: Props)
    ensures TitleSearch(props, ["Name", "Title"])
            == if HasTitle(props, "Name") then Some(Plain(props["Name"].title))
               else if HasTitle(props, "Title") then Some(Plain(props["Title"].title))
               else None
  {
    var keys := ["Name", "Title"];
    assert keys[1..] == ["Title"];
    assert ["Title"][1..] == [];
    var k := FirstTitled(props, keys);
    if HasTitle(props, "Name") {
      assert k == 0;
    } else if HasTitle(props, "Title") {
      assert FirstTitled(props, ["Title"]) == 0;
      assert k == 1;
    } else {
      assert k == 2;
    }
  }

  /**
   * A page with no title under any of the keys is called `"Untitled"`. The
   * converse does not hold: a title whose text is `Untitled` gives the
   * same name.
   */
  lemma GetTitleUntitled(props: Props, titleKeys: seq<string>)
    requires forall i :: 0 <= i < |titleKeys| ==> !HasTitle(props, titleKeys[i])
    requires !HasTitle(props, "Name") && !HasTitle(props, "Title")
    ensures GetTitle(props, titleKeys) == "Untitled"
  {
  }

  /**
   * The title is empty exactly when the key it is taken from holds text
   * that is only whitespace: such a title is taken, not skipped for
   * `"Untitled"`.
   */
  lemma BlankTitleIsEmpty(props: Props, titleKeys: seq<string>)
    ensures var keys := titleKeys + ["Name", "Title"];
            var k := FirstTitled(props, keys);
            GetTitle(props, titleKeys) == "" <==> k < |keys| && AllSpace(Concat(props[keys[k]].title))
  {
    GetTitleIsFirstTitled(props, titleKeys);
  }

  // ---------------------------------------------------------------------------
  // getSelectOrMultiNames
  // ---------------------------------------------------------------------------

  /**
   * `getSelectOrMultiNames(props, name)`: the multi-select names when there
   * are any, else the select name when it is non-empty, else nothing.
   */
  function SelectOrMultiNames(props: Props, name: string): (r: seq<string>)
    ensures r != [] ==> name in props
    ensures name in props && props[name].multiSelect != [] ==> r == props[name].multiSelect
    ensures name in props && props[name].multiSelect == [] ==>
              (r == [] <==> props[name].select.None? || props[name].select.value == "")
    ensures name in props && props[name].multiSelect == [] ==>
              (forall i :: 0 <= i < |r| ==> r[i] == props[name].select.value) && |r| <= 1
  {
    if name !in props then []
    else
      var p := props[name];
      if p.multiSelect != [] then p.multiSelect
      else match p.select
        case Some(s) => if s != "" then [s] else []
        case None => []
  }

  // ---------------------------------------------------------------------------
  // uniq: [...new Set(arr.filter(Boolean))]
  // ---------------------------------------------------------------------------

  predicate NoDuplicates(xs: seq<string>)
  {
    forall i, j :: 0 <= i < j < |xs| ==> xs[i] != xs[j]
  }

  /**
   * `uniq(arr)`: the non-empty entries, each once, where a later duplicate is
   * dropped (a `Set` keeps first-insertion order). `""` stands for every
   * falsy entry, including a missing `arr[0]`.
   */
  function Uniq(xs: seq<string>): (r: seq<string>)
    ensures NoDuplicates(r)
    ensures forall x :: x in r <==> x in xs && x != ""
    ensures |r| <= |xs|
  {
    if xs == [] then []
    else
      var r := Uniq(xs[..|xs| - 1]);
      var x := xs[|xs| - 1];
      assert xs == xs[..|xs| - 1] + [x];
      if x == "" || x in r then r else r + [x]
  }

  /** The position of the first occurrence of `x` in `xs`. */
  function IndexOf(xs: seq<string>, x: string): (k: nat)
    requires x in xs
    ensures k < |xs| && xs[k] == x
    ensures forall j :: 0 <= j < k ==> xs[j] != x
  {
    if xs[0] == x then 0 else 1 + IndexOf(xs[1..], x)
  }

  lemma {:induction false} IndexOfPrefix(xs: seq<string>, y: string, x: string)
    requires x in xs
    ensures x in xs + [y] && IndexOf(xs + [y], x) == IndexOf(xs, x)
  {
    var k := IndexOf(xs, x);
    var ys := xs + [y];
    assert ys[k] == x;
    var m := IndexOf(ys, x);
    assert forall j :: 0 <= j < |xs| ==> ys[j] == xs[j];
  }

  /** Entries appear in the order of their first occurrence in the input. */
  lemma {:induction false} UniqKeepsFirstOccurrenceOrder(xs: seq<string>, i: nat, j: nat)
    requires i < j < |Uniq(xs)|
    ensures IndexOf(xs, Uniq(xs)[i]) < IndexOf(xs, Uniq(xs)[j])
    decreases |xs|
  {
    var init := xs[..|xs| - 1];
    var x := xs[|xs| - 1];
    var r := Uniq(init);
    assert xs == init + [x];
    var a, b := Uniq(xs)[i], Uniq(xs)[j];
    assert a in init && a != "";
    IndexOfPrefix(init, x, a);
    if j < |r| {
      UniqKeepsFirstOccurrenceOrder(init, i, j);
      IndexOfPrefix(init, x, b);
    } else {
      assert b == x && x !in r && x !in init;
      assert IndexOf(xs, b) == |init|;
    }
  }

  /** A list that is already free of duplicates and empty entries is kept as it is. */
  lemma {:induction false} UniqOfDistinct(xs: seq<string>)
    requires NoDuplicates(xs) && "" !in xs
    ensures Uniq(xs) == xs
  {
    if xs != [] {
      var init := xs[..|xs| - 1];
      assert xs == init + [xs[|xs| - 1]];
      UniqOfDistinct(init);
    }
  }

  // ---------------------------------------------------------------------------
  // Categories and tags
  // ---------------------------------------------------------------------------

  /** `arr[0]`, with `""` for the `undefined` of an empty array. */
  function Head(xs: seq<string>): string
  {
    if xs == [] then "" else xs[0]
  }

  function Take(xs: seq<string>, n: nat): (r: seq<string>)
    ensures r == xs[..if n <= |xs| then n else |xs|]
  {
    if n <= |xs| then xs[..n] else xs
  }

  /**
   * `uniq([catsPrimary[0], catsSecondary[0]]).slice(0, 2)`: the first primary
   * name, then the first secondary name, each only when present and the
   * second only when it differs from the first.
   */
  function Categories(props: Props, primaryProp: string, secondaryProp: string): (r: seq<string>)
    ensures var a, b := Head(SelectOrMultiNames(props, primaryProp)), Head(SelectOrMultiNames(props, secondaryProp));
            r == if a == "" then (if b == "" then [] else [b])
                 else if b == "" || b == a then [a]
                 else [a, b]
  {
    var a, b := Head(SelectOrMultiNames(props, primaryProp)), Head(SelectOrMultiNames(props, secondaryProp));
    assert [a, b][..1] == [a];
    assert [a][..0] == [];
    var u0 := Uniq([a]);
    assert u0 == if a == "" then [] else [a];
    var u := Uniq([a, b]);
    assert u == if b == "" || b in u0 then u0 else u0 + [b];
    Take(u, 2)
  }

  /** At most two categories, never repeated, never empty. */
  lemma CategoriesBounded(props: Props, primaryProp: string, secondaryProp: string)
    ensures var r := Categories(props, primaryProp, secondaryProp);
            |r| <= 2 && NoDuplicates(r) && "" !in r
  {
  }

  /**
   * The tag list: the names of the tag property, then of `Tags`, then of
   * `Tag`, without empty entries and without repeats.
   */
  function Tags(props: Props, tagProp: string): (r: seq<string>)
    ensures NoDuplicates(r) && "" !in r
    ensures forall x :: x in r <==> x != "" && (x in SelectOrMultiNames(props, tagProp)
                                              || x in SelectOrMultiNames(props, "Tags")
                                              || x in SelectOrMultiNames(props, "Tag"))
  {
    Uniq(SelectOrMultiNames(props, tagProp) + SelectOrMultiNames(props, "Tags")
         + SelectOrMultiNames(props, "Tag"))
  }
}
