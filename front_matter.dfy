/**
 * The front matter `run` writes: the object of lines 311-321, the removal of
 * its empty keys (lines 323-332), and the two values it may take over from
 * an existing post (`date` and `img_path`).
 */
module FrontMatter {
  import opened Wrappers
  import opened Text

  /**
   * A value of the front-matter object. `Other` is a value of another type
   * that YAML gave back when an existing post was read (a timestamp, a
   * number, a boolean), with its JavaScript truthiness.
   */
  datatype FmValue =
    | Undefined
    | Str(s: string)
    | List(items: seq<string>)
    | Cover(path: string, alt: string)
    | Other(repr: string, truthy: bool)

  /** The pruning test: `undefined`, an empty array, or a string that trims to `""`. */
  predicate IsBlank(v: FmValue)
  {
    v.Undefined? || (v.List? && v.items == []) || (v.Str? && Trim(v.s) == "")
  }

  /** Truthiness of a value, for `a || b`. */
  predicate Truthy(v: FmValue)
  {
    match v
    case Undefined => false
    case Str(s) => s != ""
    case List(_) => true
    case Cover(_, _) => true
    case Other(_, t) => t
  }

  /** `existing || otherwise`. */
  function OrElse(existing: FmValue, otherwise: FmValue): (r: FmValue)
    ensures Truthy(existing) ==> r == existing
    ensures !Truthy(existing) ==> r == otherwise
  {
    if Truthy(existing) then existing else otherwise
  }

  /** `obj[key]`: `undefined` for a key the object does not have. */
  function ValueOf(values: map<string, FmValue>, key: string): FmValue
  {
    if key in values then values[key] else Undefined
  }

  predicate NoDuplicateKeys(keys: seq<string>)
  {
    forall i, j :: 0 <= i < j < |keys| ==> keys[i] != keys[j]
  }

  /** The keys that survive pruning, in their order. */
  function KeptKeys(keys: seq<string>, values: map<string, FmValue>): (r: seq<string>)
    ensures forall i :: 0 <= i < |r| ==> !IsBlank(ValueOf(values, r[i]))
    ensures |r| <= |keys|
  {
    if keys == [] then []
    else
      var init := keys[..|keys| - 1];
      var last := keys[|keys| - 1];
      KeptKeys(init, values) + if IsBlank(ValueOf(values, last)) then [] else [last]
  }

  /** The values that survive pruning. */
  function KeptValues(values: map<string, FmValue>): (r: map<string, FmValue>)
    ensures forall k :: k in r ==> !IsBlank(r[k])
  {
    map k | k in values && !IsBlank(values[k]) :: values[k]
  }

  /** A key survives pruning exactly when it was there with a value that is not blank. */
  lemma {:induction false} KeptKeysMembers(keys: seq<string>, values: map<string, FmValue>, key: string)
    ensures key in KeptKeys(keys, values) <==> key in keys && !IsBlank(ValueOf(values, key))
    decreases |keys|
  {
    if keys != [] {
      var init := keys[..|keys| - 1];
      assert keys == init + [keys[|keys| - 1]];
      KeptKeysMembers(init, values, key);
    }
  }

  lemma {:induction false} KeptKeysAppend(a: seq<string>, b: seq<string>, values: map<string, FmValue>)
    ensures KeptKeys(a + b, values) == KeptKeys(a, values) + KeptKeys(b, values)
    decreases |b|
  {
    if b == [] {
      assert a + b == a;
    } else {
      var bi := b[..|b| - 1];
      assert (a + b)[..|a + b| - 1] == a + bi;
      assert (a + b)[|a + b| - 1] == b[|b| - 1];
      KeptKeysAppend(a, bi, values);
    }
  }

  /** Pruning keeps distinct keys distinct. */
  lemma {:induction false} KeptKeysDistinct(keys: seq<string>, values: map<string, FmValue>)
    requires NoDuplicateKeys(keys)
    ensures NoDuplicateKeys(KeptKeys(keys, values))
    decreases |keys|
  {
    if keys != [] {
      var init := keys[..|keys| - 1];
      var last := keys[|keys| - 1];
      assert NoDuplicateKeys(init);
      KeptKeysDistinct(init, values);
      KeptKeysMembers(init, values, last);
      assert last !in init;
    }
  }

  /** Pruning an object a second time changes nothing. */
  lemma {:induction false} KeptKeysIdempotent(keys: seq<string>, values: map<string, FmValue>)
    ensures KeptKeys(KeptKeys(keys, values), KeptValues(values)) == KeptKeys(keys, values)
    decreases |keys|
  {
    if keys != [] {
      var init := keys[..|keys| - 1];
      var last := keys[|keys| - 1];
      var tail := if IsBlank(ValueOf(values, last)) then [] else [last];
      KeptKeysIdempotent(init, values);
      KeptKeysAppend(KeptKeys(init, values), tail, KeptValues(values));
      if tail != [] {
        assert [last][..0] == [];
        assert ValueOf(KeptValues(values), last) == ValueOf(values, last);
      }
    }
  }

  /** Reading a key after pruning: its value when that is not blank, `undefined` otherwise. */
  lemma ValueOfKept(values: map<string, FmValue>, key: string)
    ensures ValueOf(KeptValues(values), key) == if IsBlank(ValueOf(values, key)) then Undefined else ValueOf(values, key)
  {
  }

  // ---------------------------------------------------------------------------
  // The object, updated in place
  // ---------------------------------------------------------------------------

  /** The keys without `key`: every other key stays. */
  function RemoveKey(keys: seq<string>, key: string): (r: seq<string>)
    ensures key !in r
    ensures forall k :: k in r <==> k in keys && k != key
    ensures |r| <= |keys|
  {
    if keys == [] then []
    else if keys[0] == key then RemoveKey(keys[1..], key)
    else [keys[0]] + RemoveKey(keys[1..], key)
  }

  lemma {:induction false} RemoveKeyAbsent(keys: seq<string>, key: string)
    requires key !in keys
    ensures RemoveKey(keys, key) == keys
    decreases |keys|
  {
    if keys != [] {
      assert keys[1..] == keys[1..];
      assert key !in keys[1..];
      RemoveKeyAbsent(keys[1..], key);
    }
  }

  lemma {:induction false} RemoveKeyAfter(a: seq<string>, b: seq<string>, key: string)
    requires key !in a
    ensures RemoveKey(a + b, key) == a + RemoveKey(b, key)
    decreases |a|
  {
    if a == [] {
      assert a + b == b;
    } else {
      assert (a + b)[0] == a[0];
      assert (a + b)[1..] == a[1..] + b;
      assert key !in a[1..];
      RemoveKeyAfter(a[1..], b, key);
      assert [a[0]] + (a[1..] + RemoveKey(b, key)) == a + RemoveKey(b, key);
    }
  }

  /**
   * The front-matter object `fmObj`: its own keys in insertion order (which
   * is the order YAML writes them in) and their values.
   */
  class FrontMatterObject {
    var keys: seq<string>
    var values: map<string, FmValue>

    /** The keys are distinct and are exactly those with a value. */
    predicate Valid()
      reads this
    {
      NoDuplicateKeys(keys) && (forall k :: k in values ==> k in keys) && (forall k :: k in keys ==> k in values)
    }

    constructor (keys0: seq<string>, values0: map<string, FmValue>)
      requires NoDuplicateKeys(keys0)
      requires (forall k :: k in values0 ==> k in keys0) && (forall k :: k in keys0 ==> k in values0)
      ensures Valid()
      ensures keys == keys0 && values == values0
    {
      keys := keys0;
      values := values0;
    }

    /** `fmObj[k]`. */
    function Get(key: string): FmValue
      reads this
    {
      ValueOf(values, key)
    }

    /** `delete fmObj[k]`. */
    method Delete(key: string)
      modifies this
      ensures keys == RemoveKey(old(keys), key)
      ensures values == old(values) - {key}
    {
      keys := RemoveKey(keys, key);
      values := values - {key};
    }

    /** `Object.keys(fmObj).forEach(...)` deleting every key whose value is blank. */
    method Prune()
      requires Valid()
      modifies this
      ensures Valid()
      ensures keys == KeptKeys(old(keys), old(values))
      ensures values == KeptValues(old(values))
    {
      ghost var orig := values;
      var ks := keys;
      for i := 0 to |ks|
        invariant keys == KeptKeys(ks[..i], orig) + ks[i..]
        invariant values == PrunedSoFar(orig, ks[..i])
      {
        var k := ks[i];
        KeyOnce(ks, i);
        PruneStepKeys(ks, i, orig);
        PruneStepValues(ks, i, orig);
        var v := Get(k);
        if IsBlank(v) {
          Delete(k);
        }
      }
      assert ks[..|ks|] == ks;
      PrunedSoFarAll(orig, ks);
      KeptKeysDistinct(ks, orig);
      forall k ensures k in values <==> k in keys {
        KeptKeysMembers(ks, orig, k);
      }
    }
  }

  /** The values once the keys in `done` have been looked at. */
  ghost function PrunedSoFar(values: map<string, FmValue>, done: seq<string>): map<string, FmValue>
  {
    map k | k in values && (k in done ==> !IsBlank(values[k])) :: values[k]
  }

  /** One step of the pruning loop on the values: key `i` still has its value, and loses it when blank. */
  lemma PruneStepValues(ks: seq<string>, i: nat, values: map<string, FmValue>)
    requires NoDuplicateKeys(ks) && i < |ks|
    ensures ValueOf(PrunedSoFar(values, ks[..i]), ks[i]) == ValueOf(values, ks[i])
    ensures PrunedSoFar(values, ks[..i + 1])
            == if IsBlank(ValueOf(values, ks[i])) then PrunedSoFar(values, ks[..i]) - {ks[i]}
               else PrunedSoFar(values, ks[..i])
  {
    KeyOnce(ks, i);
    SliceSnoc(ks, i);
  }

  lemma PrunedSoFarAll(values: map<string, FmValue>, ks: seq<string>)
    requires forall k :: k in values ==> k in ks
    ensures PrunedSoFar(values, ks) == KeptValues(values)
  {
  }

  lemma SliceSnoc<T>(s: seq<T>, i: nat)
    requires i < |s|
    ensures s[..i + 1] == s[..i] + [s[i]]
  {
  }

  lemma SliceCons<T>(s: seq<T>, i: nat)
    requires i < |s|
    ensures s[i..] == [s[i]] + s[i + 1..]
  {
  }

  lemma AppendAssoc<T>(a: seq<T>, b: seq<T>, c: seq<T>)
    ensures a + b + c == a + (b + c)
  {
  }

  /** A key of a list without duplicates occurs at one position only. */
  lemma KeyOnce(ks: seq<string>, i: nat)
    requires NoDuplicateKeys(ks) && i < |ks|
    ensures ks[i] !in ks[..i] && ks[i] !in ks[i + 1..]
  {
  }

  /** One step of the pruning loop on the key list: key `i` is kept or deleted. */
  lemma PruneStepKeys(ks: seq<string>, i: nat, values: map<string, FmValue>)
    requires NoDuplicateKeys(ks) && i < |ks|
    ensures var pre := KeptKeys(ks[..i], values) + ks[i..];
            KeptKeys(ks[..i + 1], values) + ks[i + 1..]
            == if IsBlank(ValueOf(values, ks[i])) then RemoveKey(pre, ks[i]) else pre
  {
    var k := ks[i];
    KeyOnce(ks, i);
    var kept := KeptKeys(ks[..i], values);
    var rest := ks[i + 1..];
    SliceSnoc(ks, i);
    SliceCons(ks, i);
    var pre := kept + ks[i..];
    assert pre == kept + ([k] + rest);
    KeptKeysAppend(ks[..i], [k], values);
    KeptKeysSingle(k, values);
    var next := KeptKeys(ks[..i + 1], values);
    assert next == kept + KeptKeys([k], values);
    if IsBlank(ValueOf(values, k)) {
      assert next == kept;
      KeptKeysMembers(ks[..i], values, k);
      RemoveOnly(kept, k, rest);
      assert RemoveKey(pre, k) == kept + rest;
    } else {
      assert next == kept + [k];
      AppendAssoc(kept, [k], rest);
      assert next + rest == pre;
    }
  }

  lemma KeptKeysSingle(k: string, values: map<string, FmValue>)
    ensures KeptKeys([k], values) == if IsBlank(ValueOf(values, k)) then [] else [k]
  {
    assert [k][..0] == [];
  }

  /** Removing a key that occurs once, between two runs without it. */
  lemma RemoveOnly(a: seq<string>, k: string, b: seq<string>)
    requires k !in a && k !in b
    ensures RemoveKey(a + ([k] + b), k) == a + b
  {
    RemoveKeyAfter(a, [k] + b, k);
    RemoveKeyAbsent(b, k);
    assert ([k] + b)[0] == k && ([k] + b)[1..] == b;
  }

  // ---------------------------------------------------------------------------
  // The object of lines 311-321
  // ---------------------------------------------------------------------------

  /** The keys the sync writes, in this order. */
  const FieldOrder: seq<string> :=
    ["title", "date", "img_path", "image", "categories", "tags", "notion_id", "notion_last_edited"]

  lemma FieldOrderDistinct()
    ensures NoDuplicateKeys(FieldOrder)
  {
  }

  /**
   * The values of `fmObj` before pruning. `date` and `imgPath` are the
   * values already chosen (`existingFm.date || dateForFrontMatter` and the
   * like); the cover becomes `{ path, alt }`; empty category and tag lists
   * become `undefined`.
   */
  function FrontMatterValues(title: string, date: FmValue, imgPath: FmValue, cover: Option<string>,
                             coverAlt: string, categories: seq<string>, tags: seq<string>,
                             pageId: string, lastEdited: string): (values: map<string, FmValue>)
    ensures forall k :: k in values <==> k in FieldOrder
  {
    map["title" := Str(title), "date" := date, "img_path" := imgPath,
        "image" := (if cover.Some? then Cover(cover.value, coverAlt) else Undefined),
        "categories" := (if categories != [] then List(categories) else Undefined),
        "tags" := (if tags != [] then List(tags) else Undefined),
        "notion_id" := Str(pageId), "notion_last_edited" := Str(lastEdited)]
  }

  /** The date written: the existing post's date when it is truthy, else the one derived from the page. */
  function ChosenDate(existingDate: FmValue, freshDate: string): FmValue
  {
    OrElse(existingDate, Str(freshDate))
  }

  /**
   * The date written is the existing post's date whenever that date is
   * truthy and not blank, whatever the fresh date is.
   */
  lemma KeepsExistingDate(title: string, existingDate: FmValue, freshDate: string, imgPath: FmValue,
                          cover: Option<string>, coverAlt: string, categories: seq<string>,
                          tags: seq<string>, pageId: string, lastEdited: string)
    requires Truthy(existingDate) && !IsBlank(existingDate)
    ensures var values := FrontMatterValues(title, ChosenDate(existingDate, freshDate), imgPath, cover,
                                            coverAlt, categories, tags, pageId, lastEdited);
            ValueOf(KeptValues(values), "date") == existingDate
  {
    var values := FrontMatterValues(title, ChosenDate(existingDate, freshDate), imgPath, cover,
                                    coverAlt, categories, tags, pageId, lastEdited);
    assert ChosenDate(existingDate, freshDate) == existingDate;
    DateOfValues(title, existingDate, imgPath, cover, coverAlt, categories, tags, pageId, lastEdited);
    ValueOfKept(values, "date");
  }

  /** The `date` of the object is the date it was built with. */
  lemma DateOfValues(title: string, date: FmValue, imgPath: FmValue, cover: Option<string>,
                     coverAlt: string, categories: seq<string>, tags: seq<string>,
                     pageId: string, lastEdited: string)
    ensures ValueOf(FrontMatterValues(title, date, imgPath, cover, coverAlt, categories, tags, pageId, lastEdited), "date") == date
  {
  }

  /**
   * An existing date that is truthy but blank (a non-empty string of only
   * whitespace, or an empty list) is taken over and then pruned: the post
   * is written without any date.
   */
  lemma BlankExistingDateIsDropped(existingDate: FmValue, title: string, freshDate: string, imgPath: FmValue,
                                   cover: Option<string>, coverAlt: string, categories: seq<string>,
                                   tags: seq<string>, pageId: string, lastEdited: string)
    requires Truthy(existingDate) && IsBlank(existingDate)
    ensures var values := FrontMatterValues(title, ChosenDate(existingDate, freshDate), imgPath, cover,
                                            coverAlt, categories, tags, pageId, lastEdited);
            "date" !in KeptValues(values) && "date" !in KeptKeys(FieldOrder, values)
  {
    var values := FrontMatterValues(title, ChosenDate(existingDate, freshDate), imgPath, cover,
                                    coverAlt, categories, tags, pageId, lastEdited);
    DateOfValues(title, existingDate, imgPath, cover, coverAlt, categories, tags, pageId, lastEdited);
    assert values["date"] == existingDate;
    KeptKeysMembers(FieldOrder, values, "date");
  }

  /** The page id is always written when it is not blank, in seventh place unless an earlier key was pruned. */
  lemma KeepsNotionId(title: string, date: FmValue, imgPath: FmValue, cover: Option<string>,
                      coverAlt: string, categories: seq<string>, tags: seq<string>,
                      pageId: string, lastEdited: string)
    requires Trim(pageId) != ""
    ensures var values := FrontMatterValues(title, date, imgPath, cover, coverAlt, categories, tags,
                                            pageId, lastEdited);
            ValueOf(KeptValues(values), "notion_id") == Str(pageId)
            && "notion_id" in KeptKeys(FieldOrder, values)
  {
    var values := FrontMatterValues(title, date, imgPath, cover, coverAlt, categories, tags, pageId, lastEdited);
    KeptKeysMembers(FieldOrder, values, "notion_id");
  }

  /** Without a cover, categories or tags, none of those keys is written. */
  lemma OmitsEmptyEntries(title: string, date: FmValue, imgPath: FmValue, coverAlt: string,
                          pageId: string, lastEdited: string)
    ensures var values := FrontMatterValues(title, date, imgPath, None, coverAlt, [], [], pageId, lastEdited);
            var kept := KeptKeys(FieldOrder, values);
            "image" !in kept && "categories" !in kept && "tags" !in kept
  {
    var values := FrontMatterValues(title, date, imgPath, None, coverAlt, [], [], pageId, lastEdited);
    assert values["image"] == Undefined && values["categories"] == Undefined && values["tags"] == Undefined;
    KeptKeysMembers(FieldOrder, values, "image");
    KeptKeysMembers(FieldOrder, values, "categories");
    KeptKeysMembers(FieldOrder, values, "tags");
  }
}
