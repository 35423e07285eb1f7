/**
 * The JavaScript string operations the sync script relies on, written out on
 * `seq<char>`: `trim`, `toLowerCase` (ASCII letters only), `startsWith`,
 * `endsWith`, `split(c)[0]`, `split(c).pop()`, `lastIndexOf`, `String(n)`,
 * `padStart(2, "0")` and the `split(from).join(to)` replacement.
 */
module Text {

  /** The characters `String.prototype.trim` removes: ECMAScript WhiteSpace and LineTerminator. */
  predicate IsJsSpace(c: char)
  {
    IsWhiteSpace(c) || IsLineTerminator(c)
  }

  /** ECMAScript WhiteSpace: tab, vertical tab, form feed, space, no-break space, BOM and the Zs spaces. */
  predicate IsWhiteSpace(c: char)
  {
    c == '\t' || c == '\U{B}' || c == '\U{C}' || c == ' ' || c == '\U{A0}' || c == '\U{FEFF}'
    || c == '\U{1680}' || ('\U{2000}' <= c <= '\U{200A}') || c == '\U{202F}' || c == '\U{205F}'
    || c == '\U{3000}'
  }

  /** ECMAScript LineTerminator: line feed, carriage return, line and paragraph separators. */
  predicate IsLineTerminator(c: char)
  {
    c == '\n' || c == '\r' || c == '\U{2028}' || c == '\U{2029}'
  }

  /** `s` without its leading whitespace: a suffix of `s`. */
  function TrimStart(s: string): (r: string)
    ensures |r| <= |s| && r == s[|s| - |r|..]
    ensures forall i :: 0 <= i < |s| - |r| ==> IsJsSpace(s[i])
    ensures r != [] ==> !IsJsSpace(r[0])
  {
    if s != [] && IsJsSpace(s[0]) then
      var r := TrimStart(s[1..]);
      assert s[1..][|s| - 1 - |r|..] == s[|s| - |r|..];
      assert forall i :: 1 <= i < |s| - |r| ==> s[i] == s[1..][i - 1];
      r
    else s
  }

  /** `s` without its trailing whitespace: a prefix of `s`. */
  function TrimEnd(s: string): (r: string)
    ensures |r| <= |s| && r == s[..|r|]
    ensures forall i :: |r| <= i < |s| ==> IsJsSpace(s[i])
    ensures r != [] ==> !IsJsSpace(r[|r| - 1])
  {
    if s != [] && IsJsSpace(s[|s| - 1]) then
      var p := s[..|s| - 1];
      var r := TrimEnd(p);
      assert p[..|r|] == s[..|r|];
      assert forall i :: |r| <= i < |p| ==> s[i] == p[i];
      r
    else s
  }

  /**
   * `s.trim()`: the slice of `s` left when whitespace is cut from both
   * ends; empty exactly for all-whitespace input, and the identity on
   * trimmed input.
   */
  function Trim(s: string): (r: string)
    ensures |r| <= |s|
    ensures forall i :: 0 <= i < |r| ==> r[i] in s
    ensures NoSpaceAtEnds(r)
    ensures r == [] <==> AllSpace(s)
    ensures s == [] || (!IsJsSpace(s[0]) && !IsJsSpace(s[|s| - 1])) ==> r == s
    ensures IsCutOf(s, r)
  {
    TrimBothEnds(s);
    TrimIsSlice(s);
    TrimEnd(TrimStart(s))
  }

  /** Neither the first nor the last character of `r` is whitespace. */
  predicate NoSpaceAtEnds(r: string)
  {
    r != [] ==> !IsJsSpace(r[0]) && !IsJsSpace(r[|r| - 1])
  }

  /** Every character of `s` is whitespace. */
  predicate AllSpace(s: string)
  {
    forall i :: 0 <= i < |s| ==> IsJsSpace(s[i])
  }

  /** `s[a..b]` is a slice of `s` with only whitespace before and after it. */
  predicate SpaceOutside(s: string, a: int, b: int)
  {
    0 <= a <= b <= |s|
    && (forall i :: 0 <= i < a ==> IsJsSpace(s[i]))
    && (forall i :: b <= i < |s| ==> IsJsSpace(s[i]))
  }

  /** `r` is a slice of `s`, with only whitespace before and after it. */
  ghost predicate IsCutOf(s: string, r: string)
  {
    exists a, b :: SpaceOutside(s, a, b) && r == s[a..b]
  }

  /** What the two trims leave is one slice of `s`, with only whitespace cut on either side. */
  lemma TrimIsSlice(s: string)
    ensures IsCutOf(s, TrimEnd(TrimStart(s)))
  {
    var t := TrimStart(s);
    var r := TrimEnd(t);
    SliceOfSlice(s, t, r);
  }

  /** A prefix `r` of a suffix `t` of `s`, with whitespace cut before `t` and after `r`. */
  lemma SliceOfSlice(s: string, t: string, r: string)
    requires |t| <= |s| && t == s[|s| - |t|..]
    requires |r| <= |t| && r == t[..|r|]
    requires forall i :: 0 <= i < |s| - |t| ==> IsJsSpace(s[i])
    requires forall i :: |r| <= i < |t| ==> IsJsSpace(t[i])
    ensures SpaceOutside(s, |s| - |t|, |s| - |t| + |r|) && r == s[|s| - |t|..|s| - |t| + |r|]
  {
    var a := |s| - |t|;
    var b := a + |r|;
    assert s[a..b] == t[..|r|];
    forall i | b <= i < |s|
      ensures IsJsSpace(s[i])
    {
      assert s[i] == t[i - a];
    }
  }

  /**
   * The trimmed text is determined by where its first and last
   * non-whitespace characters are: any slice with only whitespace cut on
   * either side, and none at its own ends, is `Trim(s)`.
   */
  lemma TrimUnique(s: string, a: nat, b: nat)
    requires SpaceOutside(s, a, b)
    requires a < b ==> !IsJsSpace(s[a]) && !IsJsSpace(s[b - 1])
    ensures Trim(s) == s[a..b]
  {
    var r := Trim(s);
    var a', b' :| SpaceOutside(s, a', b') && r == s[a'..b'];
    if a < b {
      assert !IsJsSpace(s[a]);
      assert r != [];
      assert r[0] == s[a'] && r[|r| - 1] == s[b' - 1];
      SameCut(s, a, b, a', b');
    } else {
      assert forall i :: 0 <= i < |s| ==> IsJsSpace(s[i]);
    }
  }

  /** Two slices with only whitespace outside them and none at their ends are the same slice. */
  lemma SameCut(s: string, a: nat, b: nat, a': nat, b': nat)
    requires SpaceOutside(s, a, b) && SpaceOutside(s, a', b') && a < b && a' < b'
    requires !IsJsSpace(s[a]) && !IsJsSpace(s[b - 1]) && !IsJsSpace(s[a']) && !IsJsSpace(s[b' - 1])
    ensures a == a' && b == b'
  {
    assert a' <= a by {
      assert !IsJsSpace(s[a]);
    }
    assert a <= a' by {
      assert !IsJsSpace(s[a']);
    }
    assert b <= b' by {
      assert !IsJsSpace(s[b - 1]);
    }
    assert b' <= b by {
      assert !IsJsSpace(s[b' - 1]);
    }
  }

  lemma {:induction false} TrimBothEnds(s: string)
    ensures var r := TrimEnd(TrimStart(s));
            && |r| <= |s|
            && (forall i :: 0 <= i < |r| ==> r[i] in s)
            && NoSpaceAtEnds(r)
            && (r == [] <==> AllSpace(s))
            && (s == [] || (!IsJsSpace(s[0]) && !IsJsSpace(s[|s| - 1])) ==> r == s)
  {
    var t := TrimStart(s);
    var r := TrimEnd(t);
    TrimmedChars(s, t, r);
    TrimmedEnds(s, t, r);
    TrimmedEmpty(s, t, r);
    if s == [] {
      assert r == [];
    } else if !IsJsSpace(s[0]) && !IsJsSpace(s[|s| - 1]) {
      TrimmedIdentity(s, t, r);
    }
  }

  lemma {:induction false} TrimmedIdentity(s: string, t: string, r: string)
    requires t == TrimStart(s) && r == TrimEnd(t)
    requires s != [] && !IsJsSpace(s[0]) && !IsJsSpace(s[|s| - 1])
    ensures r == s
  {
    assert t == s;
    assert TrimEnd(s) == s;
  }

  lemma TrimmedEnds(s: string, t: string, r: string)
    requires t == TrimStart(s) && r == TrimEnd(t)
    ensures NoSpaceAtEnds(r)
  {
    if r != [] {
      assert r[0] == t[0];
      assert !IsJsSpace(t[0]);
      assert !IsJsSpace(r[|r| - 1]);
    }
  }

  lemma TrimmedEmpty(s: string, t: string, r: string)
    requires t == TrimStart(s) && r == TrimEnd(t)
    ensures r == [] <==> AllSpace(s)
  {
    if t == [] {
      assert |s| - |t| == |s|;
    } else {
      assert !IsJsSpace(t[0]);
      assert t[0] == s[|s| - |t|];
      assert r != [] by {
        assert !IsJsSpace(t[0]);
      }
    }
  }

  lemma TrimmedChars(s: string, t: string, r: string)
    requires |t| <= |s| && t == s[|s| - |t|..]
    requires |r| <= |t| && r == t[..|r|]
    ensures forall i :: 0 <= i < |r| ==> r[i] == s[|s| - |t| + i] && r[i] in s
  {
    forall i | 0 <= i < |r|
      ensures r[i] == s[|s| - |t| + i] && r[i] in s
    {
      assert r[i] == t[i];
    }
  }

  predicate IsUpperAscii(c: char)
  {
    'A' <= c <= 'Z'
  }

  function LowerChar(c: char): (d: char)
    ensures !IsUpperAscii(d)
    ensures !IsUpperAscii(c) ==> d == c
    ensures IsUpperAscii(c) ==> 'a' <= d <= 'z'
  {
    if IsUpperAscii(c) then (c as int + 32) as char else c
  }

  /** `s.toLowerCase()` restricted to ASCII letters; every other character is kept. */
  function Lower(s: string): (r: string)
    ensures |r| == |s|
    ensures forall i :: 0 <= i < |s| ==> r[i] == LowerChar(s[i])
  {
    if s == [] then [] else [LowerChar(s[0])] + Lower(s[1..])
  }

  predicate StartsWith(s: string, prefix: string)
  {
    |prefix| <= |s| && s[..|prefix|] == prefix
  }

  predicate EndsWith(s: string, suffix: string)
  {
    |suffix| <= |s| && s[|s| - |suffix|..] == suffix
  }

  /** `s.split(c)[0]`: the longest prefix of `s` without `c`. */
  function BeforeFirst(s: string, c: char): (r: string)
    ensures |r| <= |s| && r == s[..|r|]
    ensures c !in r
    ensures |r| < |s| ==> s[|r|] == c
  {
    if s == [] || s[0] == c then [] else [s[0]] + BeforeFirst(s[1..], c)
  }

  /** `s.split(c).pop()`: the longest suffix of `s` without `c`. */
  function AfterLast(s: string, c: char): (r: string)
    ensures |r| <= |s| && r == s[|s| - |r|..]
    ensures c !in r
    ensures |r| < |s| ==> s[|s| - |r| - 1] == c
  {
    if s == [] || s[|s| - 1] == c then [] else AfterLast(s[..|s| - 1], c) + [s[|s| - 1]]
  }

  /** `s.lastIndexOf(c)`, with -1 for "not found". */
  function LastIndexOf(s: string, c: char): (r: int)
    ensures -1 <= r < |s|
    ensures r == -1 ==> c !in s
    ensures 0 <= r ==> s[r] == c && c !in s[r + 1..]
  {
    if s == [] then -1
    else if s[|s| - 1] == c then
      assert s[|s|..] == [];
      |s| - 1
    else
      var p := s[..|s| - 1];
      var r := LastIndexOf(p, c);
      assert s == p + [s[|s| - 1]];
      assert 0 <= r ==> s[r + 1..] == p[r + 1..] + [s[|s| - 1]];
      r
  }

  // ---------------------------------------------------------------------------
  // Decimal numerals: String(n) and String(n).padStart(2, "0")
  // ---------------------------------------------------------------------------

  predicate IsDigit(c: char)
  {
    '0' <= c <= '9'
  }

  function DigitChar(d: nat): (c: char)
    requires d < 10
    ensures IsDigit(c)
  {
    ('0' as int + d) as char
  }

  function DigitValue(c: char): nat
  {
    if IsDigit(c) then c as int - '0' as int else 0
  }

  /** `String(n)` for a non-negative integer: its decimal digits, most significant first. */
  function Decimal(n: nat): (r: string)
    ensures |r| >= 1
    ensures forall i :: 0 <= i < |r| ==> IsDigit(r[i])
  {
    if n < 10 then [DigitChar(n)] else Decimal(n / 10) + [DigitChar(n % 10)]
  }

  /** `String(n).padStart(2, "0")`. */
  function Pad2(n: nat): (r: string)
    ensures |r| >= 2
    ensures forall i :: 0 <= i < |r| ==> IsDigit(r[i])
  {
    var d := Decimal(n);
    if |d| < 2 then "0" + d else d
  }

  /** Reads a string of decimal digits back as a number. */
  function ParseDecimal(s: string): nat
  {
    if s == [] then 0 else 10 * ParseDecimal(s[..|s| - 1]) + DigitValue(s[|s| - 1])
  }

  lemma {:induction false} ParseDecimalOfDecimal(n: nat)
    ensures ParseDecimal(Decimal(n)) == n
  {
    if n >= 10 {
      var d := Decimal(n);
      assert d[..|d| - 1] == Decimal(n / 10);
      ParseDecimalOfDecimal(n / 10);
    }
  }

  /** The zero-padded numeral reads back as the number it was made from. */
  lemma ParsePad2(n: nat)
    ensures ParseDecimal(Pad2(n)) == n
  {
    ParseDecimalOfDecimal(n);
    var d := Decimal(n);
    if |d| < 2 {
      var p := "0" + d;
      assert p[..|p| - 1] == "0";
      assert "0"[..0] == [];
      assert d[..|d| - 1] == [];
    }
  }

  /** Distinct numbers give distinct padded numerals. */
  lemma Pad2Injective(m: nat, n: nat)
    requires Pad2(m) == Pad2(n)
    ensures m == n
  {
    ParsePad2(m);
    ParsePad2(n);
  }

  // ---------------------------------------------------------------------------
  // s.split(sep) and parts.join(sep)
  // ---------------------------------------------------------------------------

  /** Whether `sub` occurs somewhere in `s`. */
  predicate Occurs(sub: string, s: string)
  {
    |sub| <= |s| && (s[..|sub|] == sub || Occurs(sub, s[1..]))
  }

  /**
   * `s.split(sep)` for a non-empty separator: the pieces between the
   * occurrences of `sep` found scanning from the left, without overlap.
   */
  function Split(s: string, sep: string): (parts: seq<string>)
    requires sep != []
    ensures |parts| >= 1
    decreases |s|
  {
    if |s| < |sep| then [s]
    else if s[..|sep|] == sep then [""] + Split(s[|sep|..], sep)
    else
      var rest := Split(s[1..], sep);
      [[s[0]] + rest[0]] + rest[1..]
  }

  /** `parts.join(sep)`. */
  function Join(parts: seq<string>, sep: string): string
  {
    if parts == [] then ""
    else if |parts| == 1 then parts[0]
    else parts[0] + sep + Join(parts[1..], sep)
  }

  /** `s.split(from).join(to)`: every occurrence of `from` replaced by `to`. */
  function ReplaceAll(s: string, from: string, to: string): string
    requires from != []
  {
    Join(Split(s, from), to)
  }

  lemma JoinConsHead(c: char, a: string, rest: seq<string>, sep: string)
    ensures Join([[c] + a] + rest, sep) == [c] + Join([a] + rest, sep)
  {
    if rest != [] {
      assert ([[c] + a] + rest)[1..] == rest;
      assert ([a] + rest)[1..] == rest;
    }
  }

  /** Splitting at a separator and joining with the same separator gives the string back. */
  lemma {:induction false} JoinSplit(s: string, sep: string)
    requires sep != []
    ensures Join(Split(s, sep), sep) == s
    decreases |s|
  {
    if |s| < |sep| {
    } else if s[..|sep|] == sep {
      var tail := s[|sep|..];
      var rest := Split(tail, sep);
      assert Split(s, sep) == [""] + rest;
      JoinSplit(tail, sep);
      assert ([""] + rest)[1..] == rest;
      assert Join([""] + rest, sep) == "" + sep + Join(rest, sep);
      assert s == sep + tail;
    } else {
      var tail := s[1..];
      var rest := Split(tail, sep);
      assert Split(s, sep) == [[s[0]] + rest[0]] + rest[1..];
      JoinSplit(tail, sep);
      JoinConsHead(s[0], rest[0], rest[1..], sep);
      assert [rest[0]] + rest[1..] == rest;
      assert s == [s[0]] + tail;
    }
  }

  /** A string without the separator is not split at all. */
  lemma {:induction false} SplitAbsent(s: string, sep: string)
    requires sep != []
    requires !Occurs(sep, s)
    ensures Split(s, sep) == [s]
    decreases |s|
  {
    if |s| >= |sep| {
      SplitAbsent(s[1..], sep);
      assert [s[0]] + s[1..] == s;
    }
  }

  /** Replacing a string that does not occur changes nothing. */
  lemma ReplaceAllAbsent(s: string, from: string, to: string)
    requires from != []
    requires !Occurs(from, s)
    ensures ReplaceAll(s, from, to) == s
  {
    SplitAbsent(s, from);
  }

  /** A leading character that cannot start `from` is copied. */
  lemma ReplaceAllCons(c: char, s: string, from: string, to: string)
    requires from != [] && c != from[0]
    ensures ReplaceAll([c] + s, from, to) == [c] + ReplaceAll(s, from, to)
  {
    var t := [c] + s;
    assert t[1..] == s;
    if |t| >= |from| {
      assert t[..|from|][0] == c;
      var rest := Split(s, from);
      JoinConsHead(c, rest[0], rest[1..], to);
      assert [rest[0]] + rest[1..] == rest;
    }
  }

  /** A leading occurrence of `from` becomes `to`. */
  lemma ReplaceAllMatch(s: string, from: string, to: string)
    requires from != []
    ensures ReplaceAll(from + s, from, to) == to + ReplaceAll(s, from, to)
  {
    var t := from + s;
    assert t[..|from|] == from;
    assert t[|from|..] == s;
    var rest := Split(s, from);
    assert ([""] + rest)[1..] == rest;
  }

  /** A string shorter than `from` is left alone. */
  lemma ReplaceAllShort(s: string, from: string, to: string)
    requires from != [] && |s| < |from|
    ensures ReplaceAll(s, from, to) == s
  {
  }
}
