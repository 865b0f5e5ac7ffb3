/**
 * The JavaScript string built-ins that the modelled code calls, written out with
 * ECMAScript semantics: the `\s` character class and `trim`, `split` on a regular
 * expression of the form /X+/ and on a literal separator, `join`, the clamping of
 * `slice` and `substring`, `toLowerCase` on ASCII letters, `indexOf`/`includes`,
 * the number of matches a global `match` returns, and decimal rendering of
 * naturals as a template literal does it.
 *
 * Strings are sequences of Unicode scalar values rather than UTF-16 code units.
 */
module JsStrings {

  /** JavaScript's `\s`: the WhiteSpace and LineTerminator code points, which is
      also the set that `String.prototype.trim` removes. */
  const SpaceChars: set<char> := {
    '\U{9}', '\U{A}', '\U{B}', '\U{C}', '\U{D}', '\U{20}', '\U{A0}', '\U{1680}',
    '\U{2000}', '\U{2001}', '\U{2002}', '\U{2003}', '\U{2004}', '\U{2005}', '\U{2006}', '\U{2007}',
    '\U{2008}', '\U{2009}', '\U{200A}', '\U{2028}', '\U{2029}', '\U{202F}', '\U{205F}', '\U{3000}',
    '\U{FEFF}'
  }

  predicate IsSpace(c: char) {
    c in SpaceChars
  }

  /** A character class of a regular expression, as the set of its characters. */
  datatype CharClass = CharClass(chars: set<char>)

  /** The classes the modelled regular expressions split on: `\s` and the newline. */
  const Space := CharClass(SpaceChars)
  const Newline := CharClass({'\n'})

  predicate In(c: char, cls: CharClass) {
    c in cls.chars
  }

  predicate NoneOf(s: string, cls: CharClass) {
    forall k :: 0 <= k < |s| ==> !In(s[k], cls)
  }

  predicate AllOf(s: string, cls: CharClass) {
    forall k :: 0 <= k < |s| ==> In(s[k], cls)
  }

  /** Non-empty, with no character of the class at either end. */
  predicate Tidy(s: string, cls: CharClass) {
    |s| > 0 && !In(s[0], cls) && !In(s[|s| - 1], cls)
  }

  /** Every entry is non-empty and free of characters of the class. */
  predicate WordList(ws: seq<string>, cls: CharClass) {
    forall k :: 0 <= k < |ws| ==> |ws[k]| > 0 && NoneOf(ws[k], cls)
  }

  // ---------------------------------------------------------------------------
  // trim

  /** `s` without its leading white space. */
  function TrimStart(s: string): string
    decreases |s|
  {
    if s != [] && IsSpace(s[0]) then TrimStart(s[1..]) else s
  }

  /** `s` without its trailing white space. */
  function TrimEnd(s: string): string
    decreases |s|
  {
    if s != [] && IsSpace(s[|s| - 1]) then TrimEnd(s[..|s| - 1]) else s
  }

  /** `s.trim()`. */
  function Trim(s: string): string {
    TrimEnd(TrimStart(s))
  }

  /** TrimStart removes a white-space prefix and stops at the first other character. */
  lemma {:induction false} TrimStartSpec(s: string)
    ensures var r := TrimStart(s);
      && |r| <= |s| && r == s[|s| - |r|..]
      && AllOf(s[..|s| - |r|], Space)
      && (r == [] || !IsSpace(r[0]))
    decreases |s|
  {
    if s != [] && IsSpace(s[0]) {
      TrimStartSpec(s[1..]);
      var r := TrimStart(s);
      assert forall k :: 1 <= k < |s| - |r| ==> s[k] == s[1..][k - 1];
    }
  }

  /** TrimEnd removes a white-space suffix and stops at the last other character. */
  lemma {:induction false} TrimEndSpec(s: string)
    ensures var r := TrimEnd(s);
      && |r| <= |s| && r == s[..|r|]
      && AllOf(s[|r|..], Space)
      && (r == [] || !IsSpace(r[|r| - 1]))
    decreases |s|
  {
    if s != [] && IsSpace(s[|s| - 1]) {
      var t := s[..|s| - 1];
      TrimEndSpec(t);
      var r := TrimEnd(s);
      assert forall k :: |r| <= k < |s| - 1 ==> s[k] == t[k];
    }
  }

  lemma {:induction false} TrimStartBlank(s: string)
    requires AllOf(s, Space)
    ensures TrimStart(s) == []
    decreases |s|
  {
    if s != [] {
      TrimStartBlank(s[1..]);
    }
  }

  /** `s.trim()` is empty exactly when `s` is all white space, is otherwise a string
      without white space at either end, and leaves such a string alone. */
  lemma TrimSpec(s: string)
    ensures Trim(s) == [] <==> AllOf(s, Space)
    ensures Trim(s) != [] ==> Tidy(Trim(s), Space)
    ensures Tidy(s, Space) ==> Trim(s) == s
  {
    var t := TrimStart(s);
    var r := TrimEnd(t);
    TrimStartSpec(s);
    TrimEndSpec(t);
    if AllOf(s, Space) {
      TrimStartBlank(s);
    }
    if r == [] {
      assert t[0..] == t;
      assert s[..|s| - |t|] == s;
    }
    if r != [] {
      assert r[0] == t[0];
    }
  }

  /** Trimming keeps a contiguous piece of the string. */
  lemma TrimIsSlice(s: string) returns (i: nat, j: nat)
    ensures i <= j <= |s| && Trim(s) == s[i..j]
  {
    var t := TrimStart(s);
    var r := TrimEnd(t);
    TrimStartSpec(s);
    TrimEndSpec(t);
    i := |s| - |t|;
    j := i + |r|;
    assert s[i..j] == t[..|r|];
  }

  /** `ps.filter((p) => p.trim())`, or with `p.trim().length > 0`: drops the
      strings that are blank once trimmed. */
  function NonBlank(ps: seq<string>): seq<string>
    decreases |ps|
  {
    if |ps| == 0 then []
    else if Trim(ps[0]) != "" then [ps[0]] + NonBlank(ps[1..])
    else NonBlank(ps[1..])
  }

  /** The filter keeps exactly the strings that are not blank, in order. */
  lemma {:induction false} NonBlankSpec(ps: seq<string>)
    ensures forall p :: p in NonBlank(ps) <==> p in ps && Trim(p) != ""
    ensures |NonBlank(ps)| <= |ps|
    decreases |ps|
  {
    if |ps| > 0 {
      NonBlankSpec(ps[1..]);
      assert ps == [ps[0]] + ps[1..];
    }
  }

  // ---------------------------------------------------------------------------
  // split on /X+/

  /** The first index at or after `from` whose character's membership in the class
      is `member`, or |s|. */
  function Scan(s: string, from: nat, cls: CharClass, member: bool): (i: nat)
    requires from <= |s|
    ensures from <= i <= |s|
    ensures forall k :: from <= k < i ==> In(s[k], cls) != member
    ensures i < |s| ==> In(s[i], cls) == member
    decreases |s| - from
  {
    if from == |s| || In(s[from], cls) == member then from else Scan(s, from + 1, cls, member)
  }

  /** `Scan`'s contract determines its result. */
  lemma ScanIs(s: string, from: nat, cls: CharClass, member: bool, i: nat)
    requires from <= i <= |s|
    requires forall k :: from <= k < i ==> In(s[k], cls) != member
    requires i < |s| ==> In(s[i], cls) == member
    ensures Scan(s, from, cls, member) == i
  {
  }

  /** `s.split(/X+/)` for the character class X: the pieces between the maximal
      runs of class characters (a leading or trailing run yields an empty piece,
      and the empty string yields one empty piece). */
  function Split(s: string, cls: CharClass): (r: seq<string>)
    ensures |r| >= 1
    decreases |s|
  {
    var i := Scan(s, 0, cls, true);
    if i == |s| then
      [s]
    else
      var j := Scan(s, i, cls, false);
      [s[..i]] + Split(s[j..], cls)
  }

  /** `s.split(/\s+/)`. */
  function SplitWs(s: string): (r: seq<string>)
    ensures |r| >= 1
  {
    Split(s, Space)
  }

  /** No piece contains a class character. */
  lemma {:induction false} SplitPieces(s: string, cls: CharClass)
    ensures forall k :: 0 <= k < |Split(s, cls)| ==> NoneOf(Split(s, cls)[k], cls)
    decreases |s|
  {
    var i := Scan(s, 0, cls, true);
    if i < |s| {
      var j := Scan(s, i, cls, false);
      SplitPieces(s[j..], cls);
    }
  }

  lemma SplitNoSep(s: string, cls: CharClass)
    requires NoneOf(s, cls)
    ensures Split(s, cls) == [s]
  {
    ScanIs(s, 0, cls, true, |s|);
  }

  /** Unfolds `Split` at a known first separator run s[i..j]. */
  lemma SplitAt(s: string, cls: CharClass, i: nat, j: nat)
    requires i < j <= |s|
    requires forall k :: 0 <= k < i ==> !In(s[k], cls)
    requires forall k :: i <= k < j ==> In(s[k], cls)
    requires j < |s| ==> !In(s[j], cls)
    ensures Split(s, cls) == [s[..i]] + Split(s[j..], cls)
  {
    ScanIs(s, 0, cls, true, i);
    ScanIs(s, i, cls, false, j);
  }

  /** A gap of class characters between two pieces that do not end, resp. start,
      with one splits exactly there. */
  lemma {:induction false} SplitConcat(a: string, gap: string, b: string, cls: CharClass)
    requires |gap| > 0 && AllOf(gap, cls)
    requires a == [] || !In(a[|a| - 1], cls)
    requires b == [] || !In(b[0], cls)
    ensures Split(a + gap + b, cls) == Split(a, cls) + Split(b, cls)
    decreases |a|
  {
    var ia := Scan(a, 0, cls, true);
    if ia == |a| {
      SplitConcatFree(a, gap, b, cls);
    } else {
      var ja := Scan(a, ia, cls, false);
      assert ja < |a|;
      var a' := a[ja..];
      assert a'[|a'| - 1] == a[|a| - 1];
      SplitConcat(a', gap, b, cls);
      SplitConcatStep(a, gap, b, cls, ia, ja);
    }
  }

  /** The step of `SplitConcat` past the first run s[i..j] inside `a`. */
  lemma SplitConcatStep(a: string, gap: string, b: string, cls: CharClass, i: nat, j: nat)
    requires i < j < |a|
    requires forall k :: 0 <= k < i ==> !In(a[k], cls)
    requires forall k :: i <= k < j ==> In(a[k], cls)
    requires !In(a[j], cls)
    requires Split(a[j..] + gap + b, cls) == Split(a[j..], cls) + Split(b, cls)
    ensures Split(a + gap + b, cls) == Split(a, cls) + Split(b, cls)
  {
    var x, p, q := a[..i], Split(a[j..], cls), Split(b, cls);
    SplitAt(a, cls, i, j);
    SplitStep(a, gap, b, cls, i, j);
    assert [x] + (p + q) == ([x] + p) + q;
  }

  /** The case of `SplitConcat` where `a` holds no class character. */
  lemma SplitConcatFree(a: string, gap: string, b: string, cls: CharClass)
    requires |gap| > 0 && AllOf(gap, cls) && NoneOf(a, cls)
    requires b == [] || !In(b[0], cls)
    ensures Split(a + gap + b, cls) == Split(a, cls) + Split(b, cls)
  {
    var s := a + gap + b;
    SplitNoSep(a, cls);
    forall k | |a| <= k < |a| + |gap| ensures In(s[k], cls) {
      assert s[k] == gap[k - |a|];
    }
    assert |a| + |gap| < |s| ==> s[|a| + |gap|] == b[0];
    SplitAt(s, cls, |a|, |a| + |gap|);
    assert s[..|a|] == a;
    assert s[|a| + |gap|..] == b;
  }

  /** Unfolds `Split` of a longer string at a run s[i..j] that lies inside its prefix `a`. */
  lemma SplitStep(a: string, gap: string, b: string, cls: CharClass, i: nat, j: nat)
    requires i < j < |a|
    requires forall k :: 0 <= k < i ==> !In(a[k], cls)
    requires forall k :: i <= k < j ==> In(a[k], cls)
    requires !In(a[j], cls)
    ensures Split(a + gap + b, cls) == [a[..i]] + Split(a[j..] + gap + b, cls)
  {
    var s := a + gap + b;
    assert Split(s, cls) == [s[..i]] + Split(s[j..], cls) by {
      assert forall k :: 0 <= k <= j ==> s[k] == a[k];
      SplitAt(s, cls, i, j);
    }
    assert s[..i] == a[..i];
    assert s[j..] == a[j..] + gap + b;
  }

  /** The pieces of a tidy string are all non-empty. */
  lemma {:induction false} SplitTidy(s: string, cls: CharClass)
    requires Tidy(s, cls)
    ensures WordList(Split(s, cls), cls)
    decreases |s|
  {
    var i := Scan(s, 0, cls, true);
    if i < |s| {
      var j := Scan(s, i, cls, false);
      assert j < |s|;
      var t := s[j..];
      assert t[|t| - 1] == s[|s| - 1];
      SplitTidy(t, cls);
    }
    SplitPieces(s, cls);
  }

  // ---------------------------------------------------------------------------
  // join

  /** `parts.join(sep)`. */
  function Join(parts: seq<string>, sep: string): (r: string)
    decreases |parts|
  {
    if |parts| == 0 then ""
    else if |parts| == 1 then parts[0]
    else parts[0] + sep + Join(parts[1..], sep)
  }

  lemma {:induction false} JoinAppend(parts: seq<string>, x: string, sep: string)
    requires |parts| > 0
    ensures Join(parts + [x], sep) == Join(parts, sep) + sep + x
    decreases |parts|
  {
    if |parts| > 1 {
      assert (parts + [x])[1..] == parts[1..] + [x];
      JoinAppend(parts[1..], x, sep);
    }
  }

  lemma {:induction false} JoinEnds(parts: seq<string>, sep: string)
    requires |parts| > 0 && forall k :: 0 <= k < |parts| ==> |parts[k]| > 0
    ensures |Join(parts, sep)| > 0
    ensures Join(parts, sep)[0] == parts[0][0]
    ensures Join(parts, sep)[|Join(parts, sep)| - 1] == parts[|parts| - 1][|parts[|parts| - 1]| - 1]
    decreases |parts|
  {
    if |parts| > 1 {
      JoinEnds(parts[1..], sep);
    }
  }

  /** The concatenation of the pieces of every part. */
  function SplitEach(parts: seq<string>, cls: CharClass): seq<string>
    decreases |parts|
  {
    if |parts| == 0 then [] else Split(parts[0], cls) + SplitEach(parts[1..], cls)
  }

  /** Joining tidy parts with a separator gap and splitting again yields the pieces
      of each part, in order. */
  lemma {:induction false} SplitJoin(parts: seq<string>, gap: string, cls: CharClass)
    requires |parts| > 0 && |gap| > 0 && AllOf(gap, cls)
    requires forall k :: 0 <= k < |parts| ==> Tidy(parts[k], cls)
    ensures Split(Join(parts, gap), cls) == SplitEach(parts, cls)
    decreases |parts|
  {
    if |parts| == 1 {
      assert SplitEach(parts, cls) == Split(parts[0], cls) + SplitEach([], cls);
    } else {
      var rest := parts[1..];
      SplitJoin(rest, gap, cls);
      JoinEnds(rest, gap);
      SplitConcat(parts[0], gap, Join(rest, gap), cls);
    }
  }

  /** Splitting words joined by a separator gives the words back. */
  lemma {:induction false} SplitJoinWords(ws: seq<string>, gap: string, cls: CharClass)
    requires |ws| > 0 && |gap| > 0 && AllOf(gap, cls) && WordList(ws, cls)
    ensures Split(Join(ws, gap), cls) == ws
    decreases |ws|
  {
    if |ws| == 1 {
      SplitNoSep(ws[0], cls);
    } else {
      SplitJoinWords(ws[1..], gap, cls);
      JoinEnds(ws[1..], gap);
      SplitNoSep(ws[0], cls);
      SplitConcat(ws[0], gap, Join(ws[1..], gap), cls);
    }
  }

  // ---------------------------------------------------------------------------
  // indexOf, includes, split on a literal

  predicate OccursAt(s: string, pat: string, i: int) {
    0 <= i && i + |pat| <= |s| && s[i..i + |pat|] == pat
  }

  /** `s.indexOf(pat, from)` for a non-empty pattern: the first occurrence at or after
      `from`, or -1 when there is none. */
  function IndexOf(s: string, pat: string, from: nat): (i: int)
    requires |pat| > 0
    ensures i == -1 || (from <= i && OccursAt(s, pat, i))
    ensures forall k :: from <= k && (i == -1 || k < i) ==> !OccursAt(s, pat, k)
    decreases |s| - from
  {
    if from + |pat| > |s| then -1
    else if s[from..from + |pat|] == pat then from
    else IndexOf(s, pat, from + 1)
  }

  /** `s.includes(pat)` for a non-empty pattern. */
  predicate Contains(s: string, pat: string)
    requires |pat| > 0
  {
    IndexOf(s, pat, 0) >= 0
  }

  /** `s.split(sep)` for a non-empty literal separator. */
  function SplitOn(s: string, sep: string): (r: seq<string>)
    requires |sep| > 0
    ensures |r| >= 1
    decreases |s|
  {
    var i := IndexOf(s, sep, 0);
    if i < 0 then [s] else [s[..i]] + SplitOn(s[i + |sep|..], sep)
  }

  /** No piece contains the separator. */
  lemma {:induction false} SplitOnPieces(s: string, sep: string)
    requires |sep| > 0
    ensures forall k :: 0 <= k < |SplitOn(s, sep)| ==> !Contains(SplitOn(s, sep)[k], sep)
    decreases |s|
  {
    var i := IndexOf(s, sep, 0);
    if i >= 0 {
      var head, rest := s[..i], s[i + |sep|..];
      assert !Contains(head, sep) by {
        forall j | 0 <= j && j + |sep| <= |head|
          ensures !OccursAt(head, sep, j)
        {
          assert head[j..j + |sep|] == s[j..j + |sep|];
          assert !OccursAt(s, sep, j);
        }
      }
      var tail := SplitOn(rest, sep);
      assert SplitOn(s, sep) == [head] + tail;
      SplitOnPieces(rest, sep);
      forall k | 1 <= k < |tail| + 1 ensures !Contains(([head] + tail)[k], sep) {
        assert ([head] + tail)[k] == tail[k - 1];
      }
    }
  }

  /** Joining a piece in front of at least one more adds it and a separator. */
  lemma JoinCons(head: string, tail: seq<string>, sep: string)
    requires |tail| > 0
    ensures Join([head] + tail, sep) == head + sep + Join(tail, sep)
  {
    var parts := [head] + tail;
    assert parts[0] == head && parts[1..] == tail;
  }

  /** A string is its part before an occurrence, the occurrence, and the rest. */
  lemma AroundOccurrence(s: string, pat: string, i: int)
    requires OccursAt(s, pat, i)
    ensures s == s[..i] + pat + s[i + |pat|..]
  {
    assert s[i..i + |pat|] == pat;
    assert s == s[..i] + s[i..i + |pat|] + s[i + |pat|..];
  }

  /** Joining the pieces of a split with the same separator restores the string. */
  lemma {:induction false} JoinSplitOn(s: string, sep: string)
    requires |sep| > 0
    ensures Join(SplitOn(s, sep), sep) == s
    decreases |s|
  {
    var i := IndexOf(s, sep, 0);
    if i >= 0 {
      var rest := s[i + |sep|..];
      JoinSplitOn(rest, sep);
      JoinCons(s[..i], SplitOn(rest, sep), sep);
      AroundOccurrence(s, sep, i);
    }
  }

  predicate StartsWith(s: string, prefix: string) {
    |prefix| <= |s| && s[..|prefix|] == prefix
  }

  // ---------------------------------------------------------------------------
  // slice and substring

  /** An index argument of `Array.prototype.slice` clamped to [0, len]: a negative
      one counts back from the end. */
  function SliceIndex(k: int, len: nat): (r: nat)
    ensures r <= len
  {
    if k < 0 then (if len + k < 0 then 0 else len + k) else if k > len then len else k
  }

  /** `s.slice(start, end)`. */
  function Slice<T>(s: seq<T>, start: int, end: int): (r: seq<T>)
  {
    var a := SliceIndex(start, |s|);
    var b := SliceIndex(end, |s|);
    if a < b then s[a..b] else []
  }

  /** `s.slice(start)`. */
  function SliceFrom<T>(s: seq<T>, start: int): (r: seq<T>)
  {
    s[SliceIndex(start, |s|)..]
  }

  function Min(a: int, b: int): int {
    if a < b then a else b
  }

  /** With arguments 0 <= a <= b, `s.slice(a, b)` keeps the elements from a up to
      b, both cut off at the length. */
  lemma SliceWithin<T>(s: seq<T>, a: nat, b: nat)
    requires a <= b
    ensures Slice(s, a, b) == s[Min(a, |s|)..Min(b, |s|)]
  {
  }

  /** `s.slice(-n)` keeps the last n elements, all of them once n reaches |s|;
      `slice(-0)` is `slice(0)` and keeps everything. */
  lemma SliceFromEnd<T>(s: seq<T>, n: nat)
    ensures |SliceFrom(s, -(n as int))| == if n == 0 then |s| else Min(n, |s|)
    ensures SliceFrom(s, -(n as int)) == s[|s| - |SliceFrom(s, -(n as int))|..]
  {
  }

  /** An index argument of `String.prototype.substring`: clamped to [0, len]. */
  function SubstringIndex(k: int, len: nat): (r: nat)
    ensures r <= len
  {
    if k < 0 then 0 else if k > len then len else k
  }

  /** `s.substring(start)`. */
  function SubstringFrom(s: string, start: int): string
  {
    s[SubstringIndex(start, |s|)..]
  }

  /** `s.substring(start, end)`: the arguments are clamped and swapped when reversed. */
  function Substring(s: string, start: int, end: int): string
  {
    var a := SubstringIndex(start, |s|);
    var b := SubstringIndex(end, |s|);
    if a <= b then s[a..b] else s[b..a]
  }

  // ---------------------------------------------------------------------------
  // toLowerCase

  function LowerChar(c: char): char {
    if 'A' <= c <= 'Z' then (c as int + 32) as char else c
  }

  /** `s.toLowerCase()` on ASCII letters; every other character is kept. */
  function ToLower(s: string): (r: string)
    ensures |r| == |s|
    ensures forall k :: 0 <= k < |s| ==> r[k] == LowerChar(s[k])
    decreases |s|
  {
    if |s| == 0 then [] else [LowerChar(s[0])] + ToLower(s[1..])
  }

  // ---------------------------------------------------------------------------
  // global regular-expression matches of a literal pattern

  /** The number of matches `s.match(/pat/g)` returns (or 0 for its `null`), for a
      pattern without metacharacters, scanning from `from`: leftmost occurrences,
      each search resuming where the previous match ended. */
  function CountMatches(s: string, pat: string, from: nat): nat
    requires |pat| > 0
    decreases |s| - from
  {
    if from + |pat| > |s| then 0
    else if s[from..from + |pat|] == pat then 1 + CountMatches(s, pat, from + |pat|)
    else CountMatches(s, pat, from + 1)
  }

  /** ASCII word characters, which is what `\b` tests without the `u` flag. */
  predicate IsWordChar(c: char) {
    'a' <= c <= 'z' || 'A' <= c <= 'Z' || '0' <= c <= '9' || c == '_'
  }

  /** `\b` at position k of s: a word character on exactly one side. */
  predicate WordBoundary(s: string, k: int)
    requires 0 <= k <= |s|
  {
    (k > 0 && IsWordChar(s[k - 1])) != (k < |s| && IsWordChar(s[k]))
  }

  predicate WholeWordAt(s: string, pat: string, i: int) {
    OccursAt(s, pat, i) && WordBoundary(s, i) && WordBoundary(s, i + |pat|)
  }

  /** The number of matches `s.match(/\bpat\b/g)` returns, scanning from `from`. */
  function CountWholeWords(s: string, pat: string, from: nat): nat
    requires |pat| > 0
    decreases |s| - from
  {
    if from + |pat| > |s| then 0
    else if WholeWordAt(s, pat, from) then 1 + CountWholeWords(s, pat, from + |pat|)
    else CountWholeWords(s, pat, from + 1)
  }

  /** The global match finds something exactly when `indexOf` does. */
  lemma {:induction false} CountMatchesPositive(s: string, pat: string, from: nat)
    requires |pat| > 0
    ensures CountMatches(s, pat, from) > 0 <==> IndexOf(s, pat, from) >= 0
    decreases |s| - from
  {
    if from + |pat| <= |s| && s[from..from + |pat|] != pat {
      CountMatchesPositive(s, pat, from + 1);
    }
  }

  /** A whole-word match is in particular an occurrence. */
  lemma {:induction false} WholeWordsOccur(s: string, pat: string, from: nat)
    requires |pat| > 0
    requires CountWholeWords(s, pat, from) > 0
    ensures IndexOf(s, pat, from) >= 0
    decreases |s| - from
  {
    if !WholeWordAt(s, pat, from) {
      WholeWordsOccur(s, pat, from + 1);
    }
  }

  // ---------------------------------------------------------------------------
  // decimal rendering

  predicate IsDigit(c: char) {
    '0' <= c <= '9'
  }

  function DigitChar(d: nat): (c: char)
    requires d < 10
  {
    ('0' as int + d) as char
  }

  /** A natural rendered in decimal, as `${n}` renders it. */
  function NatToString(n: nat): string
    decreases n
  {
    if n < 10 then [DigitChar(n)] else NatToString(n / 10) + [DigitChar(n % 10)]
  }

  /** The value of a string of decimal digits. */
  function DecimalValue(s: string): nat
    requires forall k :: 0 <= k < |s| ==> IsDigit(s[k])
  {
    if s == [] then 0
    else
      assert IsDigit(s[|s| - 1]);
      DecimalValue(s[..|s| - 1]) * 10 + (s[|s| - 1] as int - '0' as int)
  }

  /** The rendering is a non-empty digit string without a leading zero (except for
      zero itself) whose value is n. */
  lemma {:induction false} NatToStringDecimal(n: nat)
    ensures var s := NatToString(n);
      && |s| > 0
      && (forall k :: 0 <= k < |s| ==> IsDigit(s[k]))
      && (s[0] == '0' ==> n == 0)
      && DecimalValue(s) == n
    decreases n
  {
    if n >= 10 {
      NatToStringDecimal(n / 10);
      var s := NatToString(n);
      var h := NatToString(n / 10);
      assert s[..|s| - 1] == h;
      assert s[0] == h[0];
    }
  }
}
