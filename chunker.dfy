/**
 * `chunkText`: the text extracted from an uploaded PDF is cleaned, cut into
 * paragraphs, and the paragraphs are gathered into chunks of roughly
 * `chunkSize` words; a paragraph longer than that is cut into word windows
 * that overlap by `overlap` words. Every chunk is numbered in emission order.
 */
module Chunker {
  import opened JsStrings

  /** The defaults of the `chunkSize` and `overlap` parameters, which are also the
      arguments the document upload passes. */
  const DefaultChunkSize := 500
  const DefaultOverlap := 50

  datatype Chunk = Chunk(content: string, chunkIndex: int, pageNumber: int)

  /** The records `pushChunk` creates for a list of contents: numbered from 0 in
      order, all on page 0. */
  function Numbered(contents: seq<string>): (r: seq<Chunk>)
    ensures |r| == |contents|
    ensures forall k :: 0 <= k < |r| ==> r[k] == Chunk(contents[k], k, 0)
  {
    seq(|contents|, k requires 0 <= k < |contents| => Chunk(contents[k], k, 0))
  }

  // ---------------------------------------------------------------------------
  // cleaning

  /** `s.replace(/pat/g, rep)` for a pattern without metacharacters: every
      leftmost, non-overlapping occurrence is replaced. */
  function ReplaceAll(s: string, pat: string, rep: string): string
    requires |pat| > 0
    decreases |s|
  {
    var i := IndexOf(s, pat, 0);
    if i < 0 then s else s[..i] + rep + ReplaceAll(s[i + |pat|..], pat, rep)
  }

  /** `s.replace(/\s+/g, ' ')`: every maximal run of white space becomes one
      space, which is the same as splitting on the runs and joining with a space. */
  function CollapseSpaces(s: string): string {
    Join(SplitWs(s), " ")
  }

  /** The cleaning chain of `chunkText`, in the order it is written. */
  function Clean(text: string): string {
    var unix := ReplaceAll(text, "\r\n", "\n");
    var collapsed := CollapseSpaces(unix);
    Trim(ReplaceAll(ReplaceAll(collapsed, "\n ", "\n"), " \n", "\n"))
  }

  /** `cleanedText.split(/\n+/).filter((p) => p.trim().length > 0)`. */
  function Paragraphs(cleaned: string): seq<string> {
    NonBlank(Split(cleaned, Newline))
  }

  lemma ReplaceAllAbsent(s: string, pat: string, rep: string)
    requires |pat| > 0 && !Contains(s, pat)
    ensures ReplaceAll(s, pat, rep) == s
  {
  }

  /** Three strings joined are all of a class exactly when each of them is. */
  lemma AllOfConcat(a: string, b: string, c: string, cls: CharClass)
    ensures AllOf(a + b + c, cls) <==> AllOf(a, cls) && AllOf(b, cls) && AllOf(c, cls)
  {
    var s := a + b + c;
    assert forall k :: 0 <= k < |a| ==> s[k] == a[k];
    assert forall k :: 0 <= k < |b| ==> s[|a| + k] == b[k];
    assert forall k :: 0 <= k < |c| ==> s[|a| + |b| + k] == c[k];
  }

  /** Replacing white space by white space keeps a character that is not white space. */
  lemma {:induction false} ReplaceAllNonBlank(s: string, pat: string, rep: string)
    requires |pat| > 0 && AllOf(pat, Space) && !AllOf(s, Space)
    ensures !AllOf(ReplaceAll(s, pat, rep), Space)
    decreases |s|
  {
    var i := IndexOf(s, pat, 0);
    if i >= 0 {
      var head, rest := s[..i], s[i + |pat|..];
      var r := ReplaceAll(rest, pat, rep);
      assert s == head + pat + rest by {
        assert s[i..i + |pat|] == pat;
      }
      AllOfConcat(head, pat, rest, Space);
      if !AllOf(rest, Space) {
        ReplaceAllNonBlank(rest, pat, rep);
      }
      AllOfConcat(head, rep, r, Space);
    }
  }

  /** Splitting on the runs of a class and joining again with any separator keeps
      a character outside the class. */
  lemma {:induction false} SplitJoinNonBlank(s: string, cls: CharClass, sep: string)
    requires !AllOf(s, cls)
    ensures !AllOf(Join(Split(s, cls), sep), cls)
    decreases |s|
  {
    var i := Scan(s, 0, cls, true);
    var k :| 0 <= k < |s| && !In(s[k], cls);
    if i < |s| {
      var j := Scan(s, i, cls, false);
      var rest := Split(s[j..], cls);
      var tail := Join(rest, sep);
      assert Join(Split(s, cls), sep) == s[..i] + sep + tail by {
        var parts := [s[..i]] + rest;
        assert parts[0] == s[..i] && parts[1..] == rest;
      }
      if k < i {
        assert (s[..i] + sep + tail)[k] == s[k];
      } else {
        assert k >= j;
        assert s[j..][k - j] == s[k];
        SplitJoinNonBlank(s[j..], cls, sep);
        var m :| 0 <= m < |tail| && !In(tail[m], cls);
        assert (s[..i] + sep + tail)[i + |sep| + m] == tail[m];
      }
    }
  }

  /** No piece of a join contains a character that no part and not the separator contains. */
  lemma {:induction false} JoinFree(parts: seq<string>, sep: string, c: char)
    requires forall k :: 0 <= k < |parts| ==> c !in parts[k]
    requires c !in sep
    ensures c !in Join(parts, sep)
    decreases |parts|
  {
    if |parts| > 1 {
      JoinFree(parts[1..], sep, c);
      var t := Join(parts[1..], sep);
      assert Join(parts, sep) == parts[0] + sep + t;
      forall k | 0 <= k < |parts[0] + sep + t| ensures (parts[0] + sep + t)[k] != c {
        if k < |parts[0]| {
          assert (parts[0] + sep + t)[k] == parts[0][k];
        } else if k < |parts[0]| + |sep| {
          assert (parts[0] + sep + t)[k] == sep[k - |parts[0]|];
        } else {
          assert (parts[0] + sep + t)[k] == t[k - |parts[0]| - |sep|];
        }
      }
    }
  }

  /** Collapsing white space removes every newline. */
  lemma CollapseNoNewline(s: string)
    ensures '\n' !in CollapseSpaces(s)
  {
    var parts := SplitWs(s);
    SplitPieces(s, Space);
    assert In('\n', Space);
    forall k | 0 <= k < |parts| ensures '\n' !in parts[k] {
      assert forall m :: 0 <= m < |parts[k]| ==> parts[k][m] != '\n';
    }
    JoinFree(parts, " ", '\n');
  }

  lemma OccursChars(s: string, pat: string)
    ensures forall t, m :: OccursAt(s, pat, t) && 0 <= m < |pat| ==> s[t + m] == pat[m]
  {
    forall t, m | OccursAt(s, pat, t) && 0 <= m < |pat| ensures s[t + m] == pat[m] {
      assert s[t..t + |pat|][m] == s[t + m];
    }
  }

  /** A pattern holding a character the string lacks does not occur in it. */
  lemma AbsentChar(s: string, pat: string, m: nat)
    requires m < |pat| && pat[m] !in s
    ensures !Contains(s, pat)
  {
    OccursChars(s, pat);
  }

  /** The newline handling after the whitespace collapse has nothing left to do:
      the cleaned text is the trimmed collapsed text and holds no newline. */
  lemma {:induction false} CleanCollapsed(text: string)
    ensures Clean(text) == Trim(CollapseSpaces(ReplaceAll(text, "\r\n", "\n")))
    ensures '\n' !in Clean(text)
  {
    var collapsed := CollapseSpaces(ReplaceAll(text, "\r\n", "\n"));
    CollapseNoNewline(ReplaceAll(text, "\r\n", "\n"));
    assert ReplaceAll(ReplaceAll(collapsed, "\n ", "\n"), " \n", "\n") == collapsed by {
      AbsentChar(collapsed, "\n ", 0);
      ReplaceAllAbsent(collapsed, "\n ", "\n");
      AbsentChar(collapsed, " \n", 1);
      ReplaceAllAbsent(collapsed, " \n", "\n");
    }
    var t := Trim(collapsed);
    assert '\n' !in t by {
      var i, j := TrimIsSlice(collapsed);
      assert forall m :: 0 <= m < |t| ==> t[m] == collapsed[i + m];
    }
  }

  /** Text that is not all white space cleans to a non-empty string. */
  lemma CleanNonEmpty(text: string)
    requires Trim(text) != ""
    ensures Clean(text) != ""
  {
    TrimSpec(text);
    assert "\r\n"[0] == '\r' && "\r\n"[1] == '\n';
    assert AllOf("\r\n", Space);
    ReplaceAllNonBlank(text, "\r\n", "\n");
    SplitJoinNonBlank(ReplaceAll(text, "\r\n", "\n"), Space, " ");
    CleanCollapsed(text);
    TrimSpec(CollapseSpaces(ReplaceAll(text, "\r\n", "\n")));
  }

  /** A text without newlines is one paragraph, or none when it is blank. */
  lemma ParagraphsOfLine(c: string)
    requires '\n' !in c
    ensures Paragraphs(c) == if Trim(c) == "" then [] else [c]
  {
    assert NoneOf(c, Newline) by {
      forall k | 0 <= k < |c| ensures !In(c[k], Newline) {
        assert c[k] != '\n';
      }
    }
    SplitNoSep(c, Newline);
    assert NonBlank([c]) == if Trim(c) == "" then [] else [c] + NonBlank([]);
  }

  /** The cleaned text is one paragraph, or none when it is empty. */
  lemma ParagraphsOfClean(text: string)
    ensures Paragraphs(Clean(text)) == if Clean(text) == "" then [] else [Clean(text)]
  {
    var c := Clean(text);
    CleanCollapsed(text);
    ParagraphsOfLine(c);
    TrimSpec(CollapseSpaces(ReplaceAll(text, "\r\n", "\n")));
    TrimSpec(c);
  }

  // ---------------------------------------------------------------------------
  // word windows

  /** The windows of `for (let i = start; i < n; i += chunkSize - overlap)`, each
      `words.slice(i, i + chunkSize)`, stopping after the window that reaches the
      last word. */
  function WindowsFrom(words: seq<string>, cs: nat, ov: nat, i: nat): seq<seq<string>>
    requires ov < cs
    decreases |words| - i
  {
    if i >= |words| then []
    else if i + cs >= |words| then [words[i..]]
    else [words[i..i + cs]] + WindowsFrom(words, cs, ov, i + cs - ov)
  }

  function Windows(words: seq<string>, cs: nat, ov: nat): seq<seq<string>>
    requires ov < cs
  {
    WindowsFrom(words, cs, ov, 0)
  }

  /** Each entry joined with the separator, as `pushChunk` does it. */
  function JoinEach(ws: seq<seq<string>>, sep: string): (r: seq<string>)
    ensures |r| == |ws|
    decreases |ws|
  {
    if |ws| == 0 then [] else [Join(ws[0], sep)] + JoinEach(ws[1..], sep)
  }

  /** One step of the window loop: the window at i, joined, then those after it. */
  lemma WindowsStep(words: seq<string>, cs: nat, ov: nat, i: nat)
    requires ov < cs && i < |words|
    ensures Slice(words, i, i + cs) == words[i..Min(i + cs, |words|)]
    ensures JoinEach(WindowsFrom(words, cs, ov, i), " ")
      == [Join(Slice(words, i, i + cs), " ")]
         + (if i + cs >= |words| then [] else JoinEach(WindowsFrom(words, cs, ov, i + cs - ov), " "))
  {
    var w := Slice(words, i, i + cs);
    assert w == words[i..Min(i + cs, |words|)];
    var rest := WindowsFrom(words, cs, ov, i);
    if i + cs < |words| {
      assert rest[0] == w && rest[1..] == WindowsFrom(words, cs, ov, i + cs - ov);
    } else {
      assert words[i..Min(i + cs, |words|)] == words[i..];
      assert rest == [w] && rest[1..] == [];
    }
  }

  /** Moving the first pending content to the end of the contents keeps their
      concatenation. */
  lemma TakePending(before: seq<string>, after: seq<string>, pending: seq<string>)
    requires |pending| > 0 && after == before + [pending[0]]
    ensures before + pending == after + pending[1..]
  {
    assert pending == [pending[0]] + pending[1..];
  }

  /** k·step, written as repeated addition. */
  function Offset(k: nat, step: nat): nat {
    if k == 0 then 0 else Offset(k - 1, step) + step
  }

  lemma {:induction false} OffsetIsProduct(k: nat, step: nat)
    ensures Offset(k, step) == k * step
  {
    if k > 0 {
      OffsetIsProduct(k - 1, step);
      assert (k - 1) * step + step == k * step;
    }
  }

  /** Window k starts at word i + k·(cs − ov), holds the next cs words or as many
      as are left, and every window but the last leaves words after it. */
  lemma {:induction false} WindowAt(words: seq<string>, cs: nat, ov: nat, i: nat, k: nat)
    requires ov < cs && k < |WindowsFrom(words, cs, ov, i)|
    ensures var a := i + Offset(k, cs - ov);
      && a < |words|
      && WindowsFrom(words, cs, ov, i)[k] == words[a..Min(a + cs, |words|)]
      && (k < |WindowsFrom(words, cs, ov, i)| - 1 ==> a + cs < |words|)
    decreases k
  {
    if k > 0 {
      var step := cs - ov;
      var rest := WindowsFrom(words, cs, ov, i + step);
      assert WindowsFrom(words, cs, ov, i) == [words[i..i + cs]] + rest;
      WindowAt(words, cs, ov, i + step, k - 1);
    }
  }

  /** There is no window exactly when there are no words from i on, and the last
      window ends at the last word. */
  lemma {:induction false} WindowsLast(words: seq<string>, cs: nat, ov: nat, i: nat)
    requires ov < cs
    ensures var w := WindowsFrom(words, cs, ov, i);
      && (|w| == 0 <==> i >= |words|)
      && (|w| > 0 ==> i + Offset(|w| - 1, cs - ov) < |words|
                      && w[|w| - 1] == words[i + Offset(|w| - 1, cs - ov)..])
    decreases |words| - i
  {
    var w := WindowsFrom(words, cs, ov, i);
    if i < |words| && i + cs < |words| {
      var step := cs - ov;
      var rest := WindowsFrom(words, cs, ov, i + step);
      assert w == [words[i..i + cs]] + rest;
      WindowsLast(words, cs, ov, i + step);
    }
  }

  /** Every window is non-empty and has at most cs words. */
  lemma WindowsSize(words: seq<string>, cs: nat, ov: nat)
    requires ov < cs
    ensures forall k :: 0 <= k < |Windows(words, cs, ov)| ==>
      0 < |Windows(words, cs, ov)[k]| <= cs
  {
    forall k | 0 <= k < |Windows(words, cs, ov)| ensures 0 < |Windows(words, cs, ov)[k]| <= cs {
      WindowAt(words, cs, ov, 0, k);
    }
  }

  /** Consecutive windows share exactly `ov` words: a window that is not the last
      has cs words, and its last ov words are the first ov words of the next. */
  lemma WindowsOverlap(words: seq<string>, cs: nat, ov: nat, k: nat)
    requires ov < cs && k + 1 < |Windows(words, cs, ov)|
    ensures var w := Windows(words, cs, ov);
      |w[k]| == cs && ov <= |w[k + 1]| && w[k][cs - ov..] == w[k + 1][..ov]
  {
    var w := Windows(words, cs, ov);
    var step := cs - ov;
    WindowAt(words, cs, ov, 0, k);
    WindowAt(words, cs, ov, 0, k + 1);
    var a := Offset(k, step);
    assert Offset(k + 1, step) == a + step;
    assert a + cs < |words| && w[k] == words[a..a + cs];
    var b := Min(a + step + cs, |words|);
    assert a + cs <= b;
    assert w[k + 1] == words[a + step..b];
    assert w[k][step..] == words[a + step..a + cs];
    assert w[k + 1][..ov] == words[a + step..a + cs];
  }

  /** The first window, followed by the words each later window adds. */
  function Stitch(ws: seq<seq<string>>, step: nat): seq<string>
    decreases |ws|
  {
    if |ws| == 0 then []
    else if |ws| == 1 then ws[0]
    else ws[0][..Min(step, |ws[0]|)] + Stitch(ws[1..], step)
  }

  /** The windows cover the words from i on, in order, each exactly once once the
      overlap is taken away. */
  lemma {:induction false} WindowsCover(words: seq<string>, cs: nat, ov: nat, i: nat)
    requires ov < cs && i <= |words|
    ensures Stitch(WindowsFrom(words, cs, ov, i), cs - ov) == words[i..]
    decreases |words| - i
  {
    var w := WindowsFrom(words, cs, ov, i);
    if i < |words| && i + cs < |words| {
      var step := cs - ov;
      var first := words[i..i + cs];
      var rest := WindowsFrom(words, cs, ov, i + step);
      assert w == [first] + rest;
      assert Stitch(w, step) == first[..step] + Stitch(rest, step) by {
        assert w[0] == first && w[1..] == rest && |rest| > 0;
      }
      assert Stitch(rest, step) == words[i + step..] by {
        WindowsCover(words, cs, ov, i + step);
      }
      assert first[..step] == words[i..i + step];
      assert words[i..] == words[i..i + step] + words[i + step..];
    } else if i < |words| {
      assert w == [words[i..]];
    } else {
      assert w == [];
    }
  }

  /** Windows of a word list joined by a space split back into the same windows. */
  lemma WindowWords(words: seq<string>, cs: nat, ov: nat)
    requires ov < cs && WordList(words, Space)
    ensures var w := Windows(words, cs, ov);
      forall k :: 0 <= k < |w| ==> SplitWs(JoinEach(w, " ")[k]) == w[k]
  {
    var w := Windows(words, cs, ov);
    forall k | 0 <= k < |w| ensures SplitWs(JoinEach(w, " ")[k]) == w[k] {
      assert WordList(w[k], Space) && |w[k]| > 0 by {
        WindowAt(words, cs, ov, 0, k);
        var a := Offset(k, cs - ov);
        WordListSlice(words, a, Min(a + cs, |words|), Space);
      }
      JoinEachAt(w, " ", k);
      SplitJoinWords(w[k], " ", Space);
    }
  }

  lemma WordListSlice(ws: seq<string>, a: nat, b: nat, cls: CharClass)
    requires a <= b <= |ws| && WordList(ws, cls)
    ensures WordList(ws[a..b], cls)
  {
    assert forall m :: 0 <= m < b - a ==> ws[a..b][m] == ws[a + m];
  }

  lemma {:induction false} JoinEachAt(ws: seq<seq<string>>, sep: string, k: nat)
    requires k < |ws|
    ensures JoinEach(ws, sep)[k] == Join(ws[k], sep)
    decreases k
  {
    if k > 0 {
      JoinEachAt(ws[1..], sep, k - 1);
    }
  }

  // ---------------------------------------------------------------------------
  // the paragraph fold

  /** The fold's state between paragraphs: the contents emitted so far, the
      paragraph buffer `currentChunk` and its running count `currentWordCount`. */
  datatype Fold = Fold(emitted: seq<string>, buffer: seq<string>, count: int)

  /** The overlap text carried into the next buffer: the buffer's words after
      `join(' ').split(/\s+/)`, of which `slice(-min(overlap, n))` is kept. */
  function Carry(buffer: seq<string>, ov: nat): string {
    var prevWords := SplitWs(Join(buffer, " "));
    Join(SliceFrom(prevWords, -Min(ov, |prevWords|)), " ")
  }

  /** One iteration of the paragraph loop. */
  function FoldStep(f: Fold, paragraph: string, cs: nat, ov: nat): Fold
    requires ov < cs
  {
    var para := Trim(paragraph);
    var words := SplitWs(para);
    if |words| > cs then
      var windows := JoinEach(Windows(words, cs, ov), " ");
      if |f.buffer| > 0 then Fold(f.emitted + [Join(f.buffer, "\n\n")] + windows, [], 0)
      else Fold(f.emitted + windows, f.buffer, f.count)
    else if |words| + f.count > cs && |f.buffer| > 0 then
      Fold(f.emitted + [Join(f.buffer, "\n\n")], [Carry(f.buffer, ov), para], ov + |words|)
    else
      Fold(f.emitted, f.buffer + [para], f.count + |words|)
  }

  /** The state after the loop has run over all of `ps`. */
  function FoldAll(ps: seq<string>, cs: nat, ov: nat): Fold
    requires ov < cs
    decreases |ps|
  {
    if |ps| == 0 then Fold([], [], 0)
    else FoldStep(FoldAll(ps[..|ps| - 1], cs, ov), ps[|ps| - 1], cs, ov)
  }

  /** The contents the paragraph loop and the final flush emit. */
  function ParagraphChunks(ps: seq<string>, cs: nat, ov: nat): seq<string>
    requires ov < cs
  {
    var f := FoldAll(ps, cs, ov);
    if |f.buffer| > 0 then f.emitted + [Join(f.buffer, "\n\n")] else f.emitted
  }

  /** The contents of the chunks `chunkText` returns, in order. */
  function ChunkContents(text: string, cs: nat, ov: nat): seq<string>
    requires ov < cs
  {
    if Trim(text) == "" then []
    else
      var cleaned := Clean(text);
      var main := ParagraphChunks(Paragraphs(cleaned), cs, ov);
      if |main| == 0 && |cleaned| > 0 then JoinEach(Windows(SplitWs(cleaned), cs, ov), " ")
      else main
  }

  /** The state before the first paragraph's step. */
  lemma FoldAllOne(p: string, cs: nat, ov: nat)
    requires ov < cs
    ensures FoldAll([p], cs, ov) == FoldStep(Fold([], [], 0), p, cs, ov)
  {
    assert [p][..0] == [];
  }

  /** A text that is not blank cleans to one tidy paragraph. Its chunks are that
      paragraph whole when it has at most cs words and its word windows otherwise;
      either way the paragraph loop emits something, so the fallback split never runs. */
  lemma ChunkContentsOfText(text: string, cs: nat, ov: nat)
    requires ov < cs && Trim(text) != ""
    ensures var c := Clean(text);
      var w := SplitWs(c);
      && Tidy(c, Space)
      && Paragraphs(c) == [c]
      && |ParagraphChunks(Paragraphs(c), cs, ov)| > 0
      && ChunkContents(text, cs, ov) == if |w| > cs then JoinEach(Windows(w, cs, ov), " ") else [c]
  {
    var c := Clean(text);
    CleanNonEmpty(text);
    ParagraphsOfClean(text);
    CleanCollapsed(text);
    TrimSpec(CollapseSpaces(ReplaceAll(text, "\r\n", "\n")));
    TrimSpec(c);
    var w := SplitWs(c);
    var f0 := Fold([], [], 0);
    FoldAllOne(c, cs, ov);
    if |w| > cs {
      WindowsLast(w, cs, ov, 0);
      assert FoldStep(f0, c, cs, ov) == Fold(JoinEach(Windows(w, cs, ov), " "), [], 0);
    } else {
      assert FoldStep(f0, c, cs, ov) == Fold([], [c], |w|);
    }
  }

  /** `chunkText` returns no chunk exactly when the text is blank. */
  lemma ChunkContentsEmpty(text: string, cs: nat, ov: nat)
    requires ov < cs
    ensures ChunkContents(text, cs, ov) == [] <==> Trim(text) == ""
  {
    if Trim(text) != "" {
      ChunkContentsOfText(text, cs, ov);
      WindowsLast(SplitWs(Clean(text)), cs, ov, 0);
    }
  }

  /** The words of each chunk content, as `split(/\s+/)` gives them. */
  function WordsOf(contents: seq<string>): (r: seq<seq<string>>)
    ensures |r| == |contents|
  {
    seq(|contents|, k requires 0 <= k < |contents| => SplitWs(contents[k]))
  }

  /** Every chunk of a text has between 1 and cs words. */
  lemma ChunkWordCounts(text: string, cs: nat, ov: nat)
    requires ov < cs
    ensures var r := ChunkContents(text, cs, ov);
      forall k :: 0 <= k < |r| ==> 0 < |SplitWs(r[k])| <= cs
  {
    if Trim(text) != "" {
      ChunkContentsOfText(text, cs, ov);
      var c := Clean(text);
      var w := SplitWs(c);
      if |w| > cs {
        SplitTidy(c, Space);
        WindowWords(w, cs, ov);
        WindowsSize(w, cs, ov);
      }
    }
  }

  /** The chunks of a text cover its cleaned words in order: the first chunk's
      words, then the words each later chunk adds past the overlap. */
  lemma ChunkWordsCover(text: string, cs: nat, ov: nat)
    requires ov < cs && Trim(text) != ""
    ensures Stitch(WordsOf(ChunkContents(text, cs, ov)), cs - ov) == SplitWs(Clean(text))
  {
    ChunkContentsOfText(text, cs, ov);
    var c := Clean(text);
    var w := SplitWs(c);
    if |w| > cs {
      var ws := Windows(w, cs, ov);
      SplitTidy(c, Space);
      WindowWords(w, cs, ov);
      assert WordsOf(JoinEach(ws, " ")) == ws;
      WindowsCover(w, cs, ov, 0);
    } else {
      assert WordsOf([c]) == [w];
    }
  }

  /** Window k of the word split starts at word k·(cs − ov). */
  lemma WindowStart(words: seq<string>, cs: nat, ov: nat, k: nat)
    requires ov < cs && k < |Windows(words, cs, ov)|
    ensures k * (cs - ov) < |words|
    ensures Windows(words, cs, ov)[k] == words[k * (cs - ov)..Min(k * (cs - ov) + cs, |words|)]
  {
    WindowAt(words, cs, ov, 0, k);
    OffsetIsProduct(k, cs - ov);
  }

  /** The carried text. With an overlap ov > 0 it is the last min(ov, n) of the n
      buffered words; with ov = 0 it is all of them, since `slice(-0)` is `slice(0)`. */
  lemma CarryWords(buffer: seq<string>, ov: nat)
    requires Tidy(Join(buffer, " "), Space)
    ensures var pw := SplitWs(Join(buffer, " "));
      var n := if ov == 0 then |pw| else Min(ov, |pw|);
      SplitWs(Carry(buffer, ov)) == pw[|pw| - n..]
  {
    var pw := SplitWs(Join(buffer, " "));
    var n := if ov == 0 then |pw| else Min(ov, |pw|);
    SplitTidy(Join(buffer, " "), Space);
    assert SliceFrom(pw, -Min(ov, |pw|)) == pw[|pw| - n..];
    WordListSlice(pw, |pw| - n, |pw|, Space);
    assert " "[0] == ' ' && AllOf(" ", Space);
    SplitJoinWords(pw[|pw| - n..], " ", Space);
  }

  /** The running count `currentWordCount` never exceeds cs + ov, and it is 0
      whenever the buffer is empty. */
  predicate CountBounded(f: Fold, cs: nat, ov: nat) {
    0 <= f.count <= cs + ov && (f.buffer == [] ==> f.count == 0)
  }

  lemma {:induction false} FoldAllCount(ps: seq<string>, cs: nat, ov: nat)
    requires ov < cs
    ensures CountBounded(FoldAll(ps, cs, ov), cs, ov)
    decreases |ps|
  {
    if |ps| > 0 {
      FoldAllCount(ps[..|ps| - 1], cs, ov);
    }
  }

  // ---------------------------------------------------------------------------
  // the words of the fold's chunks

  /** The paragraphs the loop sees are never blank, as the filter on line 24
      guarantees. */
  predicate NonBlankParagraphs(ps: seq<string>) {
    forall k :: 0 <= k < |ps| ==> Trim(ps[k]) != ""
  }

  /** Every buffered entry is tidy text: a trimmed paragraph or a carried overlap. */
  predicate TidyEntries(b: seq<string>) {
    forall k :: 0 <= k < |b| ==> Tidy(b[k], Space)
  }

  lemma JoinTidy(parts: seq<string>, sep: string)
    requires |parts| > 0 && TidyEntries(parts)
    ensures Tidy(Join(parts, sep), Space)
  {
    JoinEnds(parts, sep);
  }

  lemma {:induction false} SplitEachAppend(b: seq<string>, x: string, cls: CharClass)
    ensures SplitEach(b + [x], cls) == SplitEach(b, cls) + Split(x, cls)
    decreases |b|
  {
    if |b| == 0 {
      assert SplitEach([x], cls) == Split(x, cls) + SplitEach([], cls);
    } else {
      assert (b + [x])[1..] == b[1..] + [x];
      SplitEachAppend(b[1..], x, cls);
    }
  }

  /** The words of a buffer, whether joined with a space or with a blank line,
      are the words of its entries in order. */
  lemma BufferWords(b: seq<string>)
    requires |b| > 0 && TidyEntries(b)
    ensures SplitWs(Join(b, " ")) == SplitEach(b, Space)
    ensures SplitWs(Join(b, "\n\n")) == SplitEach(b, Space)
  {
    assert " "[0] == ' ' && AllOf(" ", Space);
    assert "\n\n"[0] == '\n' && "\n\n"[1] == '\n' && AllOf("\n\n", Space);
    SplitJoin(b, " ", Space);
    SplitJoin(b, "\n\n", Space);
  }

  /** Words joined by a space make tidy text. */
  lemma JoinWordsTidy(ws: seq<string>)
    requires |ws| > 0 && WordList(ws, Space)
    ensures Tidy(Join(ws, " "), Space)
  {
    JoinEnds(ws, " ");
    var last := ws[|ws| - 1];
    assert |last| > 0 && NoneOf(last, Space);
  }

  /** The last words of a word list, joined by a space, make tidy text. */
  lemma TailWordsTidy(pw: seq<string>, m: nat)
    requires |pw| > 0 && WordList(pw, Space)
    ensures Tidy(Join(SliceFrom(pw, -(m as int)), " "), Space)
  {
    var t := SliceFrom(pw, -(m as int));
    SliceFromEnd(pw, m);
    assert |t| > 0 && pw[|pw| - |t|..|pw|] == t;
    WordListSlice(pw, |pw| - |t|, |pw|, Space);
    JoinWordsTidy(t);
  }

  /** The carried overlap of a tidy buffer is tidy text. */
  lemma CarryTidy(buffer: seq<string>, ov: nat)
    requires |buffer| > 0 && TidyEntries(buffer)
    ensures Tidy(Carry(buffer, ov), Space)
  {
    JoinTidy(buffer, " ");
    var pw := SplitWs(Join(buffer, " "));
    SplitTidy(Join(buffer, " "), Space);
    TailWordsTidy(pw, Min(ov, |pw|));
  }

  /** One step keeps the buffered entries tidy. */
  lemma FoldStepTidy(f: Fold, paragraph: string, cs: nat, ov: nat)
    requires ov < cs && TidyEntries(f.buffer) && Trim(paragraph) != ""
    ensures TidyEntries(FoldStep(f, paragraph, cs, ov).buffer)
  {
    TrimSpec(paragraph);
    if |f.buffer| > 0 {
      CarryTidy(f.buffer, ov);
    }
  }

  lemma {:induction false} FoldAllTidy(ps: seq<string>, cs: nat, ov: nat)
    requires ov < cs && NonBlankParagraphs(ps)
    ensures TidyEntries(FoldAll(ps, cs, ov).buffer)
    decreases |ps|
  {
    if |ps| > 0 {
      var q := ps[..|ps| - 1];
      assert forall k :: 0 <= k < |q| ==> q[k] == ps[k];
      FoldAllTidy(q, cs, ov);
      FoldStepTidy(FoldAll(q, cs, ov), ps[|ps| - 1], cs, ov);
    }
  }

  /** A flush-and-carry (lines 59-67): the emitted chunk is the buffer joined by
      blank lines, and the new buffer's words are the flushed chunk's last
      min(ov, n) of its n words, all n of them when ov = 0, followed by the
      paragraph's. With ov = 0 the new buffer therefore holds more words than the
      chunk just flushed, so successive chunks keep growing. */
  lemma FlushCarry(f: Fold, paragraph: string, cs: nat, ov: nat)
    requires ov < cs && |f.buffer| > 0 && TidyEntries(f.buffer) && Trim(paragraph) != ""
    requires |SplitWs(Trim(paragraph))| <= cs
    requires |SplitWs(Trim(paragraph))| + f.count > cs
    ensures var g := FoldStep(f, paragraph, cs, ov);
      var flushed := SplitWs(Join(f.buffer, "\n\n"));
      var n := if ov == 0 then |flushed| else Min(ov, |flushed|);
      && g.emitted == f.emitted + [Join(f.buffer, "\n\n")]
      && SplitEach(g.buffer, Space) == flushed[|flushed| - n..] + SplitWs(Trim(paragraph))
      && g.count == ov + |SplitWs(Trim(paragraph))|
      && (ov == 0 ==> |SplitEach(g.buffer, Space)| > |flushed|)
  {
    var para := Trim(paragraph);
    var b := f.buffer;
    JoinTidy(b, " ");
    BufferWords(b);
    CarryWords(b, ov);
    var c := Carry(b, ov);
    var g := FoldStep(f, paragraph, cs, ov);
    assert g.buffer == [c, para];
    assert SplitEach([c, para], Space) == Split(c, Space) + Split(para, Space) by {
      assert [c, para][1..] == [para];
      assert SplitEach([para], Space) == Split(para, Space) + SplitEach([], Space);
    }
  }

  /** Every chunk in the list holds at most `bound` words. */
  predicate WithinWords(contents: seq<string>, bound: nat) {
    forall k :: 0 <= k < |contents| ==> |SplitWs(contents[k])| <= bound
  }

  /** What the fold keeps when ov > 0: the buffer is tidy and holds at most
      `count` words, and every chunk emitted so far at most cs + ov. */
  predicate WordsBounded(f: Fold, cs: nat, ov: nat) {
    && CountBounded(f, cs, ov)
    && TidyEntries(f.buffer)
    && |SplitEach(f.buffer, Space)| <= f.count
    && WithinWords(f.emitted, cs + ov)
  }

  /** The windows of an oversized paragraph hold at most cs words each. */
  lemma WindowsWithin(words: seq<string>, cs: nat, ov: nat)
    requires ov < cs && WordList(words, Space)
    ensures WithinWords(JoinEach(Windows(words, cs, ov), " "), cs)
  {
    WindowWords(words, cs, ov);
    WindowsSize(words, cs, ov);
  }

  lemma WordsBoundedStep(f: Fold, paragraph: string, cs: nat, ov: nat)
    requires 0 < ov < cs && WordsBounded(f, cs, ov) && Trim(paragraph) != ""
    ensures WordsBounded(FoldStep(f, paragraph, cs, ov), cs, ov)
  {
    var para := Trim(paragraph);
    var words := SplitWs(para);
    var g := FoldStep(f, paragraph, cs, ov);
    TrimSpec(paragraph);
    FoldStepTidy(f, paragraph, cs, ov);
    var flush := [Join(f.buffer, "\n\n")];
    if |f.buffer| > 0 {
      BufferWords(f.buffer);
      assert WithinWords(f.emitted + flush, cs + ov);
    }
    if |words| > cs {
      SplitTidy(para, Space);
      var windows := JoinEach(Windows(words, cs, ov), " ");
      WindowsWithin(words, cs, ov);
      if |f.buffer| > 0 {
        assert g.emitted == (f.emitted + flush) + windows;
      } else {
        assert g.emitted == f.emitted + windows;
      }
    } else if |words| + f.count > cs && |f.buffer| > 0 {
      FlushCarry(f, paragraph, cs, ov);
    } else {
      SplitEachAppend(f.buffer, para, Space);
    }
  }

  lemma {:induction false} FoldAllWords(ps: seq<string>, cs: nat, ov: nat)
    requires 0 < ov < cs && NonBlankParagraphs(ps)
    ensures WordsBounded(FoldAll(ps, cs, ov), cs, ov)
    decreases |ps|
  {
    if |ps| > 0 {
      var q := ps[..|ps| - 1];
      assert forall k :: 0 <= k < |q| ==> q[k] == ps[k];
      FoldAllWords(q, cs, ov);
      WordsBoundedStep(FoldAll(q, cs, ov), ps[|ps| - 1], cs, ov);
    }
  }

  /** With an overlap ov > 0, every chunk of the paragraph loop holds at most
      cs + ov words: a buffer flushed after a carry holds the ov carried words on
      top of as many as cs new ones. */
  lemma ParagraphChunkWords(ps: seq<string>, cs: nat, ov: nat)
    requires 0 < ov < cs && NonBlankParagraphs(ps)
    ensures WithinWords(ParagraphChunks(ps, cs, ov), cs + ov)
  {
    var f := FoldAll(ps, cs, ov);
    FoldAllWords(ps, cs, ov);
    if |f.buffer| > 0 {
      BufferWords(f.buffer);
      assert WithinWords(f.emitted + [Join(f.buffer, "\n\n")], cs + ov);
    }
  }

  /** Two words joined by a space make a paragraph of exactly those two words. */
  lemma TwoWords(u: string, v: string)
    requires WordList([u, v], Space)
    ensures Trim(u + " " + v) == u + " " + v
    ensures SplitWs(u + " " + v) == [u, v]
  {
    assert Join([u, v], " ") == u + " " + v by {
      assert [u, v][1..] == [v];
    }
    assert " "[0] == ' ' && AllOf(" ", Space);
    SplitJoinWords([u, v], " ", Space);
    JoinEnds([u, v], " ");
    TrimSpec(u + " " + v);
  }

  /** The carry of a two-word buffer with overlap 1 is its last word. */
  lemma CarryOfPair(u: string, v: string)
    requires WordList([u, v], Space)
    ensures Carry([u + " " + v], 1) == v
  {
    TwoWords(u, v);
    assert SliceFrom([u, v], -1) == [v];
  }

  /** The fold of two two-word paragraphs with chunkSize 2 and overlap 1: the
      first paragraph fills the buffer, the second flushes it and carries the
      first paragraph's last word. */
  lemma FoldOfPairs(u: string, v: string, x: string, y: string)
    requires WordList([u, v], Space) && WordList([x, y], Space)
    ensures FoldAll([u + " " + v, x + " " + y], 2, 1) == Fold([u + " " + v], [v, x + " " + y], 3)
  {
    var p, q := u + " " + v, x + " " + y;
    TwoWords(u, v);
    TwoWords(x, y);
    var f1 := Fold([], [p], 2);
    assert FoldAll([p], 2, 1) == f1 by {
      FoldAllOne(p, 2, 1);
    }
    assert [p, q][..1] == [p];
    CarryOfPair(u, v);
  }

  /** The chunk "v\n\nx y" holds the three words v, x and y. */
  lemma PairChunkWords(v: string, x: string, y: string)
    requires WordList([v], Space) && WordList([x, y], Space)
    ensures SplitWs(v + "\n\n" + (x + " " + y)) == [v, x, y]
  {
    var q := x + " " + y;
    assert Join([v, q], "\n\n") == v + "\n\n" + q by {
      assert [v, q][1..] == [q];
    }
    TwoWords(x, y);
    assert [v][0] == v && [x, y][0] == x && [x, y][1] == y;
    assert Tidy(q, Space) by {
      JoinWordsTidy([x, y]);
      assert Join([x, y], " ") == q by {
        assert [x, y][1..] == [y];
      }
    }
    SplitNoSep(v, Space);
    assert TidyEntries([v, q]);
    BufferWords([v, q]);
    assert SplitEach([v, q], Space) == [v, x, y] by {
      assert [v, q][1..] == [q];
      assert SplitEach([q], Space) == Split(q, Space) + SplitEach([], Space);
    }
  }

  /** With chunkSize 2 and overlap 1, the paragraphs "u v" and "x y" give the
      chunks "u v" and "v\n\nx y" (for "a b" and "c d": "a b" and "b\n\nc d"):
      the carried word makes the second chunk three words long, one more than
      chunkSize. */
  lemma CarryExceedsChunkSize(u: string, v: string, x: string, y: string)
    requires WordList([u, v], Space) && WordList([x, y], Space)
    ensures ParagraphChunks([u + " " + v, x + " " + y], 2, 1) == [u + " " + v, v + "\n\n" + (x + " " + y)]
    ensures SplitWs(v + "\n\n" + (x + " " + y)) == [v, x, y]
  {
    var q := x + " " + y;
    FoldOfPairs(u, v, x, y);
    assert Join([v, q], "\n\n") == v + "\n\n" + q by {
      assert [v, q][1..] == [q];
    }
    assert [u, v][1] == v;
    PairChunkWords(v, x, y);
  }

  /** The instance "a b", "c d": the chunks are "a b" and "b\n\nc d". */
  lemma CarryExceedsExample()
    ensures ParagraphChunks(["a b", "c d"], 2, 1) == ["a b", "b\n\nc d"]
    ensures |SplitWs("b\n\nc d")| == 3
  {
    assert "a" + " " + "b" == "a b" && "c" + " " + "d" == "c d";
    assert "b" + "\n\n" + ("c" + " " + "d") == "b\n\nc d";
    CarryExceedsChunkSize("a", "b", "c", "d");
  }

  /** A paragraph only appends chunks: what was emitted before stays in front. */
  lemma {:induction false} FoldAllPrefix(ps: seq<string>, n: nat, cs: nat, ov: nat)
    requires ov < cs && n <= |ps|
    ensures FoldAll(ps[..n], cs, ov).emitted <= FoldAll(ps, cs, ov).emitted
    decreases |ps| - n
  {
    if n < |ps| {
      var q := ps[..|ps| - 1];
      assert q[..n] == ps[..n];
      FoldAllPrefix(q, n, cs, ov);
    } else {
      assert ps[..n] == ps;
    }
  }

  /** The contents of a list of chunks, in order. */
  function ContentsOf(chunks: seq<Chunk>): seq<string> {
    seq(|chunks|, k requires 0 <= k < |chunks| => chunks[k].content)
  }

  /** Chunk k carries index k and page 0. */
  predicate Numbering(chunks: seq<Chunk>) {
    forall k :: 0 <= k < |chunks| ==> chunks[k].chunkIndex == k && chunks[k].pageNumber == 0
  }

  /** Numbering keeps the contents and their order and gives chunk k index k on
      page 0. */
  lemma NumberedContents(contents: seq<string>)
    ensures Numbering(Numbered(contents)) && ContentsOf(Numbered(contents)) == contents
  {
  }

  lemma NumberingIsNumbered(chunks: seq<Chunk>)
    requires Numbering(chunks)
    ensures chunks == Numbered(ContentsOf(chunks))
  {
  }

  // ---------------------------------------------------------------------------
  // the imperative chunker

  /** The `chunks` array of `chunkText` with the `chunkIndex` counter that the
      `pushChunk` closure increments. */
  class ChunkWriter {
    var chunks: seq<Chunk>
    var chunkIndex: int

    /** The counter is the number of chunks pushed, and chunk k carries index k
        and page 0. */
    predicate Valid()
      reads this
    {
      chunkIndex == |chunks| && Numbering(chunks)
    }

    function Contents(): seq<string>
      reads this
    {
      ContentsOf(chunks)
    }

    constructor()
      ensures Valid() && chunks == []
    {
      chunks := [];
      chunkIndex := 0;
    }

    /** `pushChunk(words, joinStr)`. */
    method PushChunk(words: seq<string>, joinStr: string)
      requires Valid()
      modifies this
      ensures Valid()
      ensures Contents() == old(Contents()) + [Join(words, joinStr)]
    {
      chunks := chunks + [Chunk(Join(words, joinStr), chunkIndex, 0)];
      chunkIndex := chunkIndex + 1;
    }

    /** The window loop: lines 51-56 for an oversized paragraph and lines 82-87
        for the fallback. */
    method PushWindows(words: seq<string>, chunkSize: nat, overlap: nat)
      requires Valid() && overlap < chunkSize
      modifies this
      ensures Valid()
      ensures Contents() == old(Contents()) + JoinEach(Windows(words, chunkSize, overlap), " ")
    {
      ghost var pending := JoinEach(Windows(words, chunkSize, overlap), " ");
      ghost var target := Contents() + pending;
      var i: nat := 0;
      while i < |words|
        invariant Valid()
        invariant pending == JoinEach(WindowsFrom(words, chunkSize, overlap, i), " ")
        invariant Contents() + pending == target
        invariant i < |words| || pending == []
        decreases |words| - i
      {
        var chunkWords := Slice(words, i, i + chunkSize);
        WindowsStep(words, chunkSize, overlap, i);
        ghost var before := Contents();
        PushChunk(chunkWords, " ");
        TakePending(before, Contents(), pending);
        pending := pending[1..];
        if i + chunkSize >= |words| {
          break;
        }
        i := i + chunkSize - overlap;
      }
    }

    /** One iteration of the paragraph loop (lines 40-71), on the buffer
        `currentChunk` and its count `currentWordCount`, which it returns updated;
        `f` is the fold state they belong to and `base` what was emitted before it. */
    method AddParagraph(ghost base: seq<string>, ghost f: Fold, currentChunk: seq<string>,
                        currentWordCount: int, paragraph: string, chunkSize: nat, overlap: nat)
      returns (nextChunk: seq<string>, nextWordCount: int)
      requires Valid() && overlap < chunkSize
      requires Contents() == base + f.emitted
      requires currentChunk == f.buffer && currentWordCount == f.count
      modifies this
      ensures Valid()
      ensures Contents() == base + FoldStep(f, paragraph, chunkSize, overlap).emitted
      ensures nextChunk == FoldStep(f, paragraph, chunkSize, overlap).buffer
      ensures nextWordCount == FoldStep(f, paragraph, chunkSize, overlap).count
    {
      var para := Trim(paragraph);
      var paragraphWords := SplitWs(para);
      ghost var flush := [Join(currentChunk, "\n\n")];
      ghost var windows := JoinEach(Windows(paragraphWords, chunkSize, overlap), " ");
      nextChunk, nextWordCount := currentChunk, currentWordCount;
      if |paragraphWords| > chunkSize {
        if |currentChunk| > 0 {
          PushChunk(currentChunk, "\n\n");
          nextChunk := [];
          nextWordCount := 0;
        }
        PushWindows(paragraphWords, chunkSize, overlap);
        if |currentChunk| > 0 {
          assert FoldStep(f, paragraph, chunkSize, overlap) == Fold(f.emitted + flush + windows, [], 0);
          assert base + f.emitted + flush + windows == base + (f.emitted + flush + windows);
        } else {
          assert FoldStep(f, paragraph, chunkSize, overlap) == Fold(f.emitted + windows, f.buffer, f.count);
          assert base + f.emitted + windows == base + (f.emitted + windows);
        }
      } else if |paragraphWords| + currentWordCount > chunkSize && |currentChunk| > 0 {
        PushChunk(currentChunk, "\n\n");
        var prevWords := SplitWs(Join(currentChunk, " "));
        var overlapText := Join(SliceFrom(prevWords, -Min(overlap, |prevWords|)), " ");
        nextChunk := [overlapText, para];
        nextWordCount := overlap + |paragraphWords|;
        assert FoldStep(f, paragraph, chunkSize, overlap)
          == Fold(f.emitted + flush, [Carry(f.buffer, overlap), para], overlap + |paragraphWords|);
        assert base + f.emitted + flush == base + (f.emitted + flush);
      } else {
        nextChunk := currentChunk + [para];
        nextWordCount := currentWordCount + |paragraphWords|;
        assert FoldStep(f, paragraph, chunkSize, overlap)
          == Fold(f.emitted, f.buffer + [para], f.count + |paragraphWords|);
      }
    }

    /** The paragraph loop and the final flush (lines 39-77). */
    method AddParagraphs(paragraphs: seq<string>, chunkSize: nat, overlap: nat)
      requires Valid() && overlap < chunkSize
      modifies this
      ensures Valid()
      ensures Contents() == old(Contents()) + ParagraphChunks(paragraphs, chunkSize, overlap)
    {
      var currentChunk: seq<string> := [];
      var currentWordCount := 0;
      for n := 0 to |paragraphs|
        invariant Valid()
        invariant Contents() == old(Contents()) + FoldAll(paragraphs[..n], chunkSize, overlap).emitted
        invariant currentChunk == FoldAll(paragraphs[..n], chunkSize, overlap).buffer
        invariant currentWordCount == FoldAll(paragraphs[..n], chunkSize, overlap).count
      {
        ghost var f := FoldAll(paragraphs[..n], chunkSize, overlap);
        currentChunk, currentWordCount :=
          AddParagraph(old(Contents()), f, currentChunk, currentWordCount, paragraphs[n], chunkSize, overlap);
        assert FoldAll(paragraphs[..n + 1], chunkSize, overlap) == FoldStep(f, paragraphs[n], chunkSize, overlap) by {
          assert paragraphs[..n + 1][..n] == paragraphs[..n];
        }
      }
      assert paragraphs[..|paragraphs|] == paragraphs;
      ghost var fin := FoldAll(paragraphs, chunkSize, overlap);
      if |currentChunk| > 0 {
        PushChunk(currentChunk, "\n\n");
        assert ParagraphChunks(paragraphs, chunkSize, overlap) == fin.emitted + [Join(fin.buffer, "\n\n")];
      } else {
        assert ParagraphChunks(paragraphs, chunkSize, overlap) == fin.emitted;
      }
    }
  }

  /** `chunkText(text, chunkSize, overlap)`. */
  method ChunkText(text: string, chunkSize: nat := DefaultChunkSize, overlap: nat := DefaultOverlap) returns (chunks: seq<Chunk>)
    requires overlap < chunkSize
    ensures chunks == Numbered(ChunkContents(text, chunkSize, overlap))
    ensures Numbering(chunks) && ContentsOf(chunks) == ChunkContents(text, chunkSize, overlap)
    ensures chunks == [] <==> Trim(text) == ""
  {
    ChunkContentsEmpty(text, chunkSize, overlap);
    NumberedContents(ChunkContents(text, chunkSize, overlap));
    ghost var expected := ChunkContents(text, chunkSize, overlap);
    if Trim(text) == "" {
      assert expected == [];
      return [];
    }
    var cleanedText := Clean(text);
    var paragraphs := Paragraphs(cleanedText);
    var writer := new ChunkWriter();
    writer.AddParagraphs(paragraphs, chunkSize, overlap);
    ghost var main := ParagraphChunks(paragraphs, chunkSize, overlap);
    assert writer.Contents() == main;
    if |writer.chunks| == 0 && |cleanedText| > 0 {
      var words := SplitWs(cleanedText);
      writer.PushWindows(words, chunkSize, overlap);
      assert expected == JoinEach(Windows(words, chunkSize, overlap), " ");
    } else {
      assert expected == main;
    }
    assert writer.Contents() == expected;
    chunks := writer.chunks;
    NumberingIsNumbered(chunks);
  }
}
