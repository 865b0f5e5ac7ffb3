/**
 * `findRelevantChunks`: the stored chunks of a document are scored against a
 * question by keyword matching, the chunks that match nothing are dropped, and
 * the best `maxChunks` are returned, best first.
 *
 * The score is kept exact. Twice the raw score is an integer (the weights are 3
 * and 1.5), and the final score, raw / sqrt(words) * positionBonus, is
 * represented by its square raw^2 / words * positionBonus^2 as a real; both are
 * non-negative, so the square orders the chunks as the score does.
 */
module Ranker {
  import opened JsStrings
  import Chunker

  type Chunk = Chunker.Chunk

  const DefaultMaxChunks := 3

  const StopWords: set<string> := {
    "the", "is", "at", "which", "on", "a", "an", "and", "or", "but",
    "in", "with", "to", "for", "of", "as", "by", "this", "that", "it"
  }

  // ---------------------------------------------------------------------------
  // query words

  /** A query word that is kept: longer than two characters and not a stop word. */
  predicate IsTerm(w: string) {
    |w| > 2 && w !in StopWords
  }

  predicate AllTerms(ws: seq<string>) {
    forall k :: 0 <= k < |ws| ==> IsTerm(ws[k])
  }

  /** `.filter((w) => w.length > 2 && !stopWords.has(w))`. */
  function KeepTerms(ws: seq<string>): seq<string>
    decreases |ws|
  {
    if |ws| == 0 then []
    else (if IsTerm(ws[0]) then [ws[0]] else []) + KeepTerms(ws[1..])
  }

  /** `query.toLowerCase().split(/\s+/).filter(...)`. */
  function QueryWords(query: string): (r: seq<string>)
    ensures AllTerms(r)
  {
    KeepTermsSpec(SplitWs(ToLower(query)));
    KeepTerms(SplitWs(ToLower(query)))
  }

  /** The kept words are exactly the split words that are terms, and no others. */
  lemma {:induction false} KeepTermsSpec(ws: seq<string>)
    ensures AllTerms(KeepTerms(ws))
    ensures forall w :: w in KeepTerms(ws) <==> w in ws && IsTerm(w)
    ensures |KeepTerms(ws)| <= |ws|
    decreases |ws|
  {
    if |ws| > 0 {
      KeepTermsSpec(ws[1..]);
      assert ws == [ws[0]] + ws[1..];
    }
  }

  lemma QueryWordsSpec(query: string)
    ensures forall w :: w in QueryWords(query) <==> w in SplitWs(ToLower(query)) && IsTerm(w)
  {
    KeepTermsSpec(SplitWs(ToLower(query)));
  }

  // ---------------------------------------------------------------------------
  // scoring one chunk

  /** Twice what query word w adds to the score of the lower-cased content:
      3 per whole-word match and 1.5 per match anywhere. */
  function TermScore2(content: string, w: string): nat
    requires |w| > 0
  {
    6 * CountWholeWords(content, w, 0) + 3 * CountMatches(content, w, 0)
  }

  /** Twice the score the loop over the query words accumulates. */
  function TermsScore2(content: string, qws: seq<string>): nat
    requires AllTerms(qws)
    decreases |qws|
  {
    if |qws| == 0 then 0
    else TermsScore2(content, qws[..|qws| - 1]) + TermScore2(content, qws[|qws| - 1])
  }

  /** `uniqueWords`: how many query words, repetitions included, occur in the content. */
  function Matched(content: string, qws: seq<string>): nat
    requires AllTerms(qws)
    decreases |qws|
  {
    if |qws| == 0 then 0
    else Matched(content, qws[..|qws| - 1]) + (if Contains(content, qws[|qws| - 1]) then 1 else 0)
  }

  /** Twice the bonus for several matching query words. */
  function Bonus2(m: nat): nat {
    if m > 1 then 4 * m else 0
  }

  /** Twice `rawScore`. */
  function RawScore2(content: string, qws: seq<string>): nat
    requires AllTerms(qws)
  {
    TermsScore2(content, qws) + Bonus2(Matched(content, qws))
  }

  /** `1 - (index / n) * 0.1`. */
  function PositionBonus(index: nat, n: nat): real
    requires index < n
  {
    1.0 - (index as real / n as real) * 0.1
  }

  /** The square of `(raw / Math.sqrt(words)) * bonus`, for raw = raw2 / 2. */
  function ScoreSquared(raw2: nat, words: nat, bonus: real): real
    requires words > 0
  {
    var raw := (raw2 as real) / 2.0;
    ((raw * raw) / (words as real)) * (bonus * bonus)
  }

  /** A scored chunk as the map callback returns it, without `_id`. */
  datatype ScoredChunk = ScoredChunk(content: string, chunkIndex: int, pageNumber: int,
                                     scoreSquared: real, rawScore: real, matchedWords: nat)

  /** The record for the chunk at position index of n. */
  function ScoreOf(chunk: Chunk, index: nat, n: nat, qws: seq<string>): ScoredChunk
    requires index < n && AllTerms(qws)
  {
    var content := ToLower(chunk.content);
    var raw2 := RawScore2(content, qws);
    ScoredChunk(chunk.content, chunk.chunkIndex, chunk.pageNumber,
                ScoreSquared(raw2, |SplitWs(content)|, PositionBonus(index, n)),
                raw2 as real / 2.0, Matched(content, qws))
  }

  /** The position bonus lies in (0.9, 1]. */
  lemma PositionBonusRange(index: nat, n: nat)
    requires index < n
    ensures 0.9 < PositionBonus(index, n) <= 1.0
  {
    var q := index as real / n as real;
    assert q * n as real == index as real;
    assert 0.0 <= q < 1.0;
  }

  /** Real product and quotient as functions, so that facts proved about one
      application carry over to equal arguments. */
  function Mul(a: real, b: real): real {
    a * b
  }

  function Div(a: real, b: real): real
    requires b != 0.0
  {
    a / b
  }

  lemma MulPositive(a: real, b: real)
    requires a > 0.0 && b > 0.0
    ensures Mul(a, b) > 0.0
  {
  }

  lemma DivPositive(a: real, b: real)
    requires a > 0.0 && b > 0.0
    ensures Div(a, b) > 0.0
  {
  }

  /** The squared score is positive exactly when the raw score is. */
  lemma ScoreSquaredPositive(raw2: nat, words: nat, bonus: real)
    requires words > 0 && bonus > 0.0
    ensures ScoreSquared(raw2, words, bonus) > 0.0 <==> raw2 > 0
  {
    var raw := (raw2 as real) / 2.0;
    assert ScoreSquared(raw2, words, bonus) == Mul(Div(Mul(raw, raw), words as real), Mul(bonus, bonus));
    if raw2 > 0 {
      MulPositive(raw, raw);
      DivPositive(Mul(raw, raw), words as real);
      MulPositive(bonus, bonus);
      MulPositive(Div(Mul(raw, raw), words as real), Mul(bonus, bonus));
    } else {
      assert Mul(raw, raw) == 0.0;
    }
  }

  /** A query word adds to the score exactly when it occurs in the content. */
  lemma TermScorePositive(content: string, w: string)
    requires |w| > 0
    ensures TermScore2(content, w) > 0 <==> Contains(content, w)
  {
    CountMatchesPositive(content, w, 0);
    if CountWholeWords(content, w, 0) > 0 {
      WholeWordsOccur(content, w, 0);
    }
  }

  lemma {:induction false} TermsScorePositive(content: string, qws: seq<string>)
    requires AllTerms(qws)
    ensures TermsScore2(content, qws) > 0 <==> Matched(content, qws) > 0
    decreases |qws|
  {
    if |qws| > 0 {
      TermsScorePositive(content, qws[..|qws| - 1]);
      TermScorePositive(content, qws[|qws| - 1]);
    }
  }

  /** `Matched` counts the query words found in the content. */
  lemma {:induction false} MatchedSpec(content: string, qws: seq<string>)
    requires AllTerms(qws)
    ensures Matched(content, qws) <= |qws|
    ensures Matched(content, qws) > 0 <==> exists k :: 0 <= k < |qws| && Contains(content, qws[k])
    decreases |qws|
  {
    if |qws| > 0 {
      var init := qws[..|qws| - 1];
      MatchedSpec(content, init);
      assert forall k :: 0 <= k < |init| ==> init[k] == qws[k];
    }
  }

  /** The score is positive exactly when the raw score is, which is exactly when some
      query word occurs in the lower-cased content. */
  lemma ScoreOfPositive(chunk: Chunk, index: nat, n: nat, qws: seq<string>)
    requires index < n && AllTerms(qws)
    ensures var s := ScoreOf(chunk, index, n, qws);
      && s.rawScore >= 0.0
      && (s.scoreSquared > 0.0 <==> s.rawScore > 0.0)
      && (s.rawScore > 0.0 <==> s.matchedWords > 0)
      && (s.matchedWords > 0 <==> ContainsAny(ToLower(chunk.content), qws))
  {
    var content := ToLower(chunk.content);
    var raw2 := RawScore2(content, qws);
    PositionBonusRange(index, n);
    ScoreSquaredPositive(raw2, |SplitWs(content)|, PositionBonus(index, n));
    TermsScorePositive(content, qws);
    MatchedSpec(content, qws);
  }

  // ---------------------------------------------------------------------------
  // filter, sort, slice

  /** The comparator of the sort returns a negative number: a comes first when its
      score is higher, then when it matched more words, then when its chunkIndex is
      lower. */
  predicate Before(a: ScoredChunk, b: ScoredChunk) {
    a.scoreSquared > b.scoreSquared
    || (a.scoreSquared == b.scoreSquared
        && (a.matchedWords > b.matchedWords
            || (a.matchedWords == b.matchedWords && a.chunkIndex < b.chunkIndex)))
  }

  /** No entry comes before one that precedes it. */
  predicate Ordered(s: seq<ScoredChunk>) {
    forall i, j :: 0 <= i < j < |s| ==> !Before(s[j], s[i])
  }

  /** No chunk comes before itself, and of two chunks at most one comes before
      the other. */
  lemma BeforeStrict(a: ScoredChunk, b: ScoredChunk)
    ensures !Before(a, a)
    ensures Before(a, b) ==> !Before(b, a)
  {
  }

  /** "Not before" is transitive; with `BeforeStrict` this makes the comparator a
      strict weak order. */
  lemma NotBeforeTrans(a: ScoredChunk, b: ScoredChunk, c: ScoredChunk)
    requires !Before(a, b) && !Before(b, c)
    ensures !Before(a, c)
  {
  }

  /** `Array.prototype.sort` with the comparator, which is stable: an insertion sort
      that puts each entry in front of the later entries it ties with. */
  function Sort(s: seq<ScoredChunk>): seq<ScoredChunk>
    decreases |s|
  {
    if |s| == 0 then [] else InsertFront(s[0], Sort(s[1..]))
  }

  /** Places x, which came before every entry of s, in front of the first entry
      that does not come before it. */
  function InsertFront(x: ScoredChunk, s: seq<ScoredChunk>): seq<ScoredChunk>
    decreases |s|
  {
    if |s| == 0 then [x]
    else if Before(s[0], x) then [s[0]] + InsertFront(x, s[1..])
    else [x] + s
  }

  lemma {:induction false} InsertFrontMembers(x: ScoredChunk, s: seq<ScoredChunk>)
    ensures multiset(InsertFront(x, s)) == multiset(s) + multiset{x}
    decreases |s|
  {
    if |s| > 0 && Before(s[0], x) {
      InsertFrontMembers(x, s[1..]);
      assert s == [s[0]] + s[1..];
    }
  }

  /** No entry of s comes before y. */
  predicate NoneBefore(s: seq<ScoredChunk>, y: ScoredChunk) {
    forall k :: 0 <= k < |s| ==> !Before(s[k], y)
  }

  lemma OrderedCons(y: ScoredChunk, s: seq<ScoredChunk>)
    requires Ordered(s) && NoneBefore(s, y)
    ensures Ordered([y] + s)
  {
    var r := [y] + s;
    forall i, j | 0 <= i < j < |r| ensures !Before(r[j], r[i]) {
      assert r[j] == s[j - 1];
      if i > 0 {
        assert r[i] == s[i - 1];
      }
    }
  }

  lemma OrderedTail(s: seq<ScoredChunk>)
    requires Ordered(s) && |s| > 0
    ensures Ordered(s[1..])
  {
    var t := s[1..];
    forall i, j | 0 <= i < j < |t| ensures !Before(t[j], t[i]) {
      assert t[i] == s[i + 1] && t[j] == s[j + 1];
    }
  }

  lemma {:induction false} InsertFrontOrdered(x: ScoredChunk, s: seq<ScoredChunk>)
    requires Ordered(s)
    ensures Ordered(InsertFront(x, s))
    decreases |s|
  {
    if |s| > 0 {
      var tail := s[1..];
      OrderedTail(s);
      if Before(s[0], x) {
        var rest := InsertFront(x, tail);
        InsertFrontOrdered(x, tail);
        assert NoneBefore(rest, s[0]) by {
          InsertFrontMembers(x, tail);
          forall k | 0 <= k < |rest| ensures !Before(rest[k], s[0]) {
            var y := rest[k];
            assert y in multiset(rest);
            if y != x {
              assert y in multiset(tail);
              var m :| 0 <= m < |tail| && tail[m] == y;
              assert s[m + 1] == y;
            }
          }
        }
        OrderedCons(s[0], rest);
      } else {
        assert NoneBefore(s, x) by {
          forall k | 0 <= k < |s| ensures !Before(s[k], x) {
            if k > 0 {
              NotBeforeTrans(s[k], s[0], x);
            }
          }
        }
        OrderedCons(x, s);
      }
    }
  }

  /** The sort returns an ordered permutation of its input. */
  lemma {:induction false} SortSpec(s: seq<ScoredChunk>)
    ensures Ordered(Sort(s))
    ensures multiset(Sort(s)) == multiset(s)
    decreases |s|
  {
    if |s| > 0 {
      SortSpec(s[1..]);
      InsertFrontOrdered(s[0], Sort(s[1..]));
      InsertFrontMembers(s[0], Sort(s[1..]));
      assert s == [s[0]] + s[1..];
    }
  }

  /** `.filter((chunk) => chunk.score > 0 || chunk.rawScore > 0)`. */
  function Kept(s: seq<ScoredChunk>): seq<ScoredChunk>
    decreases |s|
  {
    if |s| == 0 then []
    else (if s[0].scoreSquared > 0.0 || s[0].rawScore > 0.0 then [s[0]] else []) + Kept(s[1..])
  }

  lemma {:induction false} KeptSpec(s: seq<ScoredChunk>)
    ensures forall e :: e in Kept(s) <==> e in s && (e.scoreSquared > 0.0 || e.rawScore > 0.0)
    ensures |Kept(s)| <= |s|
    decreases |s|
  {
    if |s| > 0 {
      KeptSpec(s[1..]);
      assert s == [s[0]] + s[1..];
    }
  }

  /** `chunks.map(...)`: every chunk scored, in order. */
  function ScoreAll(chunks: seq<Chunk>, qws: seq<string>): (r: seq<ScoredChunk>)
    requires AllTerms(qws)
    ensures |r| == |chunks|
  {
    seq(|chunks|, k requires 0 <= k < |chunks| => ScoreOf(chunks[k], k, |chunks|, qws))
  }

  /** An entry of the no-keyword branch: content and chunkIndex, and under the key
      `pageNumber` the whole chunk object, as the source writes it. */
  datatype PlainChunk = PlainChunk(content: string, chunkIndex: int, pageNumber: Chunk)

  function Plain(chunks: seq<Chunk>): (r: seq<PlainChunk>)
    ensures |r| == |chunks|
  {
    seq(|chunks|, k requires 0 <= k < |chunks| =>
      PlainChunk(chunks[k].content, chunks[k].chunkIndex, chunks[k]))
  }

  /** The array `findRelevantChunks` returns: the first chunks unscored when the
      query has no usable word, the ranking otherwise. */
  datatype Relevance = Unranked(plain: seq<PlainChunk>) | Ranked(ranked: seq<ScoredChunk>)
  {
    function Size(): nat {
      match this
      case Unranked(p) => |p|
      case Ranked(r) => |r|
    }
  }

  /** What `findRelevantChunks(chunks, query, maxChunks)` returns. */
  function Relevant(chunks: seq<Chunk>, query: string, maxChunks: int): Relevance {
    if |chunks| == 0 || query == "" then Ranked([])
    else
      var qws := QueryWords(query);
      if |qws| == 0 then Unranked(Plain(Slice(chunks, 0, maxChunks)))
      else Ranked(Slice(Sort(Kept(ScoreAll(chunks, qws))), 0, maxChunks))
  }

  // ---------------------------------------------------------------------------
  // properties of the ranking

  /** The three measures of each record agree on whether the chunk matched: a
      positive score, a positive raw score and a matched word go together. */
  predicate Agreeing(s: seq<ScoredChunk>) {
    forall k :: 0 <= k < |s| ==>
      (s[k].scoreSquared > 0.0 || s[k].rawScore > 0.0) == (s[k].matchedWords > 0)
      && (s[k].scoreSquared > 0.0) == (s[k].matchedWords > 0)
      && (s[k].rawScore > 0.0) == (s[k].matchedWords > 0)
  }

  lemma ScoreAllAgreeing(chunks: seq<Chunk>, qws: seq<string>)
    requires AllTerms(qws)
    ensures Agreeing(ScoreAll(chunks, qws))
  {
    var all := ScoreAll(chunks, qws);
    forall k | 0 <= k < |all|
      ensures (all[k].scoreSquared > 0.0 || all[k].rawScore > 0.0) == (all[k].matchedWords > 0)
      ensures (all[k].scoreSquared > 0.0) == (all[k].matchedWords > 0)
      ensures (all[k].rawScore > 0.0) == (all[k].matchedWords > 0)
    {
      ScoreOfPositive(chunks[k], k, |chunks|, qws);
    }
  }

  /** The filter keeps exactly the records that matched a query word. */
  lemma KeptMatching(s: seq<ScoredChunk>)
    requires Agreeing(s)
    ensures forall e :: e in Kept(s) <==> e in s && e.matchedWords > 0
  {
    KeptSpec(s);
  }

  /** The sorted ranking is empty exactly when no record matched. */
  lemma RankingEmpty(s: seq<ScoredChunk>)
    requires Agreeing(s)
    ensures |Sort(Kept(s))| == 0 <==> forall k :: 0 <= k < |s| ==> s[k].matchedWords == 0
  {
    var kept := Kept(s);
    KeptMatching(s);
    SortSpec(kept);
    assert |Sort(kept)| == |kept| by {
      assert |multiset(Sort(kept))| == |multiset(kept)|;
    }
    if |kept| > 0 {
      assert kept[0] in s;
    } else {
      forall k | 0 <= k < |s| ensures s[k].matchedWords == 0 {
        assert s[k] !in kept;
      }
    }
  }

  /** Some query word occurs in the content. */
  predicate ContainsAny(content: string, qws: seq<string>)
    requires AllTerms(qws)
  {
    exists j :: 0 <= j < |qws| && Contains(content, qws[j])
  }

  /** For a positive maxChunks the result is empty exactly when there is no chunk,
      the query is empty, or the query has usable words and no chunk contains one. */
  lemma RelevantEmpty(chunks: seq<Chunk>, query: string, maxChunks: int)
    requires maxChunks > 0
    ensures Relevant(chunks, query, maxChunks).Size() == 0
      <==> |chunks| == 0 || query == ""
           || (|QueryWords(query)| > 0 && forall k :: 0 <= k < |chunks| ==>
                 !ContainsAny(ToLower(chunks[k].content), QueryWords(query)))
  {
    var qws := QueryWords(query);
    if |chunks| > 0 && query != "" && |qws| > 0 {
      var all := ScoreAll(chunks, qws);
      ScoreAllAgreeing(chunks, qws);
      RankingEmpty(all);
      forall k | 0 <= k < |chunks|
        ensures all[k].matchedWords == 0 <==> !ContainsAny(ToLower(chunks[k].content), qws)
      {
        ScoreOfPositive(chunks[k], k, |chunks|, qws);
      }
    }
  }

  /** With no usable query word the result is the first min(maxChunks, n) chunks
      in input order. */
  lemma RelevantNoTerms(chunks: seq<Chunk>, query: string, maxChunks: int)
    requires |chunks| > 0 && query != "" && QueryWords(query) == []
    ensures var r := Relevant(chunks, query, maxChunks);
      && r.Unranked?
      && (0 <= maxChunks ==> |r.plain| == if maxChunks < |chunks| then maxChunks else |chunks|)
      && |r.plain| <= |chunks|
      && forall k :: 0 <= k < |r.plain| ==>
           r.plain[k] == PlainChunk(chunks[k].content, chunks[k].chunkIndex, chunks[k])
  {
    var taken := Slice(chunks, 0, maxChunks);
    assert forall k :: 0 <= k < |taken| ==> taken[k] == chunks[k];
  }

  lemma AgreeingMember(s: seq<ScoredChunk>, e: ScoredChunk)
    requires Agreeing(s) && e in s
    ensures (e.scoreSquared > 0.0) == (e.matchedWords > 0) && (e.rawScore > 0.0) == (e.matchedWords > 0)
  {
    var k :| 0 <= k < |s| && s[k] == e;
  }

  /** Sorting the kept records gives an ordered permutation of exactly the records
      that matched a query word. */
  lemma SortedMatching(s: seq<ScoredChunk>)
    requires Agreeing(s)
    ensures var all := Sort(Kept(s));
      && Ordered(all)
      && multiset(all) == multiset(Kept(s))
      && (forall e :: e in all <==> e in s && e.matchedWords > 0)
      && |all| <= |s|
  {
    var kept := Kept(s);
    var all := Sort(kept);
    SortSpec(kept);
    KeptSpec(s);
    KeptMatching(s);
    assert forall e :: e in all <==> e in multiset(kept);
    assert |all| == |multiset(all)|;
  }

  lemma PrefixOrdered(s: seq<ScoredChunk>, n: nat)
    requires Ordered(s) && n <= |s|
    ensures Ordered(s[..n])
  {
    var p := s[..n];
    forall i, j | 0 <= i < j < |p| ensures !Before(p[j], p[i]) {
      assert p[i] == s[i] && p[j] == s[j];
    }
  }

  /** The first maxChunks of the sorted matching records: ordered by the comparator,
      all of them with a positive score and raw score and a matched word, taken in
      order from a sorted permutation of exactly the records that matched. */
  lemma RankingSpec(s: seq<ScoredChunk>, maxChunks: int)
    requires Agreeing(s)
    ensures var all := Sort(Kept(s));
      var r := Slice(all, 0, maxChunks);
      && Ordered(r)
      && multiset(all) == multiset(Kept(s))
      && (forall e :: e in all <==> e in s && e.matchedWords > 0)
      && (0 <= maxChunks ==> r == all[..if maxChunks < |all| then maxChunks else |all|])
      && |r| <= |s|
      && forall k :: 0 <= k < |r| ==> r[k].scoreSquared > 0.0 && r[k].rawScore > 0.0 && r[k].matchedWords > 0
  {
    var all := Sort(Kept(s));
    SortedMatching(s);
    var n := SliceIndex(maxChunks, |all|);
    var r := Slice(all, 0, maxChunks);
    assert r == all[..n];
    PrefixOrdered(all, n);
    forall k | 0 <= k < |r| ensures r[k].scoreSquared > 0.0 && r[k].rawScore > 0.0 && r[k].matchedWords > 0 {
      assert r[k] == all[k];
      AgreeingMember(s, all[k]);
    }
  }

  /** With usable query words the result is that ranking of the scored chunks. */
  lemma RelevantRanking(chunks: seq<Chunk>, query: string, maxChunks: int)
    requires |chunks| > 0 && query != "" && QueryWords(query) != []
    ensures var r := Relevant(chunks, query, maxChunks);
      var all := Sort(Kept(ScoreAll(chunks, QueryWords(query))));
      && r.Ranked?
      && Ordered(r.ranked)
      && (forall e :: e in all <==> e in ScoreAll(chunks, QueryWords(query)) && e.matchedWords > 0)
      && (0 <= maxChunks ==> r.ranked == all[..if maxChunks < |all| then maxChunks else |all|])
      && |r.ranked| <= |chunks|
      && forall k :: 0 <= k < |r.ranked| ==>
           r.ranked[k].scoreSquared > 0.0 && r.ranked[k].rawScore > 0.0 && r.ranked[k].matchedWords > 0
  {
    var qws := QueryWords(query);
    ScoreAllAgreeing(chunks, qws);
    RankingSpec(ScoreAll(chunks, qws), maxChunks);
  }

  /** Asking for one more chunk only appends: the result for k is a prefix of the
      result for k + 1. */
  lemma RelevantPrefix(chunks: seq<Chunk>, query: string, maxChunks: nat)
    ensures var r := Relevant(chunks, query, maxChunks);
      var r' := Relevant(chunks, query, maxChunks + 1);
      && r.Unranked? == r'.Unranked?
      && (r.Unranked? ==> r.plain <= r'.plain)
      && (r.Ranked? ==> r.ranked <= r'.ranked)
      && r'.Size() <= r.Size() + 1
  {
  }

  // ---------------------------------------------------------------------------
  // the imperative parts

  /** The map callback for the chunk at position index of n: the loop over the query
      words and the bonus. */
  method ScoreChunk(chunk: Chunk, index: nat, n: nat, queryWords: seq<string>)
    returns (s: ScoredChunk)
    requires index < n && AllTerms(queryWords)
    ensures s == ScoreOf(chunk, index, n, queryWords)
  {
    var content := ToLower(chunk.content);
    var contentWords := |SplitWs(content)|;
    var score2 := 0;
    for i := 0 to |queryWords|
      invariant score2 == TermsScore2(content, queryWords[..i])
    {
      var word := queryWords[i];
      var exactMatches := CountWholeWords(content, word, 0);
      score2 := score2 + exactMatches * 6;
      var partialMatches := CountMatches(content, word, 0);
      score2 := score2 + partialMatches * 3;
      assert queryWords[..i + 1][..i] == queryWords[..i];
    }
    assert queryWords[..|queryWords|] == queryWords;
    var uniqueWords := Matched(content, queryWords);
    if uniqueWords > 1 {
      score2 := score2 + uniqueWords * 4;
    }
    s := ScoredChunk(chunk.content, chunk.chunkIndex, chunk.pageNumber,
                     ScoreSquared(score2, contentWords, PositionBonus(index, n)),
                     score2 as real / 2.0, uniqueWords);
  }

  /** `findRelevantChunks(chunks, query, maxChunks)`. The chunks are a value, so the
      input is left as it was. */
  method FindRelevantChunks(chunks: seq<Chunk>, query: string, maxChunks: int := DefaultMaxChunks)
    returns (r: Relevance)
    ensures r == Relevant(chunks, query, maxChunks)
  {
    if |chunks| == 0 || query == "" {
      return Ranked([]);
    }
    var queryWords := QueryWords(query);
    if |queryWords| == 0 {
      return Unranked(Plain(Slice(chunks, 0, maxChunks)));
    }
    var scoredChunks := ScoreChunks(chunks, queryWords);
    r := Ranked(Slice(Sort(Kept(scoredChunks)), 0, maxChunks));
  }

  /** `chunks.map((chunk, index) => ...)`. */
  method ScoreChunks(chunks: seq<Chunk>, queryWords: seq<string>) returns (scored: seq<ScoredChunk>)
    requires AllTerms(queryWords)
    ensures scored == ScoreAll(chunks, queryWords)
  {
    scored := [];
    for index := 0 to |chunks|
      invariant |scored| == index
      invariant forall k :: 0 <= k < index ==> scored[k] == ScoreOf(chunks[k], k, |chunks|, queryWords)
    {
      var s := ScoreChunk(chunks[index], index, |chunks|, queryWords);
      scored := scored + [s];
    }
  }
}
