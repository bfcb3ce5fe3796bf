/**
 * The chunk builder: `chunk_sentences` walks the sentences once, packing
 * them into chunks of at most `target` tokens, seeding each new chunk with
 * a suffix of the previous one as overlap, and cutting any sentence that is
 * longer than the budget into token windows of its own.
 *
 * `GroupsFrom` is the loop of `chunk_sentences` as a function of its state;
 * it lists, in order, the sentence groups the loop finalizes. The method
 * `ChunkSentences` is the loop itself and is proved to return exactly the
 * finalized groups.
 */
module Chunking {
  import opened Text
  import opened Parsers
  import opened Pages
  import opened Tokens

  /** One stored chunk. */
  datatype Chunk = Chunk(chunkNumber: int, pageNumber: string, embeddedText: string, rawText: string)

  /** The pages of the sentences that have one, in order. */
  function PagesOf(ss: seq<Sentence>): (ps: seq<int>)
    ensures forall p :: p in ps <==> exists k :: 0 <= k < |ss| && ss[k].page == Some(p)
  {
    if ss == [] then []
    else (if ss[0].page.Some? then [ss[0].page.value] else []) + PagesOf(ss[1..])
  }

  /** `finalize(current, n)`. */
  function Finalize(fileName: string, current: seq<Sentence>, n: int): Chunk
  {
    var raw := Trim(Join(Texts(current), " "));
    var pageStr := PageRange(PagesOf(current));
    var pageLabel := if pageStr == [] then IntToString(n) else pageStr;
    Chunk(n, pageLabel, fileName + "\n\n" + raw, raw)
  }

  /** The sentences of one finalized chunk. `carried` of them, at the front,
      were carried over from the chunk before as overlap; `oversized` marks
      a piece of a sentence that was longer than the budget; `overflowed`
      marks a chunk finalized because the next sentence did not fit, which
      is the one case that seeds the next chunk with overlap; `at` is the
      position of the sentence the loop was handling when it finalized the
      chunk: the one that did not fit, the oversized one (for its pieces
      and for the chunk flushed before them), or the end of the input. */
  datatype Group = Group(members: seq<Sentence>, carried: nat, oversized: bool, overflowed: bool, at: nat)

  /** The groups finalized one after the other, numbered from `n` on. */
  function FinalizeAll(fileName: string, gs: seq<Group>, n: int): (cs: seq<Chunk>)
    ensures |cs| == |gs|
    ensures forall k :: 0 <= k < |gs| ==> cs[k] == Finalize(fileName, gs[k].members, n + k)
  {
    seq(|gs|, k requires 0 <= k < |gs| => Finalize(fileName, gs[k].members, n + k))
  }

  /** The token total of some sentences, counted on their texts as they
      are. */
  function SumToks(tk: Tokenizer, ss: seq<Sentence>): nat
  {
    if ss == [] then 0 else TokLen(tk, ss[0].text) + SumToks(tk, ss[1..])
  }

  /** Where the overlap walk over `prev` stops when it has taken the
      suffix `prev[j..]`: it always takes the last sentence, and then keeps
      taking the one before while the total stays within `overlap`. */
  function OverlapFrom(tk: Tokenizer, prev: seq<Sentence>, overlap: int, j: nat): (m: nat)
    requires j <= |prev|
    ensures m <= j
  {
    if j == 0 then 0
    else if j < |prev| && SumToks(tk, prev[j..]) + TokLen(tk, prev[j - 1].text) > overlap then j
    else OverlapFrom(tk, prev, overlap, j - 1)
  }

  /** The overlap the walk of `chunk_sentences` collects from the chunk
      just finalized, before the guard against repeating it whole. */
  function Seed(tk: Tokenizer, prev: seq<Sentence>, overlap: int): seq<Sentence>
  {
    prev[OverlapFrom(tk, prev, overlap, |prev|)..]
  }

  /** A list read back to front. */
  function Reverse<T>(s: seq<T>): (r: seq<T>)
    ensures |r| == |s| && forall k :: 0 <= k < |s| ==> r[k] == s[|s| - 1 - k]
  {
    seq(|s|, k requires 0 <= k < |s| => s[|s| - 1 - k])
  }

  /** The overlap walk of `chunk_sentences`: it goes through the finalized
      chunk from the back, collects sentences until the next one would take
      the total over `overlapTokens` (but always takes one), and puts them
      back in order. */
  method OverlapSeed(tk: Tokenizer, prev: seq<Sentence>, overlapTokens: int)
    returns (overlap: seq<Sentence>, overlapToks: nat)
    ensures overlap == Seed(tk, prev, overlapTokens)
    ensures overlapToks == SumToks(tk, overlap)
  {
    overlap := [];
    overlapToks := 0;
    var j := |prev|;
    while j > 0
      invariant 0 <= j <= |prev|
      invariant overlap == Reverse(prev[j..])
      invariant overlapToks == SumToks(tk, prev[j..])
      invariant OverlapFrom(tk, prev, overlapTokens, |prev|) == OverlapFrom(tk, prev, overlapTokens, j)
    {
      var ss := prev[j - 1];
      var tt := TokLen(tk, ss.text);
      if overlap != [] && overlapToks + tt > overlapTokens {
        break;
      }
      assert prev[j - 1..][1..] == prev[j..];
      overlap := overlap + [ss];
      overlapToks := overlapToks + tt;
      j := j - 1;
    }
    assert OverlapFrom(tk, prev, overlapTokens, j) == j;
    overlap := Reverse(overlap);
  }

  /** `chunk_sentences` terminates: with a budget below one token the
      window loop of `_split_text_by_tokens` never advances, so a sentence
      that is not skipped as blank must then either fit the budget or have
      no tokens at all, in which case the loop does not run. */
  predicate Terminates(tk: Tokenizer, target: int, S: seq<Sentence>) {
    target >= 1 || forall k :: 0 <= k < |S| && Trim(S[k].text) != [] ==>
      TokLen(tk, Trim(S[k].text)) <= target || TokLen(tk, Trim(S[k].text)) == 0
  }

  /** One group per piece of an oversized sentence, each with that
      sentence's page. */
  function PieceGroups(pieces: seq<string>, page: Option<int>, at: nat): (gs: seq<Group>)
    ensures |gs| == |pieces|
    ensures forall k :: 0 <= k < |pieces| ==> gs[k] == Group([Sentence(pieces[k], page)], 0, true, false, at)
  {
    seq(|pieces|, k requires 0 <= k < |pieces| => Group([Sentence(pieces[k], page)], 0, true, false, at))
  }

  /** The current chunk as a group, if it has any sentence. */
  function Flush(cur: seq<Sentence>, carried: nat, at: nat): seq<Group>
  {
    if cur != [] then [Group(cur, carried, false, false, at)] else []
  }

  /** The rest of the run of `chunk_sentences` from the head of its loop,
      with `i` the next sentence, `cur` the sentences of the chunk being
      built, `curToks` the running token count the loop keeps for it, and
      `carried` the number of sentences at the front of `cur` that came
      from the overlap.

      The loop body is split over `Consider` (skip a blank sentence),
      `Place` (cut an oversized one, or add one that fits) and `Overflow`
      (finalize the current chunk and seed the next with its overlap). A
      retried sentence either advances `i`, shrinks `cur`, or (when a text
      with surrounding whitespace made `curToks` differ from the recount)
      makes the count agree with the recount; so the run ends. */
  function GroupsFrom(tk: Tokenizer, target: int, overlapTokens: int, S: seq<Sentence>,
                      i: nat, cur: seq<Sentence>, curToks: nat, carried: nat): seq<Group>
    requires i <= |S|
    requires Terminates(tk, target, S)
    decreases |S| - i, |cur|, if curToks == SumToks(tk, cur) then 0 else 1, 3
  {
    if i == |S| then Flush(cur, carried, i)
    else Consider(tk, target, overlapTokens, S, i, cur, curToks, carried)
  }

  function Consider(tk: Tokenizer, target: int, overlapTokens: int, S: seq<Sentence>,
                    i: nat, cur: seq<Sentence>, curToks: nat, carried: nat): seq<Group>
    requires i < |S|
    requires Terminates(tk, target, S)
    decreases |S| - i, |cur|, if curToks == SumToks(tk, cur) then 0 else 1, 2
  {
    if Trim(S[i].text) == [] then GroupsFrom(tk, target, overlapTokens, S, i + 1, cur, curToks, carried)
    else Place(tk, target, overlapTokens, S, i, cur, curToks, carried)
  }

  function Place(tk: Tokenizer, target: int, overlapTokens: int, S: seq<Sentence>,
                 i: nat, cur: seq<Sentence>, curToks: nat, carried: nat): seq<Group>
    requires i < |S| && Trim(S[i].text) != []
    requires Terminates(tk, target, S)
    decreases |S| - i, |cur|, if curToks == SumToks(tk, cur) then 0 else 1, 1
  {
    var t := Trim(S[i].text);
    var sTokens := TokLen(tk, t);
    if sTokens > target then
      Flush(cur, carried, i)
      + PieceGroups(Pieces(tk, t, target, overlapTokens), S[i].page, i)
      + GroupsFrom(tk, target, overlapTokens, S, i + 1, [], if cur != [] then 0 else curToks, 0)
    else if cur != [] && curToks + sTokens > target then
      Overflow(tk, target, overlapTokens, S, i, cur, curToks, carried)
    else
      GroupsFrom(tk, target, overlapTokens, S, i + 1, cur + [S[i]], curToks + sTokens, carried)
  }

  function Overflow(tk: Tokenizer, target: int, overlapTokens: int, S: seq<Sentence>,
                    i: nat, cur: seq<Sentence>, curToks: nat, carried: nat): seq<Group>
    requires i < |S| && cur != []
    requires Terminates(tk, target, S)
    decreases |S| - i, |cur|, if curToks == SumToks(tk, cur) then 0 else 1, 0
  {
    var ov := Seed(tk, cur, overlapTokens);
    var ovToks := SumToks(tk, ov);
    assert |ov| == |cur| ==> ov == cur;
    if |ov| == |cur| && ovToks == curToks then
      [Group(cur, carried, false, true, i)] + GroupsFrom(tk, target, overlapTokens, S, i, [], 0, 0)
    else
      [Group(cur, carried, false, true, i)] + GroupsFrom(tk, target, overlapTokens, S, i, ov, ovToks, |ov|)
  }

  /** All the groups `chunk_sentences` finalizes. */
  function Groups(tk: Tokenizer, target: int, overlapTokens: int, S: seq<Sentence>): seq<Group>
    requires Terminates(tk, target, S)
  {
    GroupsFrom(tk, target, overlapTokens, S, 0, [], 0, 0)
  }

  /** What `chunk_sentences` returns. */
  function Chunked(tk: Tokenizer, fileName: string, target: int, overlapTokens: int, S: seq<Sentence>): seq<Chunk>
    requires Terminates(tk, target, S)
  {
    FinalizeAll(fileName, Groups(tk, target, overlapTokens, S), 1)
  }

  /** `chunk_sentences(sentences, file_name=..., target_tokens=...,
      overlap_tokens=...)`. */
  method ChunkSentences(tk: Tokenizer, S: seq<Sentence>, fileName: string, target: int, overlapTokens: int)
    returns (chunks: seq<Chunk>)
    requires Terminates(tk, target, S)
    ensures chunks == Chunked(tk, fileName, target, overlapTokens, S)
  {
    chunks := [];
    var cur: seq<Sentence> := [];
    var curToks: nat := 0;
    var chunkNo := 1;
    // the groups finalized so far, and how many sentences of `cur` are overlap
    ghost var groups: seq<Group> := [];
    ghost var carried: nat := 0;
    ghost var all := Groups(tk, target, overlapTokens, S);
    var i := 0;
    while i < |S|
      invariant i <= |S|
      invariant chunkNo == |groups| + 1
      invariant chunks == FinalizeAll(fileName, groups, 1)
      invariant groups + GroupsFrom(tk, target, overlapTokens, S, i, cur, curToks, carried) == all
      decreases |S| - i, |cur|, if curToks == SumToks(tk, cur) then 0 else 1
    {
      var s := S[i];
      var t := Trim(s.text);
      if t == [] {
        BlankStep(tk, target, overlapTokens, S, i, cur, curToks, carried);
        i := i + 1;
        continue;
      }
      var sTokens := TokLen(tk, t);
      if sTokens > target {
        OversizedStep(tk, target, overlapTokens, S, i, cur, curToks, carried, groups);
        ghost var flushed := Flush(cur, carried, i);
        if cur != [] {
          ChunksSnoc(fileName, chunks, groups, cur, carried, false, false, i, chunkNo);
          chunks := chunks + [Finalize(fileName, cur, chunkNo)];
          chunkNo := chunkNo + 1;
          cur := [];
          curToks := 0;
        }
        groups := groups + flushed;
        carried := 0;
        var parts := SplitTextByTokens(tk, t, target, overlapTokens);
        ChunksAppend(fileName, chunks, groups, PieceGroups(parts, s.page, i), chunkNo);
        chunks, chunkNo := AppendPieces(fileName, parts, s.page, i, chunks, chunkNo);
        groups := groups + PieceGroups(parts, s.page, i);
        i := i + 1;
        continue;
      }
      if cur != [] && curToks + sTokens > target {
        var prevCur := cur;
        var prevLen := |prevCur|;
        var prevToks := curToks;
        ChunksSnoc(fileName, chunks, groups, prevCur, carried, false, true, i, chunkNo);
        chunks := chunks + [Finalize(fileName, prevCur, chunkNo)];
        var overlap, overlapToks := OverlapSeed(tk, prevCur, overlapTokens);
        if |overlap| == prevLen && overlapToks == prevToks {
          overlap := [];
          overlapToks := 0;
        }
        FlushStep(tk, target, overlapTokens, S, i, cur, curToks, carried, groups, overlap, overlapToks);
        groups := groups + [Group(cur, carried, false, true, i)];
        chunkNo := chunkNo + 1;
        cur := overlap;
        curToks := overlapToks;
        carried := |overlap|;
        continue;
      }
      AppendStep(tk, target, overlapTokens, S, i, cur, curToks, carried);
      cur := cur + [s];
      curToks := curToks + sTokens;
      i := i + 1;
    }
    ghost var flushed := Flush(cur, carried, i);
    assert groups + flushed == all;
    if cur != [] {
      ChunksSnoc(fileName, chunks, groups, cur, carried, false, false, i, chunkNo);
      chunks := chunks + [Finalize(fileName, cur, chunkNo)];
    }
    groups := groups + flushed;
  }

  /** The inner loop of the oversized case: one chunk per piece, each
      with the page of the sentence it was cut from. */
  method AppendPieces(fileName: string, parts: seq<string>, page: Option<int>, ghost at: nat, chunks0: seq<Chunk>, chunkNo0: int)
    returns (chunks: seq<Chunk>, chunkNo: int)
    ensures chunks == chunks0 + FinalizeAll(fileName, PieceGroups(parts, page, at), chunkNo0)
    ensures chunkNo == chunkNo0 + |parts|
  {
    chunks := chunks0;
    chunkNo := chunkNo0;
    for k := 0 to |parts|
      invariant chunkNo == chunkNo0 + k
      invariant chunks == chunks0 + FinalizeAll(fileName, PieceGroups(parts[..k], page, at), chunkNo0)
    {
      PiecesSnoc(fileName, chunks0, parts, page, at, chunkNo0, k, chunkNo);
      chunks := chunks + [Finalize(fileName, [Sentence(parts[k], page)], chunkNo)];
      chunkNo := chunkNo + 1;
    }
    assert parts[..|parts|] == parts;
  }

  /** Finalizing one more group adds one chunk, numbered after the others. */
  lemma FinalizeAllSnoc(fileName: string, gs: seq<Group>, g: Group, n: int)
    ensures FinalizeAll(fileName, gs + [g], n) == FinalizeAll(fileName, gs, n) + [Finalize(fileName, g.members, n + |gs|)]
  {
    var l := FinalizeAll(fileName, gs + [g], n);
    var r := FinalizeAll(fileName, gs, n) + [Finalize(fileName, g.members, n + |gs|)];
    forall j | 0 <= j < |l|
      ensures l[j] == r[j]
    {
      assert l[j] == Finalize(fileName, (gs + [g])[j].members, n + j);
      if j < |gs| {
        assert (gs + [g])[j] == gs[j];
        assert r[j] == FinalizeAll(fileName, gs, n)[j];
      } else {
        assert (gs + [g])[j] == g;
      }
    }
  }

  /** Finalizing two runs of groups one after the other. */
  lemma FinalizeAllAppend(fileName: string, a: seq<Group>, b: seq<Group>, n: int)
    ensures FinalizeAll(fileName, a + b, n) == FinalizeAll(fileName, a, n) + FinalizeAll(fileName, b, n + |a|)
  {
    var l := FinalizeAll(fileName, a + b, n);
    var r := FinalizeAll(fileName, a, n) + FinalizeAll(fileName, b, n + |a|);
    forall k | 0 <= k < |l|
      ensures l[k] == r[k]
    {
      if k < |a| {
        assert (a + b)[k] == a[k];
      } else {
        assert (a + b)[k] == b[k - |a|];
      }
    }
  }

  lemma ChunksSnoc(fileName: string, chunks: seq<Chunk>, groups: seq<Group>,
                   members: seq<Sentence>, carried: nat, oversized: bool, overflowed: bool, at: nat, n: int)
    requires chunks == FinalizeAll(fileName, groups, 1) && n == |groups| + 1
    ensures chunks + [Finalize(fileName, members, n)]
      == FinalizeAll(fileName, groups + [Group(members, carried, oversized, overflowed, at)], 1)
  {
    FinalizeAllSnoc(fileName, groups, Group(members, carried, oversized, overflowed, at), 1);
  }

  lemma ChunksAppend(fileName: string, chunks: seq<Chunk>, groups: seq<Group>, more: seq<Group>, n: int)
    requires chunks == FinalizeAll(fileName, groups, 1) && n == |groups| + 1
    ensures chunks + FinalizeAll(fileName, more, n) == FinalizeAll(fileName, groups + more, 1)
  {
    FinalizeAllAppend(fileName, groups, more, 1);
  }

  lemma PiecesSnoc(fileName: string, chunks0: seq<Chunk>, parts: seq<string>, page: Option<int>, at: nat, n: int, k: nat, m: int)
    requires k < |parts| && m == n + k
    ensures chunks0 + FinalizeAll(fileName, PieceGroups(parts[..k], page, at), n)
            + [Finalize(fileName, [Sentence(parts[k], page)], m)]
      == chunks0 + FinalizeAll(fileName, PieceGroups(parts[..k + 1], page, at), n)
  {
    var last := Finalize(fileName, [Sentence(parts[k], page)], m);
    calc {
      chunks0 + FinalizeAll(fileName, PieceGroups(parts[..k], page, at), n) + [last];
      { AppendAssoc(chunks0, FinalizeAll(fileName, PieceGroups(parts[..k], page, at), n), [last]); }
      chunks0 + (FinalizeAll(fileName, PieceGroups(parts[..k], page, at), n) + [last]);
      { PieceChunkSnoc(fileName, parts, page, at, n, k, m); }
      chunks0 + FinalizeAll(fileName, PieceGroups(parts[..k + 1], page, at), n);
    }
  }

  /** The chunk of one more piece comes after those of the pieces before it. */
  lemma PieceChunkSnoc(fileName: string, parts: seq<string>, page: Option<int>, at: nat, n: int, k: nat, m: int)
    requires k < |parts| && m == n + k
    ensures FinalizeAll(fileName, PieceGroups(parts[..k], page, at), n) + [Finalize(fileName, [Sentence(parts[k], page)], m)]
      == FinalizeAll(fileName, PieceGroups(parts[..k + 1], page, at), n)
  {
    var g := Group([Sentence(parts[k], page)], 0, true, false, at);
    var before := PieceGroups(parts[..k], page, at);
    assert |before| == k;
    calc {
      FinalizeAll(fileName, before, n) + [Finalize(fileName, [Sentence(parts[k], page)], m)];
      FinalizeAll(fileName, before, n) + [Finalize(fileName, g.members, n + |before|)];
      { FinalizeAllSnoc(fileName, before, g, n); }
      FinalizeAll(fileName, before + [g], n);
      { PieceGroupsSnoc(parts, page, at, k); }
      FinalizeAll(fileName, PieceGroups(parts[..k + 1], page, at), n);
    }
  }

  lemma PieceGroupsSnoc(parts: seq<string>, page: Option<int>, at: nat, k: nat)
    requires k < |parts|
    ensures PieceGroups(parts[..k + 1], page, at) == PieceGroups(parts[..k], page, at) + [Group([Sentence(parts[k], page)], 0, true, false, at)]
  {
    var l := PieceGroups(parts[..k + 1], page, at);
    var r := PieceGroups(parts[..k], page, at) + [Group([Sentence(parts[k], page)], 0, true, false, at)];
    forall j | 0 <= j < |l|
      ensures l[j] == r[j]
    {
      assert parts[..k + 1][j] == parts[j];
    }
  }

  lemma BlankStep(tk: Tokenizer, target: int, overlapTokens: int, S: seq<Sentence>,
                  i: nat, cur: seq<Sentence>, curToks: nat, carried: nat)
    requires i < |S| && Terminates(tk, target, S)
    requires Trim(S[i].text) == []
    ensures GroupsFrom(tk, target, overlapTokens, S, i, cur, curToks, carried)
      == GroupsFrom(tk, target, overlapTokens, S, i + 1, cur, curToks, carried)
  {
  }

  lemma OversizedStep(tk: Tokenizer, target: int, overlapTokens: int, S: seq<Sentence>,
                      i: nat, cur: seq<Sentence>, curToks: nat, carried: nat, done: seq<Group>)
    requires i < |S| && Terminates(tk, target, S)
    requires Trim(S[i].text) != [] && TokLen(tk, Trim(S[i].text)) > target
    ensures target >= 1 || TokLen(tk, Trim(S[i].text)) == 0
    ensures done + GroupsFrom(tk, target, overlapTokens, S, i, cur, curToks, carried)
      == done + Flush(cur, carried, i)
         + PieceGroups(Pieces(tk, Trim(S[i].text), target, overlapTokens), S[i].page, i)
         + GroupsFrom(tk, target, overlapTokens, S, i + 1, [], if cur != [] then 0 else curToks, 0)
  {
    var t := Trim(S[i].text);
    assert target >= 1 || TokLen(tk, t) == 0 by {
      assert target < 1 ==> TokLen(tk, t) <= target || TokLen(tk, t) == 0;
    }
    assert GroupsFrom(tk, target, overlapTokens, S, i, cur, curToks, carried)
      == Consider(tk, target, overlapTokens, S, i, cur, curToks, carried)
      == Place(tk, target, overlapTokens, S, i, cur, curToks, carried);
  }

  lemma FlushStep(tk: Tokenizer, target: int, overlapTokens: int, S: seq<Sentence>,
                  i: nat, cur: seq<Sentence>, curToks: nat, carried: nat, done: seq<Group>,
                  overlap: seq<Sentence>, overlapToks: nat)
    requires i < |S| && Terminates(tk, target, S)
    requires Trim(S[i].text) != [] && TokLen(tk, Trim(S[i].text)) <= target
    requires cur != [] && curToks + TokLen(tk, Trim(S[i].text)) > target
    requires var ov := Seed(tk, cur, overlapTokens);
      if |ov| == |cur| && SumToks(tk, ov) == curToks then overlap == [] && overlapToks == 0
      else overlap == ov && overlapToks == SumToks(tk, ov)
    ensures done + GroupsFrom(tk, target, overlapTokens, S, i, cur, curToks, carried)
      == done + [Group(cur, carried, false, true, i)] + GroupsFrom(tk, target, overlapTokens, S, i, overlap, overlapToks, |overlap|)
    ensures |overlap| < |cur|
      || (|overlap| == |cur| && curToks != SumToks(tk, cur) && overlapToks == SumToks(tk, overlap))
  {
    assert GroupsFrom(tk, target, overlapTokens, S, i, cur, curToks, carried)
      == Consider(tk, target, overlapTokens, S, i, cur, curToks, carried)
      == Place(tk, target, overlapTokens, S, i, cur, curToks, carried)
      == Overflow(tk, target, overlapTokens, S, i, cur, curToks, carried);
    var ov := Seed(tk, cur, overlapTokens);
    assert |ov| == |cur| ==> ov == cur;
  }

  lemma AppendStep(tk: Tokenizer, target: int, overlapTokens: int, S: seq<Sentence>,
                   i: nat, cur: seq<Sentence>, curToks: nat, carried: nat)
    requires i < |S| && Terminates(tk, target, S)
    requires Trim(S[i].text) != [] && TokLen(tk, Trim(S[i].text)) <= target
    requires !(cur != [] && curToks + TokLen(tk, Trim(S[i].text)) > target)
    ensures GroupsFrom(tk, target, overlapTokens, S, i, cur, curToks, carried)
      == GroupsFrom(tk, target, overlapTokens, S, i + 1, cur + [S[i]], curToks + TokLen(tk, Trim(S[i].text)), carried)
  {
    assert GroupsFrom(tk, target, overlapTokens, S, i, cur, curToks, carried)
      == Consider(tk, target, overlapTokens, S, i, cur, curToks, carried)
      == Place(tk, target, overlapTokens, S, i, cur, curToks, carried);
  }
}
