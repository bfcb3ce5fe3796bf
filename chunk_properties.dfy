/**
 * What `chunk_sentences` promises about the chunks it returns: numbering,
 * coverage of every non-blank sentence, non-empty chunk texts, the token
 * budget, and the shape of the overlap carried from one chunk to the next.
 *
 * Each property about the groups is proved by following the run
 * `GroupsFrom` one loop pass at a time, with the state of the loop as the
 * lemma's parameters and the groups finalized before it as `before`.
 */
module ChunkProperties {
  import opened Text
  import opened Parsers
  import opened Pages
  import opened Tokens
  import opened Chunking

  /** The sentences a group holds beyond those it carried over. */
  function NewPart(g: Group): seq<Sentence>
  {
    if g.carried <= |g.members| then g.members[g.carried..] else []
  }

  /** The sentences the groups hold, each overlap left out. */
  function Fresh(gs: seq<Group>): seq<Sentence>
  {
    if gs == [] then [] else Fresh(gs[..|gs| - 1]) + NewPart(gs[|gs| - 1])
  }

  lemma {:induction false} FreshAppend(a: seq<Group>, b: seq<Group>)
    ensures Fresh(a + b) == Fresh(a) + Fresh(b)
    decreases |b|
  {
    if b == [] {
      assert a + b == a;
    } else {
      var c := b[..|b| - 1];
      var last := b[|b| - 1];
      calc {
        Fresh(a + b);
        Fresh((a + b)[..|a + b| - 1]) + NewPart((a + b)[|a + b| - 1]);
        { assert (a + b)[..|a + b| - 1] == a + c; assert (a + b)[|a + b| - 1] == last; }
        Fresh(a + c) + NewPart(last);
        { FreshAppend(a, c); }
        Fresh(a) + Fresh(c) + NewPart(last);
        { AppendAssoc(Fresh(a), Fresh(c), NewPart(last)); }
        Fresh(a) + (Fresh(c) + NewPart(last));
        Fresh(a) + Fresh(b);
      }
    }
  }

  /** The pieces of a sentence, each with its page. */
  function PieceSentences(pieces: seq<string>, page: Option<int>): (ss: seq<Sentence>)
    ensures |ss| == |pieces|
    ensures forall k :: 0 <= k < |pieces| ==> ss[k] == Sentence(pieces[k], page)
  {
    seq(|pieces|, k requires 0 <= k < |pieces| => Sentence(pieces[k], page))
  }

  lemma {:induction false} FreshPieceGroups(pieces: seq<string>, page: Option<int>, at: nat)
    ensures Fresh(PieceGroups(pieces, page, at)) == PieceSentences(pieces, page)
    decreases |pieces|
  {
    if pieces != [] {
      var init := pieces[..|pieces| - 1];
      FreshPieceGroups(init, page, at);
      assert PieceGroups(pieces, page, at)[..|pieces| - 1] == PieceGroups(init, page, at);
      assert PieceSentences(pieces, page) == PieceSentences(init, page) + [Sentence(pieces[|pieces| - 1], page)];
    }
  }

  /** What one sentence contributes to the chunks: nothing when it is
      blank, its pieces when it is over the budget, itself otherwise. */
  function Contribution(tk: Tokenizer, target: int, overlapTokens: int, s: Sentence): seq<Sentence>
    requires target >= 1 || Trim(s.text) == [] || TokLen(tk, Trim(s.text)) <= target || TokLen(tk, Trim(s.text)) == 0
  {
    var t := Trim(s.text);
    if t == [] then []
    else if TokLen(tk, t) > target then PieceSentences(Pieces(tk, t, target, overlapTokens), s.page)
    else [s]
  }

  /** The contributions of all the sentences, in order. */
  function Contributions(tk: Tokenizer, target: int, overlapTokens: int, S: seq<Sentence>): seq<Sentence>
    requires Terminates(tk, target, S)
  {
    if S == [] then []
    else Contributions(tk, target, overlapTokens, S[..|S| - 1])
         + Contribution(tk, target, overlapTokens, S[|S| - 1])
  }

  lemma ContributionsSnoc(tk: Tokenizer, target: int, overlapTokens: int, S: seq<Sentence>, i: nat)
    requires i < |S| && Terminates(tk, target, S)
    ensures Contributions(tk, target, overlapTokens, S[..i + 1])
      == Contributions(tk, target, overlapTokens, S[..i]) + Contribution(tk, target, overlapTokens, S[i])
  {
    assert S[..i + 1][..i] == S[..i];
  }

  /** The measure of the loop decreases from one state to the next: the
      next sentence moves on, or it stays and the current chunk shrinks,
      or both stay and the running count comes to agree with the recount. */
  predicate Progress(tk: Tokenizer, S: seq<Sentence>, i: nat, cur: seq<Sentence>, curToks: nat,
                     i2: nat, cur2: seq<Sentence>, curToks2: nat)
  {
    i2 <= |S| &&
    (i < i2 || (i2 == i && (|cur2| < |cur|
       || (|cur2| == |cur| && curToks != SumToks(tk, cur) && curToks2 == SumToks(tk, cur2)))))
  }

  /** One pass of the loop keeps the coverage invariant: the groups
      finalized so far, with the fresh part of the current chunk, hold
      the contributions of the sentences already read. */
  lemma CoverageStep(tk: Tokenizer, target: int, overlapTokens: int, S: seq<Sentence>,
                     i: nat, cur: seq<Sentence>, curToks: nat, carried: nat, before: seq<Group>)
    returns (i2: nat, cur2: seq<Sentence>, curToks2: nat, carried2: nat, after: seq<Group>)
    requires i < |S| && Terminates(tk, target, S)
    requires carried <= |cur|
    requires Fresh(before) + cur[carried..] == Contributions(tk, target, overlapTokens, S[..i])
    ensures Progress(tk, S, i, cur, curToks, i2, cur2, curToks2)
    ensures carried2 <= |cur2|
    ensures Fresh(after) + cur2[carried2..] == Contributions(tk, target, overlapTokens, S[..i2])
    ensures before + GroupsFrom(tk, target, overlapTokens, S, i, cur, curToks, carried)
      == after + GroupsFrom(tk, target, overlapTokens, S, i2, cur2, curToks2, carried2)
  {
    var t := Trim(S[i].text);
    if t == [] {
      i2, cur2, curToks2, carried2, after := CoverBlank(tk, target, overlapTokens, S, i, cur, curToks, carried, before);
    } else if TokLen(tk, t) > target {
      i2, cur2, curToks2, carried2, after := CoverOversized(tk, target, overlapTokens, S, i, cur, curToks, carried, before);
    } else if cur != [] && curToks + TokLen(tk, t) > target {
      i2, cur2, curToks2, carried2, after := CoverFlush(tk, target, overlapTokens, S, i, cur, curToks, carried, before);
    } else {
      i2, cur2, curToks2, carried2, after := CoverAppend(tk, target, overlapTokens, S, i, cur, curToks, carried, before);
    }
  }

  lemma CoverBlank(tk: Tokenizer, target: int, overlapTokens: int, S: seq<Sentence>,
                     i: nat, cur: seq<Sentence>, curToks: nat, carried: nat, before: seq<Group>)
    returns (i2: nat, cur2: seq<Sentence>, curToks2: nat, carried2: nat, after: seq<Group>)
    requires i < |S| && Terminates(tk, target, S)
    requires carried <= |cur|
    requires Fresh(before) + cur[carried..] == Contributions(tk, target, overlapTokens, S[..i])
    requires Trim(S[i].text) == []
    ensures Progress(tk, S, i, cur, curToks, i2, cur2, curToks2)
    ensures carried2 <= |cur2|
    ensures Fresh(after) + cur2[carried2..] == Contributions(tk, target, overlapTokens, S[..i2])
    ensures before + GroupsFrom(tk, target, overlapTokens, S, i, cur, curToks, carried)
      == after + GroupsFrom(tk, target, overlapTokens, S, i2, cur2, curToks2, carried2)
  {
    ContributionsSnoc(tk, target, overlapTokens, S, i);
    BlankStep(tk, target, overlapTokens, S, i, cur, curToks, carried);
    i2, cur2, curToks2, carried2, after := i + 1, cur, curToks, carried, before;
  }

  lemma CoverOversized(tk: Tokenizer, target: int, overlapTokens: int, S: seq<Sentence>,
                     i: nat, cur: seq<Sentence>, curToks: nat, carried: nat, before: seq<Group>)
    returns (i2: nat, cur2: seq<Sentence>, curToks2: nat, carried2: nat, after: seq<Group>)
    requires i < |S| && Terminates(tk, target, S)
    requires carried <= |cur|
    requires Fresh(before) + cur[carried..] == Contributions(tk, target, overlapTokens, S[..i])
    requires Trim(S[i].text) != [] && TokLen(tk, Trim(S[i].text)) > target
    ensures Progress(tk, S, i, cur, curToks, i2, cur2, curToks2)
    ensures carried2 <= |cur2|
    ensures Fresh(after) + cur2[carried2..] == Contributions(tk, target, overlapTokens, S[..i2])
    ensures before + GroupsFrom(tk, target, overlapTokens, S, i, cur, curToks, carried)
      == after + GroupsFrom(tk, target, overlapTokens, S, i2, cur2, curToks2, carried2)
  {
    OversizedStep(tk, target, overlapTokens, S, i, cur, curToks, carried, before);
    after := before + Flush(cur, carried, i) + PieceGroups(Pieces(tk, Trim(S[i].text), target, overlapTokens), S[i].page, i);
    i2, cur2, curToks2, carried2 := i + 1, [], if cur != [] then 0 else curToks, 0;
    assert cur2[carried2..] == [];
    OversizedCovered(tk, target, overlapTokens, S, i, cur, carried, before);
  }

  /** Cutting an oversized sentence adds, after the current chunk, exactly
      its pieces. */
  lemma OversizedCovered(tk: Tokenizer, target: int, overlapTokens: int, S: seq<Sentence>,
                         i: nat, cur: seq<Sentence>, carried: nat, before: seq<Group>)
    requires i < |S| && Terminates(tk, target, S)
    requires carried <= |cur|
    requires Fresh(before) + cur[carried..] == Contributions(tk, target, overlapTokens, S[..i])
    requires Trim(S[i].text) != [] && TokLen(tk, Trim(S[i].text)) > target
    ensures target >= 1 || TokLen(tk, Trim(S[i].text)) == 0
    ensures Fresh(before + Flush(cur, carried, i) + PieceGroups(Pieces(tk, Trim(S[i].text), target, overlapTokens), S[i].page, i))
      == Contributions(tk, target, overlapTokens, S[..i + 1])
  {
    var t := Trim(S[i].text);
    var pieces := Pieces(tk, t, target, overlapTokens);
    var flushed := Flush(cur, carried, i);
    var pg := PieceGroups(pieces, S[i].page, i);
    calc {
      Fresh(before + flushed + pg);
      { FreshAppend(before + flushed, pg); }
      Fresh(before + flushed) + Fresh(pg);
      { FreshAppend(before, flushed); FreshFlush(cur, carried, i); }
      Fresh(before) + cur[carried..] + Fresh(pg);
      { FreshPieceGroups(pieces, S[i].page, i); }
      Contributions(tk, target, overlapTokens, S[..i]) + PieceSentences(pieces, S[i].page);
      { assert Contribution(tk, target, overlapTokens, S[i]) == PieceSentences(pieces, S[i].page); }
      Contributions(tk, target, overlapTokens, S[..i]) + Contribution(tk, target, overlapTokens, S[i]);
      { ContributionsSnoc(tk, target, overlapTokens, S, i); }
      Contributions(tk, target, overlapTokens, S[..i + 1]);
    }
  }

  /** Finalizing the current chunk adds its sentences beyond the overlap. */
  lemma FreshFlush(cur: seq<Sentence>, carried: nat, at: nat)
    requires carried <= |cur|
    ensures Fresh(Flush(cur, carried, at)) == cur[carried..]
  {
    if cur != [] {
      assert Fresh(Flush(cur, carried, at)) == Fresh([]) + NewPart(Group(cur, carried, false, false, at));
    }
  }

  lemma CoverFlush(tk: Tokenizer, target: int, overlapTokens: int, S: seq<Sentence>,
                     i: nat, cur: seq<Sentence>, curToks: nat, carried: nat, before: seq<Group>)
    returns (i2: nat, cur2: seq<Sentence>, curToks2: nat, carried2: nat, after: seq<Group>)
    requires i < |S| && Terminates(tk, target, S)
    requires carried <= |cur|
    requires Fresh(before) + cur[carried..] == Contributions(tk, target, overlapTokens, S[..i])
    requires Trim(S[i].text) != [] && TokLen(tk, Trim(S[i].text)) <= target
    requires cur != [] && curToks + TokLen(tk, Trim(S[i].text)) > target
    ensures Progress(tk, S, i, cur, curToks, i2, cur2, curToks2)
    ensures carried2 <= |cur2|
    ensures Fresh(after) + cur2[carried2..] == Contributions(tk, target, overlapTokens, S[..i2])
    ensures before + GroupsFrom(tk, target, overlapTokens, S, i, cur, curToks, carried)
      == after + GroupsFrom(tk, target, overlapTokens, S, i2, cur2, curToks2, carried2)
  {
    var ov := Seed(tk, cur, overlapTokens);
    var guard := |ov| == |cur| && SumToks(tk, ov) == curToks;
    cur2 := if guard then [] else ov;
    curToks2 := if guard then 0 else SumToks(tk, ov);
    FlushStep(tk, target, overlapTokens, S, i, cur, curToks, carried, before, cur2, curToks2);
    after := before + [Group(cur, carried, false, true, i)];
    assert after[..|after| - 1] == before;
    i2, carried2 := i, |cur2|;
  }

  lemma CoverAppend(tk: Tokenizer, target: int, overlapTokens: int, S: seq<Sentence>,
                     i: nat, cur: seq<Sentence>, curToks: nat, carried: nat, before: seq<Group>)
    returns (i2: nat, cur2: seq<Sentence>, curToks2: nat, carried2: nat, after: seq<Group>)
    requires i < |S| && Terminates(tk, target, S)
    requires carried <= |cur|
    requires Fresh(before) + cur[carried..] == Contributions(tk, target, overlapTokens, S[..i])
    requires Trim(S[i].text) != [] && TokLen(tk, Trim(S[i].text)) <= target
    requires !(cur != [] && curToks + TokLen(tk, Trim(S[i].text)) > target)
    ensures Progress(tk, S, i, cur, curToks, i2, cur2, curToks2)
    ensures carried2 <= |cur2|
    ensures Fresh(after) + cur2[carried2..] == Contributions(tk, target, overlapTokens, S[..i2])
    ensures before + GroupsFrom(tk, target, overlapTokens, S, i, cur, curToks, carried)
      == after + GroupsFrom(tk, target, overlapTokens, S, i2, cur2, curToks2, carried2)
  {
    i2, cur2, curToks2, carried2, after := i + 1, cur + [S[i]], curToks + TokLen(tk, Trim(S[i].text)), carried, before;
    AppendStep(tk, target, overlapTokens, S, i, cur, curToks, carried);
    assert before + GroupsFrom(tk, target, overlapTokens, S, i, cur, curToks, carried)
      == after + GroupsFrom(tk, target, overlapTokens, S, i2, cur2, curToks2, carried2);
    AppendContributes(tk, target, overlapTokens, S, i, cur, carried, before);
  }

  lemma AppendContributes(tk: Tokenizer, target: int, overlapTokens: int, S: seq<Sentence>,
                          i: nat, cur: seq<Sentence>, carried: nat, before: seq<Group>)
    requires i < |S| && Terminates(tk, target, S)
    requires carried <= |cur|
    requires Fresh(before) + cur[carried..] == Contributions(tk, target, overlapTokens, S[..i])
    requires Trim(S[i].text) != [] && TokLen(tk, Trim(S[i].text)) <= target
    ensures Fresh(before) + (cur + [S[i]])[carried..] == Contributions(tk, target, overlapTokens, S[..i + 1])
  {
    ContributionsSnoc(tk, target, overlapTokens, S, i);
    assert (cur + [S[i]])[carried..] == cur[carried..] + [S[i]];
    AppendAssoc(Fresh(before), cur[carried..], [S[i]]);
  }

  /** Coverage, from one state of the loop on: the sentences the groups
      add beyond their overlap are exactly the contributions of the
      sentences, in order. Nothing is lost and nothing is repeated except
      as overlap. */
  lemma {:induction false} CoverageFrom(tk: Tokenizer, target: int, overlapTokens: int, S: seq<Sentence>,
                                        i: nat, cur: seq<Sentence>, curToks: nat, carried: nat, before: seq<Group>)
    requires i <= |S| && Terminates(tk, target, S)
    requires carried <= |cur|
    requires Fresh(before) + cur[carried..] == Contributions(tk, target, overlapTokens, S[..i])
    ensures Fresh(before + GroupsFrom(tk, target, overlapTokens, S, i, cur, curToks, carried))
      == Contributions(tk, target, overlapTokens, S)
    decreases |S| - i, |cur|, if curToks == SumToks(tk, cur) then 0 else 1
  {
    if i == |S| {
      assert S[..i] == S;
      FreshAppend(before, Flush(cur, carried, i));
      FreshFlush(cur, carried, i);
    } else {
      var i2, cur2, curToks2, carried2, after := CoverageStep(tk, target, overlapTokens, S, i, cur, curToks, carried, before);
      CoverageFrom(tk, target, overlapTokens, S, i2, cur2, curToks2, carried2, after);
    }
  }

  /** Every non-blank sentence reaches the chunks, in order: the sentences
      of the groups, overlap left out, are the sentences of the input with
      the blank ones dropped and the oversized ones replaced by their
      pieces. */
  lemma Coverage(tk: Tokenizer, target: int, overlapTokens: int, S: seq<Sentence>)
    requires Terminates(tk, target, S)
    ensures Fresh(Groups(tk, target, overlapTokens, S)) == Contributions(tk, target, overlapTokens, S)
  {
    assert S[..0] == [];
    CoverageFrom(tk, target, overlapTokens, S, 0, [], 0, 0, []);
    assert [] + Groups(tk, target, overlapTokens, S) == Groups(tk, target, overlapTokens, S);
  }

  // ----- The overlap walk -----

  lemma {:induction false} SumToksCons(tk: Tokenizer, ss: seq<Sentence>, m: nat)
    requires 0 < m <= |ss|
    ensures SumToks(tk, ss[m - 1..]) == TokLen(tk, ss[m - 1].text) + SumToks(tk, ss[m..])
  {
    assert ss[m - 1..][1..] == ss[m..];
  }

  /** `m` is a legitimate stopping point of the walk over `prev`: it is
      the last sentence or the suffix from it is within the budget, and
      taking one more sentence would go over it. */
  predicate StopsAt(tk: Tokenizer, prev: seq<Sentence>, overlap: int, m: nat) {
    m < |prev| && (m == |prev| - 1 || SumToks(tk, prev[m..]) <= overlap)
    && (m > 0 ==> SumToks(tk, prev[m - 1..]) > overlap)
  }

  /** Where the walk stops, once it has legitimately reached `prev[j..]`:
      it stops at the last sentence or within the budget, and taking one
      more sentence would go over it. */
  lemma {:induction false} OverlapFromSpec(tk: Tokenizer, prev: seq<Sentence>, overlap: int, j: nat)
    requires j < |prev|
    requires j == |prev| - 1 || SumToks(tk, prev[j..]) <= overlap
    ensures StopsAt(tk, prev, overlap, OverlapFrom(tk, prev, overlap, j))
  {
    if j == 0 {
      assert OverlapFrom(tk, prev, overlap, j) == j;
    } else {
      SumToksCons(tk, prev, j);
      if SumToks(tk, prev[j..]) + TokLen(tk, prev[j - 1].text) <= overlap {
        assert OverlapFrom(tk, prev, overlap, j) == OverlapFrom(tk, prev, overlap, j - 1);
        OverlapFromSpec(tk, prev, overlap, j - 1);
      } else {
        assert OverlapFrom(tk, prev, overlap, j) == j;
        assert StopsAt(tk, prev, overlap, j);
      }
    }
  }

  /** The overlap seeded into the next chunk is the longest suffix of the
      finalized chunk whose token total stays within `overlap`, except that
      it always holds at least the last sentence. */
  lemma SeedSpec(tk: Tokenizer, prev: seq<Sentence>, overlap: int)
    requires prev != []
    ensures var sd := Seed(tk, prev, overlap);
      var m := |prev| - |sd|;
      sd != [] && sd == prev[m..]
      && (|sd| == 1 || SumToks(tk, sd) <= overlap)
      && (m > 0 ==> SumToks(tk, prev[m - 1..]) > overlap)
  {
    OverlapFromSpec(tk, prev, overlap, |prev| - 1);
  }

  lemma {:induction false} SumToksSnoc(tk: Tokenizer, ss: seq<Sentence>, s: Sentence)
    ensures SumToks(tk, ss + [s]) == SumToks(tk, ss) + TokLen(tk, s.text)
  {
    if ss != [] {
      assert (ss + [s])[1..] == ss[1..] + [s];
      SumToksSnoc(tk, ss[1..], s);
    }
  }

  lemma {:induction false} SumToksSuffix(tk: Tokenizer, ss: seq<Sentence>, m: nat)
    requires m <= |ss|
    ensures SumToks(tk, ss[m..]) <= SumToks(tk, ss)
  {
    if m > 0 {
      assert ss[1..][m - 1..] == ss[m..];
      SumToksSuffix(tk, ss[1..], m - 1);
    }
  }

  // ----- Finalizing one chunk -----

  /** A sentence whose text is not all whitespace. */
  predicate NonBlank(s: Sentence) {
    Trim(s.text) != []
  }

  lemma JoinPrefix(parts: seq<string>, sep: string)
    requires |parts| >= 1
    ensures |parts[0]| <= |Join(parts, sep)| && Join(parts, sep)[..|parts[0]|] == parts[0]
  {
  }

  lemma {:induction false} JoinAllSpace(parts: seq<string>)
    requires forall k :: 0 <= k < |parts| ==> AllSpace(parts[k])
    ensures AllSpace(Join(parts, " "))
  {
    if |parts| > 1 {
      JoinAllSpace(parts[1..]);
      var rest := Join(parts[1..], " ");
      assert Join(parts, " ") == parts[0] + " " + rest;
      assert IsSpace(' ');
    }
  }

  /** What `finalize` makes of the sentences of a chunk: its number, the
      stripped joined text, the same text after the file name and a blank
      line, and a page label that is never empty, the chunk number standing
      in when no sentence has a page. The text is empty exactly when every
      sentence is blank. */
  lemma FinalizeSpec(fileName: string, current: seq<Sentence>, n: int)
    ensures var c := Finalize(fileName, current, n);
      c.chunkNumber == n
      && c.embeddedText == fileName + "\n\n" + c.rawText
      && Trimmed(c.rawText)
      && (c.rawText != [] <==> exists k :: 0 <= k < |current| && NonBlank(current[k]))
      && c.pageNumber != []
      && (PagesOf(current) == [] ==> c.pageNumber == IntToString(n))
      && (PagesOf(current) != [] ==> c.pageNumber == PageRange(PagesOf(current)))
  {
    JoinedText(current);
    TrimTrimmed(Join(Texts(current), " "));
  }

  /** The joined, stripped text of some sentences is empty exactly when
      every one of them is blank. */
  lemma JoinedText(current: seq<Sentence>)
    ensures Trim(Join(Texts(current), " ")) != [] <==> exists k :: 0 <= k < |current| && NonBlank(current[k])
  {
    var parts := Texts(current);
    var joined := Join(parts, " ");
    if exists k :: 0 <= k < |current| && NonBlank(current[k]) {
      var k :| 0 <= k < |current| && NonBlank(current[k]);
      TrimEmpty(parts[k]);
      var j :| 0 <= j < |parts[k]| && !IsSpace(parts[k][j]);
      var a := JoinInfix(parts, k);
      assert joined[a + j] == parts[k][j];
      TrimEmpty(joined);
    } else {
      forall k | 0 <= k < |parts| ensures AllSpace(parts[k]) {
        TrimEmpty(current[k].text);
      }
      JoinAllSpace(parts);
      TrimEmpty(joined);
    }
  }

  /** Each part appears whole inside the joined text. */
  lemma {:induction false} JoinInfix(parts: seq<string>, k: nat) returns (a: nat)
    requires k < |parts|
    ensures a + |parts[k]| <= |Join(parts, " ")|
    ensures Join(parts, " ")[a..a + |parts[k]|] == parts[k]
  {
    if k == 0 {
      JoinPrefix(parts, " ");
      a := 0;
    } else {
      var b := JoinInfix(parts[1..], k - 1);
      var rest := Join(parts[1..], " ");
      assert parts[1..][k - 1] == parts[k];
      a := |parts[0]| + 1 + b;
      assert Join(parts, " ") == parts[0] + " " + rest;
      assert Join(parts, " ")[a..a + |parts[k]|] == rest[b..b + |parts[k]|];
    }
  }

  // ----- No empty chunk -----

  predicate AllNonBlank(ss: seq<Sentence>) {
    forall s :: s in ss ==> NonBlank(s)
  }

  /** A group with at least one sentence and no blank one. */
  predicate Solid(g: Group) {
    g.members != [] && AllNonBlank(g.members)
  }

  predicate AllSolid(gs: seq<Group>) {
    forall g :: g in gs ==> Solid(g)
  }

  lemma SolidStep(tk: Tokenizer, target: int, overlapTokens: int, S: seq<Sentence>,
                     i: nat, cur: seq<Sentence>, curToks: nat, carried: nat, before: seq<Group>)
    returns (i2: nat, cur2: seq<Sentence>, curToks2: nat, carried2: nat, after: seq<Group>)
    requires i < |S| && Terminates(tk, target, S)
    requires AllSolid(before) && AllNonBlank(cur)
    ensures Progress(tk, S, i, cur, curToks, i2, cur2, curToks2)
    ensures AllSolid(after) && AllNonBlank(cur2)
    ensures before + GroupsFrom(tk, target, overlapTokens, S, i, cur, curToks, carried)
      == after + GroupsFrom(tk, target, overlapTokens, S, i2, cur2, curToks2, carried2)
  {
    var t := Trim(S[i].text);
    if t == [] {
      BlankStep(tk, target, overlapTokens, S, i, cur, curToks, carried);
      i2, cur2, curToks2, carried2, after := i + 1, cur, curToks, carried, before;
    } else if TokLen(tk, t) > target {
      i2, cur2, curToks2, carried2, after := SolidOversized(tk, target, overlapTokens, S, i, cur, curToks, carried, before);
    } else if cur != [] && curToks + TokLen(tk, t) > target {
      i2, cur2, curToks2, carried2, after := SolidFlush(tk, target, overlapTokens, S, i, cur, curToks, carried, before);
    } else {
      i2, cur2, curToks2, carried2, after := SolidAppend(tk, target, overlapTokens, S, i, cur, curToks, carried, before);
    }
  }

  lemma SolidOversized(tk: Tokenizer, target: int, overlapTokens: int, S: seq<Sentence>,
                     i: nat, cur: seq<Sentence>, curToks: nat, carried: nat, before: seq<Group>)
    returns (i2: nat, cur2: seq<Sentence>, curToks2: nat, carried2: nat, after: seq<Group>)
    requires i < |S| && Terminates(tk, target, S)
    requires AllSolid(before) && AllNonBlank(cur)
    requires Trim(S[i].text) != [] && TokLen(tk, Trim(S[i].text)) > target
    ensures Progress(tk, S, i, cur, curToks, i2, cur2, curToks2)
    ensures AllSolid(after) && AllNonBlank(cur2)
    ensures before + GroupsFrom(tk, target, overlapTokens, S, i, cur, curToks, carried)
      == after + GroupsFrom(tk, target, overlapTokens, S, i2, cur2, curToks2, carried2)
  {
    var t := Trim(S[i].text);
    OversizedStep(tk, target, overlapTokens, S, i, cur, curToks, carried, before);
    var pieces := Pieces(tk, t, target, overlapTokens);
    after := before + Flush(cur, carried, i) + PieceGroups(pieces, S[i].page, i);
    i2, cur2, curToks2, carried2 := i + 1, [], if cur != [] then 0 else curToks, 0;
    TrimTrimmed(S[i].text);
    PiecesOfTrimmed(tk, t, target, overlapTokens);
    SolidPieceGroups(pieces, S[i].page, i);
  }

  /** The groups of the pieces of a cut sentence are solid when no piece is blank. */
  lemma SolidPieceGroups(pieces: seq<string>, page: Option<int>, at: nat)
    requires forall j :: 0 <= j < |pieces| ==> pieces[j] != [] && Trimmed(pieces[j])
    ensures AllSolid(PieceGroups(pieces, page, at))
  {
    forall g | g in PieceGroups(pieces, page, at) ensures Solid(g) {
      var k :| 0 <= k < |pieces| && PieceGroups(pieces, page, at)[k] == g;
      TrimTrimmed(pieces[k]);
      assert g.members == [Sentence(pieces[k], page)];
    }
  }

  lemma SolidFlush(tk: Tokenizer, target: int, overlapTokens: int, S: seq<Sentence>,
                     i: nat, cur: seq<Sentence>, curToks: nat, carried: nat, before: seq<Group>)
    returns (i2: nat, cur2: seq<Sentence>, curToks2: nat, carried2: nat, after: seq<Group>)
    requires i < |S| && Terminates(tk, target, S)
    requires AllSolid(before) && AllNonBlank(cur)
    requires Trim(S[i].text) != [] && TokLen(tk, Trim(S[i].text)) <= target
    requires cur != [] && curToks + TokLen(tk, Trim(S[i].text)) > target
    ensures Progress(tk, S, i, cur, curToks, i2, cur2, curToks2)
    ensures AllSolid(after) && AllNonBlank(cur2)
    ensures before + GroupsFrom(tk, target, overlapTokens, S, i, cur, curToks, carried)
      == after + GroupsFrom(tk, target, overlapTokens, S, i2, cur2, curToks2, carried2)
  {
    var ov := Seed(tk, cur, overlapTokens);
    var guard := |ov| == |cur| && SumToks(tk, ov) == curToks;
    cur2 := if guard then [] else ov;
    curToks2 := if guard then 0 else SumToks(tk, ov);
    FlushStep(tk, target, overlapTokens, S, i, cur, curToks, carried, before, cur2, curToks2);
    after := before + [Group(cur, carried, false, true, i)];
    i2, carried2 := i, |cur2|;
    forall s | s in ov ensures NonBlank(s) {
      var k :| 0 <= k < |ov| && ov[k] == s;
      assert s == cur[OverlapFrom(tk, cur, overlapTokens, |cur|) + k];
    }
  }

  lemma SolidAppend(tk: Tokenizer, target: int, overlapTokens: int, S: seq<Sentence>,
                     i: nat, cur: seq<Sentence>, curToks: nat, carried: nat, before: seq<Group>)
    returns (i2: nat, cur2: seq<Sentence>, curToks2: nat, carried2: nat, after: seq<Group>)
    requires i < |S| && Terminates(tk, target, S)
    requires AllSolid(before) && AllNonBlank(cur)
    requires Trim(S[i].text) != [] && TokLen(tk, Trim(S[i].text)) <= target
    requires !(cur != [] && curToks + TokLen(tk, Trim(S[i].text)) > target)
    ensures Progress(tk, S, i, cur, curToks, i2, cur2, curToks2)
    ensures AllSolid(after) && AllNonBlank(cur2)
    ensures before + GroupsFrom(tk, target, overlapTokens, S, i, cur, curToks, carried)
      == after + GroupsFrom(tk, target, overlapTokens, S, i2, cur2, curToks2, carried2)
  {
    i2, cur2, curToks2, carried2, after := i + 1, cur + [S[i]], curToks + TokLen(tk, Trim(S[i].text)), carried, before;
    AppendStep(tk, target, overlapTokens, S, i, cur, curToks, carried);
    assert before + GroupsFrom(tk, target, overlapTokens, S, i, cur, curToks, carried)
      == after + GroupsFrom(tk, target, overlapTokens, S, i2, cur2, curToks2, carried2);
  }

  lemma {:induction false} SolidFrom(tk: Tokenizer, target: int, overlapTokens: int, S: seq<Sentence>,
                                     i: nat, cur: seq<Sentence>, curToks: nat, carried: nat, before: seq<Group>)
    requires i <= |S| && Terminates(tk, target, S)
    requires AllSolid(before) && AllNonBlank(cur)
    ensures AllSolid(before + GroupsFrom(tk, target, overlapTokens, S, i, cur, curToks, carried))
    decreases |S| - i, |cur|, if curToks == SumToks(tk, cur) then 0 else 1
  {
    if i < |S| {
      var i2, cur2, curToks2, carried2, after := SolidStep(tk, target, overlapTokens, S, i, cur, curToks, carried, before);
      SolidFrom(tk, target, overlapTokens, S, i2, cur2, curToks2, carried2, after);
    }
  }

  /** Every group the loop finalizes holds at least one sentence and no
      blank one: blank sentences are skipped, the current chunk is
      finalized only when it is not empty, and the overlap is taken from
      it. */
  lemma GroupsSolid(tk: Tokenizer, target: int, overlapTokens: int, S: seq<Sentence>)
    requires Terminates(tk, target, S)
    ensures forall g :: g in Groups(tk, target, overlapTokens, S) ==>
      g.members != [] && forall s :: s in g.members ==> Trim(s.text) != []
  {
    SolidFrom(tk, target, overlapTokens, S, 0, [], 0, 0, []);
    assert [] + Groups(tk, target, overlapTokens, S) == Groups(tk, target, overlapTokens, S);
  }

  /** Every chunk `chunk_sentences` returns is numbered by its position
      from 1, has a non-empty stripped text, carries that text after the
      file name and a blank line, and has a non-empty page label. */
  lemma ChunksNonEmpty(tk: Tokenizer, fileName: string, target: int, overlapTokens: int, S: seq<Sentence>)
    requires Terminates(tk, target, S)
    ensures var cs := Chunked(tk, fileName, target, overlapTokens, S);
      forall k :: 0 <= k < |cs| ==>
        cs[k].chunkNumber == k + 1
        && cs[k].rawText != [] && Trimmed(cs[k].rawText)
        && cs[k].embeddedText == fileName + "\n\n" + cs[k].rawText
        && cs[k].pageNumber != []
  {
    var gs := Groups(tk, target, overlapTokens, S);
    var cs := Chunked(tk, fileName, target, overlapTokens, S);
    GroupsSolid(tk, target, overlapTokens, S);
    forall k | 0 <= k < |cs|
      ensures cs[k].chunkNumber == k + 1
        && cs[k].rawText != [] && Trimmed(cs[k].rawText)
        && cs[k].embeddedText == fileName + "\n\n" + cs[k].rawText
        && cs[k].pageNumber != []
    {
      var m := gs[k].members;
      assert gs[k] in gs;
      assert m[0] in m;
      FinalizeSpec(fileName, m, k + 1);
    }
  }

  // ----- Budget and overlap, for stripped sentences -----

  /** Sentences whose texts are already stripped, as the segmenter
      produces them. */
  predicate Stripped(S: seq<Sentence>) {
    forall k :: 0 <= k < |S| ==> Trim(S[k].text) == S[k].text
  }

  /** The segmenter's sentences are stripped, so the properties below
      hold for every page of text it splits. */
  lemma SegmenterStripped(text: string, page: Option<int>)
    ensures Stripped(SentencesOf(text, page))
  {
    SentencesOfSpec(text, page);
    SegmentedTextsStripped(SentencesOf(text, page), page, CleanText(text));
  }

  /** `g` opens with the overlap seeded from `prev`: a proper suffix of
      the sentences of `prev`, which was finalized because the next
      sentence did not fit. */
  predicate LinkTo(tk: Tokenizer, overlapTokens: int, prev: Group, g: Group) {
    prev.overflowed && !prev.oversized && g.carried <= |g.members| && g.carried < |prev.members|
    && g.members[..g.carried] == Seed(tk, prev.members, overlapTokens)
  }

  /** A chunk with `carried` sentences of overlap and sentences `members`
      may follow `prev`, a chunk finalized because the next sentence did
      not fit: it opens with the seed of `prev` when that seed is shorter
      than `prev`, and with no overlap when the seed would be all of it. */
  predicate Follows(tk: Tokenizer, overlapTokens: int, prev: Group, carried: nat, members: seq<Sentence>) {
    var ov := Seed(tk, prev.members, overlapTokens);
    if |ov| < |prev.members| then carried == |ov| && carried <= |members| && members[..carried] == ov
    else carried == 0
  }

  /** A piece of a cut sentence stands alone and seeds no overlap; any
      other group keeps within the budget. */
  predicate GroupOK(tk: Tokenizer, target: int, g: Group) {
    (g.oversized ==> g.carried == 0 && |g.members| == 1 && !g.overflowed)
    && (!g.oversized ==> SumToks(tk, g.members) <= target)
  }

  /** `g` directly follows `prev`: it opens with overlap only when that was
      seeded from `prev`, and it opens as `Follows` says when `prev`
      overflowed. */
  predicate Joined(tk: Tokenizer, overlapTokens: int, prev: Group, g: Group) {
    (g.carried > 0 ==> LinkTo(tk, overlapTokens, prev, g))
    && (prev.overflowed ==> Follows(tk, overlapTokens, prev, g.carried, g.members))
  }

  /** Every group is as `GroupOK` says, the first opens with no overlap,
      and each other one is `Joined` to the one before. */
  predicate Shaped(tk: Tokenizer, target: int, overlapTokens: int, gs: seq<Group>) {
    forall k {:trigger gs[k]} :: 0 <= k < |gs| ==>
      GroupOK(tk, target, gs[k])
      && (k == 0 ==> gs[k].carried == 0)
      && (k > 0 ==> Joined(tk, overlapTokens, gs[k - 1], gs[k]))
  }

  /** The last group, if any, owes no overlap to a successor. */
  predicate Settled(gs: seq<Group>) {
    gs == [] || !gs[|gs| - 1].overflowed
  }

  /** The state of the loop, for stripped sentences: the running count is
      the token total of the current chunk and within the budget, and the
      overlap at its front was seeded from the last finalized group. When
      that group overflowed, the current chunk opens as `Follows` says, and
      if it is still empty, the sentence that did not fit is still to be
      added. */
  predicate StateOK(tk: Tokenizer, target: int, overlapTokens: int, S: seq<Sentence>, i: nat,
                    before: seq<Group>, cur: seq<Sentence>, curToks: nat, carried: nat)
  {
    carried <= |cur| && curToks == SumToks(tk, cur) && (cur != [] ==> curToks <= target)
    && (carried > 0 ==> before != [] && LinkTo(tk, overlapTokens, before[|before| - 1], Group(cur, carried, false, false, i)))
    && (!Settled(before) ==>
          Follows(tk, overlapTokens, before[|before| - 1], carried, cur)
          && (cur == [] ==> i < |S| && Trim(S[i].text) != [] && TokLen(tk, Trim(S[i].text)) <= target))
  }

  /** The coverage invariant of the loop: the groups finalized so far,
      with the fresh part of the current chunk, hold the contributions of
      the sentences before `i`. */
  predicate Covered(tk: Tokenizer, target: int, overlapTokens: int, S: seq<Sentence>, i: nat,
                    before: seq<Group>, cur: seq<Sentence>, carried: nat)
    requires i <= |S| && Terminates(tk, target, S)
  {
    carried <= |cur| && Fresh(before) + cur[carried..] == Contributions(tk, target, overlapTokens, S[..i])
  }

  /** Why the last of the groups `gs` was finalized. Its `at` names the
      sentence the loop was handling, which is not blank. A group that is
      not a piece holds, with the groups before it, the contributions of
      exactly the sentences before that one. A group that overflowed was
      closed because that sentence fits the budget on its own but not on
      top of the group's token total; any other group that is not a piece
      was closed because the input ended or that sentence is over the
      budget; and a piece was cut from that sentence, which is over the
      budget. */
  predicate ClosedLast(tk: Tokenizer, target: int, overlapTokens: int, S: seq<Sentence>, gs: seq<Group>)
    requires Terminates(tk, target, S) && gs != []
  {
    var g := gs[|gs| - 1];
    && g.at <= |S|
    && (g.at < |S| ==> Trim(S[g.at].text) != [])
    && (!g.oversized ==> Fresh(gs) == Contributions(tk, target, overlapTokens, S[..g.at]))
    && (g.oversized ==> g.at < |S| && TokLen(tk, Trim(S[g.at].text)) > target)
    && (g.overflowed ==>
          && g.at < |S| && TokLen(tk, Trim(S[g.at].text)) <= target
          && SumToks(tk, g.members) + TokLen(tk, Trim(S[g.at].text)) > target)
    && (!g.oversized && !g.overflowed ==> g.at == |S| || TokLen(tk, Trim(S[g.at].text)) > target)
  }

  /** Group `k` of `gs` was finalized as `ClosedLast` says, judged by the
      groups up to it. */
  predicate ClosedAt(tk: Tokenizer, target: int, overlapTokens: int, S: seq<Sentence>, gs: seq<Group>, k: nat)
    requires Terminates(tk, target, S) && k < |gs|
  {
    ClosedLast(tk, target, overlapTokens, S, gs[..k + 1])
  }

  predicate Closed(tk: Tokenizer, target: int, overlapTokens: int, S: seq<Sentence>, gs: seq<Group>)
    requires Terminates(tk, target, S)
  {
    forall k :: 0 <= k < |gs| ==> ClosedAt(tk, target, overlapTokens, S, gs, k)
  }

  lemma FreshSnoc(gs: seq<Group>, g: Group)
    ensures Fresh(gs + [g]) == Fresh(gs) + NewPart(g)
  {
    assert (gs + [g])[..|gs|] == gs;
  }

  lemma ClosedSnoc(tk: Tokenizer, target: int, overlapTokens: int, S: seq<Sentence>, gs: seq<Group>, g: Group)
    requires Terminates(tk, target, S)
    requires Closed(tk, target, overlapTokens, S, gs)
    requires ClosedLast(tk, target, overlapTokens, S, gs + [g])
    ensures Closed(tk, target, overlapTokens, S, gs + [g])
  {
    var r := gs + [g];
    forall k | 0 <= k < |r|
      ensures ClosedAt(tk, target, overlapTokens, S, r, k)
    {
      if k < |gs| {
        assert ClosedAt(tk, target, overlapTokens, S, gs, k);
        assert r[..k + 1] == gs[..k + 1];
      } else {
        assert r[..k + 1] == r;
      }
    }
  }

  /** The current chunk, finalized at sentence `i` because the input
      ended or that sentence is over the budget, is closed as `ClosedAt`
      says. */
  lemma ClosedFlush(tk: Tokenizer, target: int, overlapTokens: int, S: seq<Sentence>, i: nat,
                    before: seq<Group>, cur: seq<Sentence>, carried: nat)
    requires i <= |S| && Terminates(tk, target, S)
    requires Closed(tk, target, overlapTokens, S, before)
    requires Covered(tk, target, overlapTokens, S, i, before, cur, carried)
    requires i < |S| ==> Trim(S[i].text) != [] && TokLen(tk, Trim(S[i].text)) > target
    ensures Closed(tk, target, overlapTokens, S, before + Flush(cur, carried, i))
  {
    if cur != [] {
      var g := Group(cur, carried, false, false, i);
      FreshSnoc(before, g);
      ClosedSnoc(tk, target, overlapTokens, S, before, g);
    } else {
      assert before + Flush(cur, carried, i) == before;
    }
  }

  /** The pieces of an oversized sentence are closed as `ClosedAt` says. */
  lemma ClosedPieces(tk: Tokenizer, target: int, overlapTokens: int, S: seq<Sentence>, i: nat,
                     gs: seq<Group>, pieces: seq<string>)
    requires i < |S| && Terminates(tk, target, S)
    requires Closed(tk, target, overlapTokens, S, gs)
    requires Trim(S[i].text) != [] && TokLen(tk, Trim(S[i].text)) > target
    ensures Closed(tk, target, overlapTokens, S, gs + PieceGroups(pieces, S[i].page, i))
  {
    var r := gs + PieceGroups(pieces, S[i].page, i);
    forall k | 0 <= k < |r|
      ensures ClosedAt(tk, target, overlapTokens, S, r, k)
    {
      if k < |gs| {
        assert ClosedAt(tk, target, overlapTokens, S, gs, k);
        assert r[..k + 1] == gs[..k + 1];
      } else {
        assert r[..k + 1][k] == PieceGroups(pieces, S[i].page, i)[k - |gs|];
      }
    }
  }

  lemma ShapedSnoc(tk: Tokenizer, target: int, overlapTokens: int, gs: seq<Group>, g: Group)
    requires Shaped(tk, target, overlapTokens, gs)
    requires GroupOK(tk, target, g)
    requires if gs == [] then g.carried == 0 else Joined(tk, overlapTokens, gs[|gs| - 1], g)
    ensures Shaped(tk, target, overlapTokens, gs + [g])
  {
    var r := gs + [g];
    forall k | 0 <= k < |r|
      ensures GroupOK(tk, target, r[k])
        && (k == 0 ==> r[k].carried == 0)
        && (k > 0 ==> Joined(tk, overlapTokens, r[k - 1], r[k]))
    {
      if k < |gs| {
        assert r[k] == gs[k];
        if k > 0 {
          assert r[k - 1] == gs[k - 1];
        }
      } else {
        assert r[k] == g;
        if k > 0 {
          assert r[k - 1] == gs[|gs| - 1];
        }
      }
    }
  }

  lemma ShapedPieces(tk: Tokenizer, target: int, overlapTokens: int, gs: seq<Group>, pieces: seq<string>, page: Option<int>, at: nat)
    requires Shaped(tk, target, overlapTokens, gs) && Settled(gs)
    ensures Shaped(tk, target, overlapTokens, gs + PieceGroups(pieces, page, at))
    ensures Settled(gs + PieceGroups(pieces, page, at))
  {
    var r := gs + PieceGroups(pieces, page, at);
    forall k | 0 <= k < |r|
      ensures GroupOK(tk, target, r[k])
        && (k == 0 ==> r[k].carried == 0)
        && (k > 0 ==> Joined(tk, overlapTokens, r[k - 1], r[k]))
    {
      if k < |gs| {
        assert r[k] == gs[k];
        if k > 0 {
          assert r[k - 1] == gs[k - 1];
        }
      } else {
        assert r[k] == PieceGroups(pieces, page, at)[k - |gs|] == Group([Sentence(pieces[k - |gs|], page)], 0, true, false, at);
        if k > |gs| {
          assert r[k - 1] == PieceGroups(pieces, page, at)[k - 1 - |gs|];
        } else if k > 0 {
          assert r[k - 1] == gs[|gs| - 1];
        }
      }
    }
    if pieces != [] {
      assert r[|r| - 1] == PieceGroups(pieces, page, at)[|pieces| - 1];
    } else {
      assert r == gs;
    }
  }

  /** The current chunk, finalized, keeps the shape and owes no overlap. */
  lemma ShapedFlush(tk: Tokenizer, target: int, overlapTokens: int, S: seq<Sentence>, i: nat, before: seq<Group>,
                    cur: seq<Sentence>, curToks: nat, carried: nat)
    requires Shaped(tk, target, overlapTokens, before)
    requires StateOK(tk, target, overlapTokens, S, i, before, cur, curToks, carried)
    requires !Settled(before) ==> cur != []
    ensures Shaped(tk, target, overlapTokens, before + Flush(cur, carried, i))
    ensures Settled(before + Flush(cur, carried, i))
  {
    if cur != [] {
      ShapedSnoc(tk, target, overlapTokens, before, Group(cur, carried, false, false, i));
    } else {
      assert before + Flush(cur, carried, i) == before;
    }
  }

  lemma ShapeStep(tk: Tokenizer, target: int, overlapTokens: int, S: seq<Sentence>,
                     i: nat, cur: seq<Sentence>, curToks: nat, carried: nat, before: seq<Group>)
    returns (i2: nat, cur2: seq<Sentence>, curToks2: nat, carried2: nat, after: seq<Group>)
    requires i < |S| && Terminates(tk, target, S) && Stripped(S)
    requires Shaped(tk, target, overlapTokens, before)
    requires StateOK(tk, target, overlapTokens, S, i, before, cur, curToks, carried)
    requires Covered(tk, target, overlapTokens, S, i, before, cur, carried)
    requires Closed(tk, target, overlapTokens, S, before)
    ensures Progress(tk, S, i, cur, curToks, i2, cur2, curToks2)
    ensures Shaped(tk, target, overlapTokens, after)
    ensures StateOK(tk, target, overlapTokens, S, i2, after, cur2, curToks2, carried2)
    ensures Covered(tk, target, overlapTokens, S, i2, after, cur2, carried2)
    ensures Closed(tk, target, overlapTokens, S, after)
    ensures before + GroupsFrom(tk, target, overlapTokens, S, i, cur, curToks, carried)
      == after + GroupsFrom(tk, target, overlapTokens, S, i2, cur2, curToks2, carried2)
  {
    var t := Trim(S[i].text);
    if t == [] {
      BlankStep(tk, target, overlapTokens, S, i, cur, curToks, carried);
      ContributionsSnoc(tk, target, overlapTokens, S, i);
      i2, cur2, curToks2, carried2, after := i + 1, cur, curToks, carried, before;
    } else if TokLen(tk, t) > target {
      i2, cur2, curToks2, carried2, after := ShapeOversized(tk, target, overlapTokens, S, i, cur, curToks, carried, before);
    } else if cur != [] && curToks + TokLen(tk, t) > target {
      i2, cur2, curToks2, carried2, after := ShapeFlush(tk, target, overlapTokens, S, i, cur, curToks, carried, before);
    } else {
      i2, cur2, curToks2, carried2, after := ShapeAppend(tk, target, overlapTokens, S, i, cur, curToks, carried, before);
    }
  }

  lemma ShapeOversized(tk: Tokenizer, target: int, overlapTokens: int, S: seq<Sentence>,
                     i: nat, cur: seq<Sentence>, curToks: nat, carried: nat, before: seq<Group>)
    returns (i2: nat, cur2: seq<Sentence>, curToks2: nat, carried2: nat, after: seq<Group>)
    requires i < |S| && Terminates(tk, target, S) && Stripped(S)
    requires Shaped(tk, target, overlapTokens, before)
    requires StateOK(tk, target, overlapTokens, S, i, before, cur, curToks, carried)
    requires Covered(tk, target, overlapTokens, S, i, before, cur, carried)
    requires Closed(tk, target, overlapTokens, S, before)
    requires Trim(S[i].text) != [] && TokLen(tk, Trim(S[i].text)) > target
    ensures Progress(tk, S, i, cur, curToks, i2, cur2, curToks2)
    ensures Shaped(tk, target, overlapTokens, after)
    ensures StateOK(tk, target, overlapTokens, S, i2, after, cur2, curToks2, carried2)
    ensures Covered(tk, target, overlapTokens, S, i2, after, cur2, carried2)
    ensures Closed(tk, target, overlapTokens, S, after)
    ensures before + GroupsFrom(tk, target, overlapTokens, S, i, cur, curToks, carried)
      == after + GroupsFrom(tk, target, overlapTokens, S, i2, cur2, curToks2, carried2)
  {
    var t := Trim(S[i].text);
    OversizedStep(tk, target, overlapTokens, S, i, cur, curToks, carried, before);
    var pieces := Pieces(tk, t, target, overlapTokens);
    after := before + Flush(cur, carried, i) + PieceGroups(pieces, S[i].page, i);
    i2, cur2, curToks2, carried2 := i + 1, [], if cur != [] then 0 else curToks, 0;
    ShapedFlush(tk, target, overlapTokens, S, i, before, cur, curToks, carried);
    ShapedPieces(tk, target, overlapTokens, before + Flush(cur, carried, i), pieces, S[i].page, i);
    OversizedCovered(tk, target, overlapTokens, S, i, cur, carried, before);
    assert cur2[carried2..] == [];
    ClosedFlush(tk, target, overlapTokens, S, i, before, cur, carried);
    ClosedPieces(tk, target, overlapTokens, S, i, before + Flush(cur, carried, i), pieces);
  }

  lemma ShapeFlush(tk: Tokenizer, target: int, overlapTokens: int, S: seq<Sentence>,
                     i: nat, cur: seq<Sentence>, curToks: nat, carried: nat, before: seq<Group>)
    returns (i2: nat, cur2: seq<Sentence>, curToks2: nat, carried2: nat, after: seq<Group>)
    requires i < |S| && Terminates(tk, target, S) && Stripped(S)
    requires Shaped(tk, target, overlapTokens, before)
    requires StateOK(tk, target, overlapTokens, S, i, before, cur, curToks, carried)
    requires Covered(tk, target, overlapTokens, S, i, before, cur, carried)
    requires Closed(tk, target, overlapTokens, S, before)
    requires Trim(S[i].text) != [] && TokLen(tk, Trim(S[i].text)) <= target
    requires cur != [] && curToks + TokLen(tk, Trim(S[i].text)) > target
    ensures Progress(tk, S, i, cur, curToks, i2, cur2, curToks2)
    ensures Shaped(tk, target, overlapTokens, after)
    ensures StateOK(tk, target, overlapTokens, S, i2, after, cur2, curToks2, carried2)
    ensures Covered(tk, target, overlapTokens, S, i2, after, cur2, carried2)
    ensures Closed(tk, target, overlapTokens, S, after)
    ensures before + GroupsFrom(tk, target, overlapTokens, S, i, cur, curToks, carried)
      == after + GroupsFrom(tk, target, overlapTokens, S, i2, cur2, curToks2, carried2)
  {
    var ov := Seed(tk, cur, overlapTokens);
    var guard := |ov| == |cur| && SumToks(tk, ov) == curToks;
    cur2 := if guard then [] else ov;
    curToks2 := if guard then 0 else SumToks(tk, ov);
    FlushStep(tk, target, overlapTokens, S, i, cur, curToks, carried, before, cur2, curToks2);
    after := before + [Group(cur, carried, false, true, i)];
    i2, carried2 := i, |cur2|;
    ShapedOverflow(tk, target, overlapTokens, S, i, cur, curToks, carried, before, cur2, curToks2);
    ClosedOverflow(tk, target, overlapTokens, S, i, before, cur, carried, cur2);
  }

  /** The current chunk, finalized because the next sentence did not fit,
      keeps the shape, and the next one opens with its seed, or with
      nothing when the seed is the whole chunk. */
  lemma ShapedOverflow(tk: Tokenizer, target: int, overlapTokens: int, S: seq<Sentence>,
                       i: nat, cur: seq<Sentence>, curToks: nat, carried: nat, before: seq<Group>,
                       cur2: seq<Sentence>, curToks2: nat)
    requires i < |S| && Stripped(S)
    requires Shaped(tk, target, overlapTokens, before)
    requires StateOK(tk, target, overlapTokens, S, i, before, cur, curToks, carried)
    requires Trim(S[i].text) != [] && TokLen(tk, Trim(S[i].text)) <= target
    requires cur != [] && curToks + TokLen(tk, Trim(S[i].text)) > target
    requires var ov := Seed(tk, cur, overlapTokens);
      if |ov| == |cur| && SumToks(tk, ov) == curToks then cur2 == [] && curToks2 == 0
      else cur2 == ov && curToks2 == SumToks(tk, ov)
    ensures Shaped(tk, target, overlapTokens, before + [Group(cur, carried, false, true, i)])
    ensures StateOK(tk, target, overlapTokens, S, i, before + [Group(cur, carried, false, true, i)], cur2, curToks2, |cur2|)
  {
    var ov := Seed(tk, cur, overlapTokens);
    var guard := |ov| == |cur| && SumToks(tk, ov) == curToks;
    var g := Group(cur, carried, false, true, i);
    var after := before + [g];
    ShapedSnoc(tk, target, overlapTokens, before, g);
    assert after[|after| - 1] == g;
    assert |ov| == |cur| ==> ov == cur;
    if !guard {
      SeedSpec(tk, cur, overlapTokens);
      SumToksSuffix(tk, cur, |cur| - |ov|);
      assert cur2[..|cur2|] == ov;
    }
  }

  /** The current chunk, finalized at sentence `i` because that sentence
      fits the budget alone but not on top of the chunk, is closed as
      `ClosedAt` says; the next chunk, which opens with overlap only, adds
      nothing yet. */
  lemma ClosedOverflow(tk: Tokenizer, target: int, overlapTokens: int, S: seq<Sentence>, i: nat,
                       before: seq<Group>, cur: seq<Sentence>, carried: nat, next: seq<Sentence>)
    requires i < |S| && Terminates(tk, target, S)
    requires Closed(tk, target, overlapTokens, S, before)
    requires Covered(tk, target, overlapTokens, S, i, before, cur, carried)
    requires Trim(S[i].text) != [] && TokLen(tk, Trim(S[i].text)) <= target
    requires SumToks(tk, cur) + TokLen(tk, Trim(S[i].text)) > target
    ensures Covered(tk, target, overlapTokens, S, i, before + [Group(cur, carried, false, true, i)], next, |next|)
    ensures Closed(tk, target, overlapTokens, S, before + [Group(cur, carried, false, true, i)])
  {
    var g := Group(cur, carried, false, true, i);
    var after := before + [g];
    FreshSnoc(before, g);
    assert Fresh(after) + next[|next|..] == Fresh(after);
    ClosedSnoc(tk, target, overlapTokens, S, before, g);
  }

  lemma ShapeAppend(tk: Tokenizer, target: int, overlapTokens: int, S: seq<Sentence>,
                     i: nat, cur: seq<Sentence>, curToks: nat, carried: nat, before: seq<Group>)
    returns (i2: nat, cur2: seq<Sentence>, curToks2: nat, carried2: nat, after: seq<Group>)
    requires i < |S| && Terminates(tk, target, S) && Stripped(S)
    requires Shaped(tk, target, overlapTokens, before)
    requires StateOK(tk, target, overlapTokens, S, i, before, cur, curToks, carried)
    requires Covered(tk, target, overlapTokens, S, i, before, cur, carried)
    requires Closed(tk, target, overlapTokens, S, before)
    requires Trim(S[i].text) != [] && TokLen(tk, Trim(S[i].text)) <= target
    requires !(cur != [] && curToks + TokLen(tk, Trim(S[i].text)) > target)
    ensures Progress(tk, S, i, cur, curToks, i2, cur2, curToks2)
    ensures Shaped(tk, target, overlapTokens, after)
    ensures StateOK(tk, target, overlapTokens, S, i2, after, cur2, curToks2, carried2)
    ensures Covered(tk, target, overlapTokens, S, i2, after, cur2, carried2)
    ensures Closed(tk, target, overlapTokens, S, after)
    ensures before + GroupsFrom(tk, target, overlapTokens, S, i, cur, curToks, carried)
      == after + GroupsFrom(tk, target, overlapTokens, S, i2, cur2, curToks2, carried2)
  {
    i2, cur2, curToks2, carried2, after := i + 1, cur + [S[i]], curToks + TokLen(tk, Trim(S[i].text)), carried, before;
    AppendStep(tk, target, overlapTokens, S, i, cur, curToks, carried);
    assert before + GroupsFrom(tk, target, overlapTokens, S, i, cur, curToks, carried)
      == after + GroupsFrom(tk, target, overlapTokens, S, i2, cur2, curToks2, carried2);
    SumToksSnoc(tk, cur, S[i]);
    assert cur2[..carried] == cur[..carried];
    AppendContributes(tk, target, overlapTokens, S, i, cur, carried, before);
  }

  lemma {:induction false} ShapeFrom(tk: Tokenizer, target: int, overlapTokens: int, S: seq<Sentence>,
                                     i: nat, cur: seq<Sentence>, curToks: nat, carried: nat, before: seq<Group>)
    requires i <= |S| && Terminates(tk, target, S) && Stripped(S)
    requires Shaped(tk, target, overlapTokens, before)
    requires StateOK(tk, target, overlapTokens, S, i, before, cur, curToks, carried)
    requires Covered(tk, target, overlapTokens, S, i, before, cur, carried)
    requires Closed(tk, target, overlapTokens, S, before)
    ensures Shaped(tk, target, overlapTokens, before + GroupsFrom(tk, target, overlapTokens, S, i, cur, curToks, carried))
    ensures Settled(before + GroupsFrom(tk, target, overlapTokens, S, i, cur, curToks, carried))
    ensures Closed(tk, target, overlapTokens, S, before + GroupsFrom(tk, target, overlapTokens, S, i, cur, curToks, carried))
    decreases |S| - i, |cur|, if curToks == SumToks(tk, cur) then 0 else 1
  {
    if i == |S| {
      ShapedFlush(tk, target, overlapTokens, S, i, before, cur, curToks, carried);
      ClosedFlush(tk, target, overlapTokens, S, i, before, cur, carried);
    } else {
      var i2, cur2, curToks2, carried2, after := ShapeStep(tk, target, overlapTokens, S, i, cur, curToks, carried, before);
      ShapeFrom(tk, target, overlapTokens, S, i2, cur2, curToks2, carried2, after);
    }
  }

  /** For stripped sentences: every chunk that is not a piece of a cut
      sentence keeps within the token budget, and a piece stands alone.
      A chunk finalized because the next sentence did not fit is always
      followed by another, which opens with the longest suffix of it within
      `overlapTokens` (at least one sentence), unless that suffix is the
      whole chunk, in which case it opens with no overlap. A chunk opens
      with overlap only in that case, and never repeats its predecessor
      whole. And every chunk is closed as `ClosedLast` says. It is marked as
      overflowed exactly when the sentence it stopped at fits the budget
      alone but not on top of it. Otherwise it ends at the end of the input,
      or at a sentence over the budget, which is cut. */
  lemma GroupsShaped(tk: Tokenizer, target: int, overlapTokens: int, S: seq<Sentence>)
    requires Terminates(tk, target, S) && Stripped(S)
    ensures var gs := Groups(tk, target, overlapTokens, S);
      forall k :: 0 <= k < |gs| ==> GroupShapedAt(tk, target, overlapTokens, gs, k)
    ensures var gs := Groups(tk, target, overlapTokens, S);
      forall k :: 0 <= k < |gs| ==> ClosedAt(tk, target, overlapTokens, S, gs, k)
  {
    var gs := Groups(tk, target, overlapTokens, S);
    assert S[..0] == [];
    ShapeFrom(tk, target, overlapTokens, S, 0, [], 0, 0, []);
    assert [] + gs == gs;
    forall k | 0 <= k < |gs|
      ensures GroupShapedAt(tk, target, overlapTokens, gs, k)
    {
      ShapedAt(tk, target, overlapTokens, gs, k);
    }
  }

  /** What `GroupsShaped` says about group `k`: an oversized group is one
      piece, carries nothing and is not followed on account of overflow; any
      other keeps within the budget; an overflowed group has a successor,
      which opens with the seed of it (or with nothing, when the seed is the
      whole group); and a group carries sentences only when its predecessor
      overflowed, then fewer than that predecessor holds, namely its seed. */
  predicate GroupShapedAt(tk: Tokenizer, target: int, overlapTokens: int, gs: seq<Group>, k: nat)
    requires k < |gs|
  {
    && (gs[k].oversized ==> gs[k].carried == 0 && |gs[k].members| == 1 && !gs[k].overflowed)
    && (!gs[k].oversized ==> SumToks(tk, gs[k].members) <= target)
    && (gs[k].overflowed ==> k + 1 < |gs|)
    && (k > 0 && gs[k - 1].overflowed ==>
          var ov := Seed(tk, gs[k - 1].members, overlapTokens);
          if |ov| < |gs[k - 1].members| then gs[k].carried == |ov| && |ov| <= |gs[k].members| && gs[k].members[..|ov|] == ov
          else gs[k].carried == 0)
    && (gs[k].carried > 0 ==>
          k > 0 && gs[k - 1].overflowed && !gs[k - 1].oversized
          && gs[k].carried <= |gs[k].members| && gs[k].carried < |gs[k - 1].members|
          && gs[k].members[..gs[k].carried] == Seed(tk, gs[k - 1].members, overlapTokens))
  }

  /** What `Shaped` and `Settled` say about one group, spelled out. */
  lemma ShapedAt(tk: Tokenizer, target: int, overlapTokens: int, gs: seq<Group>, k: nat)
    requires Shaped(tk, target, overlapTokens, gs) && Settled(gs) && k < |gs|
    ensures GroupShapedAt(tk, target, overlapTokens, gs, k)
  {
    assert GroupOK(tk, target, gs[k]);
    if k > 0 {
      assert Joined(tk, overlapTokens, gs[k - 1], gs[k]);
    }
  }

  // ----- Blank input -----

  /** When only blank sentences are left, the run ends by finalizing the
      current chunk, if any. */
  lemma {:induction false} BlankTail(tk: Tokenizer, target: int, overlapTokens: int, S: seq<Sentence>,
                                     i: nat, cur: seq<Sentence>, curToks: nat, carried: nat)
    requires i <= |S| && Terminates(tk, target, S)
    requires forall k :: i <= k < |S| ==> Trim(S[k].text) == []
    ensures GroupsFrom(tk, target, overlapTokens, S, i, cur, curToks, carried) == Flush(cur, carried, |S|)
    decreases |S| - i
  {
    if i < |S| {
      BlankStep(tk, target, overlapTokens, S, i, cur, curToks, carried);
      BlankTail(tk, target, overlapTokens, S, i + 1, cur, curToks, carried);
    }
  }

  /** No sentences, or only blank ones, give no chunks. */
  lemma BlankInputNoChunks(tk: Tokenizer, fileName: string, target: int, overlapTokens: int, S: seq<Sentence>)
    requires Terminates(tk, target, S)
    requires forall k :: 0 <= k < |S| ==> Trim(S[k].text) == []
    ensures Chunked(tk, fileName, target, overlapTokens, S) == []
  {
    BlankTail(tk, target, overlapTokens, S, 0, [], 0, 0);
  }

  // ----- A worked example -----

  /** Three short sentences without pages that fit the budget together
      make one chunk: number 1, labelled with its number for want of a
      page, holding the sentences joined with single spaces. */
  lemma ChunkedExample(tk: Tokenizer, target: int, overlapTokens: int, S: seq<Sentence>)
    requires S == [Sentence("A.", None), Sentence("B.", None), Sentence("C.", None)]
    requires TokLen(tk, "A.") + TokLen(tk, "B.") + TokLen(tk, "C.") <= target
    ensures Terminates(tk, target, S)
    ensures Chunked(tk, "f", target, overlapTokens, S) == [Chunk(1, "1", "f" + "\n\n" + "A. B. C.", "A. B. C.")]
  {
    ExampleTrimmed(S);
    ThreeFit(tk, target, overlapTokens, S[0], S[1], S[2]);
    ExampleText(S);
    PrintableNotSpace('A');
    PrintableNotSpace('.');
    TrimTrimmed("A. B. C.");
    assert S[1..] == [S[1], S[2]] && S[1..][1..] == [S[2]] && S[1..][1..][1..] == [];
    assert PagesOf(S[1..][1..]) == [] + PagesOf(S[1..][1..][1..]) == [];
    assert PagesOf(S[1..]) == [] + PagesOf(S[1..][1..]) == [];
    assert PagesOf(S) == [] + PagesOf(S[1..]) == [];
    assert IntToString(1) == "1";
    assert FinalizeAll("f", [Group(S, 0, false, false, 3)], 1) == [Finalize("f", S, 1)];
  }

  lemma ExampleTrimmed(S: seq<Sentence>)
    requires S == [Sentence("A.", None), Sentence("B.", None), Sentence("C.", None)]
    ensures Trim(S[0].text) == S[0].text != [] && Trim(S[1].text) == S[1].text != [] && Trim(S[2].text) == S[2].text != []
  {
    PrintableNotSpace('A');
    PrintableNotSpace('B');
    PrintableNotSpace('C');
    PrintableNotSpace('.');
    TrimTrimmed(S[0].text);
    TrimTrimmed(S[1].text);
    TrimTrimmed(S[2].text);
  }

  /** Three non-blank sentences that fit the budget together go into one
      group. */
  lemma ThreeFit(tk: Tokenizer, target: int, overlapTokens: int, x: Sentence, y: Sentence, z: Sentence)
    requires Trim(x.text) != [] && Trim(y.text) != [] && Trim(z.text) != []
    requires TokLen(tk, Trim(x.text)) + TokLen(tk, Trim(y.text)) + TokLen(tk, Trim(z.text)) <= target
    ensures Terminates(tk, target, [x, y, z])
    ensures Groups(tk, target, overlapTokens, [x, y, z]) == [Group([x, y, z], 0, false, false, 3)]
  {
    var S := [x, y, z];
    var a, b, c := TokLen(tk, Trim(x.text)), TokLen(tk, Trim(y.text)), TokLen(tk, Trim(z.text));
    assert Terminates(tk, target, S);
    calc {
      Groups(tk, target, overlapTokens, S);
      GroupsFrom(tk, target, overlapTokens, S, 0, [], 0, 0);
      { AppendStep(tk, target, overlapTokens, S, 0, [], 0, 0); assert [] + [x] == [x]; }
      GroupsFrom(tk, target, overlapTokens, S, 1, [x], a, 0);
      { AppendStep(tk, target, overlapTokens, S, 1, [x], a, 0); assert [x] + [y] == [x, y]; }
      GroupsFrom(tk, target, overlapTokens, S, 2, [x, y], a + b, 0);
      { AppendStep(tk, target, overlapTokens, S, 2, [x, y], a + b, 0); assert [x, y] + [z] == S; }
      GroupsFrom(tk, target, overlapTokens, S, 3, S, a + b + c, 0);
      Flush(S, 0, 3);
    }
  }

  /** The guard against repeating a chunk whole: when the overlap budget
      covers a whole finalized chunk, the walk would seed the next chunk
      with all of it, so the next chunk starts empty instead and the
      sentences are not carried over. */
  lemma WholeSeedDropped(tk: Tokenizer, target: int, overlapTokens: int, x: Sentence, y: Sentence, z: Sentence)
    requires Trim(x.text) == x.text != [] && Trim(y.text) == y.text != [] && Trim(z.text) == z.text != []
    requires TokLen(tk, x.text) + TokLen(tk, y.text) <= target && TokLen(tk, z.text) <= target
    requires TokLen(tk, x.text) + TokLen(tk, y.text) + TokLen(tk, z.text) > target
    requires TokLen(tk, x.text) + TokLen(tk, y.text) <= overlapTokens
    ensures Terminates(tk, target, [x, y, z])
    ensures Groups(tk, target, overlapTokens, [x, y, z])
      == [Group([x, y], 0, false, true, 2), Group([z], 0, false, false, 3)]
  {
    var S := [x, y, z];
    var a, b, c := TokLen(tk, x.text), TokLen(tk, y.text), TokLen(tk, z.text);
    assert Terminates(tk, target, S);
    assert Seed(tk, [x, y], overlapTokens) == [x, y] && SumToks(tk, [x, y]) == a + b by {
      assert [x, y][1..] == [y] && [y][1..] == [] && [x, y][0..] == [x, y];
      assert SumToks(tk, [y]) == b;
      assert SumToks(tk, [x, y]) == a + SumToks(tk, [y]);
      assert OverlapFrom(tk, [x, y], overlapTokens, 1) == OverlapFrom(tk, [x, y], overlapTokens, 0) == 0;
      assert OverlapFrom(tk, [x, y], overlapTokens, 2) == OverlapFrom(tk, [x, y], overlapTokens, 1);
    }
    calc {
      Groups(tk, target, overlapTokens, S);
      GroupsFrom(tk, target, overlapTokens, S, 0, [], 0, 0);
      { AppendStep(tk, target, overlapTokens, S, 0, [], 0, 0); assert [] + [x] == [x]; }
      GroupsFrom(tk, target, overlapTokens, S, 1, [x], a, 0);
      { AppendStep(tk, target, overlapTokens, S, 1, [x], a, 0); assert [x] + [y] == [x, y]; }
      GroupsFrom(tk, target, overlapTokens, S, 2, [x, y], a + b, 0);
      { FlushStep(tk, target, overlapTokens, S, 2, [x, y], a + b, 0, [], [], 0);
        assert [] + GroupsFrom(tk, target, overlapTokens, S, 2, [x, y], a + b, 0)
          == GroupsFrom(tk, target, overlapTokens, S, 2, [x, y], a + b, 0);
        assert [] + [Group([x, y], 0, false, true, 2)] == [Group([x, y], 0, false, true, 2)]; }
      [Group([x, y], 0, false, true, 2)] + GroupsFrom(tk, target, overlapTokens, S, 2, [], 0, 0);
      { AppendStep(tk, target, overlapTokens, S, 2, [], 0, 0); assert [] + [z] == [z]; }
      [Group([x, y], 0, false, true, 2)] + GroupsFrom(tk, target, overlapTokens, S, 3, [z], c, 0);
      [Group([x, y], 0, false, true, 2)] + Flush([z], 0, 3);
    }
  }

  /** A non-blank sentence with no tokens under a negative budget is cut
      into no pieces: the window loop does not run, and the run ends with
      no chunks. */
  lemma TokenlessNoChunks(tk: Tokenizer, fileName: string, target: int, overlapTokens: int, x: Sentence)
    requires target < 0 && Trim(x.text) != [] && TokLen(tk, Trim(x.text)) == 0
    ensures Terminates(tk, target, [x])
    ensures Chunked(tk, fileName, target, overlapTokens, [x]) == []
  {
    var S := [x];
    assert Terminates(tk, target, S);
    OversizedStep(tk, target, overlapTokens, S, 0, [], 0, 0, []);
    assert Pieces(tk, Trim(x.text), target, overlapTokens) == [];
    assert Groups(tk, target, overlapTokens, S) == [];
  }

  /** Two sentences that fit the budget together are never finalized as
      one chunk each: whatever sentence the first chunk names as the one
      it was finalized at, it is not closed as `ClosedAt` says. */
  lemma PairNotSplit(tk: Tokenizer, target: int, overlapTokens: int, x: Sentence, y: Sentence, a0: nat, a1: nat)
    requires Trim(x.text) == x.text != [] && Trim(y.text) == y.text != []
    requires TokLen(tk, x.text) + TokLen(tk, y.text) <= target
    ensures Terminates(tk, target, [x, y])
    ensures !ClosedAt(tk, target, overlapTokens, [x, y], [Group([x], 0, false, false, a0), Group([y], 0, false, false, a1)], 0)
  {
    var gs := [Group([x], 0, false, false, a0), Group([y], 0, false, false, a1)];
    PairContributions(tk, target, overlapTokens, x, y);
    assert gs[..1] == [] + [gs[0]];
    FreshSnoc([], gs[0]);
  }

  lemma PairContributions(tk: Tokenizer, target: int, overlapTokens: int, x: Sentence, y: Sentence)
    requires Trim(x.text) == x.text != [] && Trim(y.text) == y.text != []
    requires TokLen(tk, x.text) + TokLen(tk, y.text) <= target
    ensures Terminates(tk, target, [x, y])
    ensures Contributions(tk, target, overlapTokens, [x, y][..0]) == []
    ensures Contributions(tk, target, overlapTokens, [x, y][..1]) == [x]
    ensures Contributions(tk, target, overlapTokens, [x, y][..2]) == [x, y]
  {
    var S := [x, y];
    assert Terminates(tk, target, S);
    assert S[..0] == [] && S[..1][..0] == [] && S[..2][..1] == [x] && S[..2] == S;
    assert Contribution(tk, target, overlapTokens, x) == [x];
    assert Contribution(tk, target, overlapTokens, y) == [y];
  }

  /** The example's sentences joined with single spaces. */
  lemma ExampleText(S: seq<Sentence>)
    requires S == [Sentence("A.", None), Sentence("B.", None), Sentence("C.", None)]
    ensures Join(Texts(S), " ") == "A. B. C."
  {
    var ts := Texts(S);
    assert ts == ["A.", "B.", "C."];
    assert ts[1..] == ["B.", "C."] && ts[1..][1..] == ["C."];
    assert Join(ts[1..][1..], " ") == "C.";
    assert Join(ts[1..], " ") == "B." + " " + "C.";
  }
}
