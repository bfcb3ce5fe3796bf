/**
 * Token counting and the sliding-window split of a sentence that is longer
 * than the chunk budget (`_tok_len` and `_split_text_by_tokens`).
 */
module Tokens {
  import opened Text

  /** The `cl100k_base` encoding, taken as two given functions: `encode`
      turns text into token ids and `decode` turns token ids back into text.
      Nothing is assumed about them: token counts need not add up over
      concatenation, and decoding an encoding need not give the text back. */
  datatype Tokenizer = Tokenizer(encode: string -> seq<int>, decode: seq<int> -> string)

  /** `ENC.encode(s)`. */
  function Encode(tk: Tokenizer, s: string): seq<int>
  {
    tk.encode(s)
  }

  /** `ENC.decode(ts)`. */
  function Decode(tk: Tokenizer, ts: seq<int>): string
  {
    tk.decode(ts)
  }

  /** `_tok_len(s)`: the number of tokens `s` encodes to. */
  function TokLen(tk: Tokenizer, s: string): nat
  {
    |Encode(tk, s)|
  }

  function Min(a: int, b: int): int { if a <= b then a else b }

  function Max(a: int, b: int): int { if a >= b then a else b }

  /** The distance between the starts of two successive windows: the
      budget less the (non-negative part of the) overlap, or the whole
      budget when that leaves nothing. */
  function Step(maxTokens: int, overlapTokens: int): (step: int)
    ensures maxTokens >= 1 ==> 1 <= step <= maxTokens
    ensures 0 <= overlapTokens < maxTokens ==> step == maxTokens - overlapTokens
    ensures overlapTokens < 0 || overlapTokens >= maxTokens ==> step == maxTokens
  {
    var step := maxTokens - Max(0, overlapTokens);
    if step <= 0 then maxTokens else step
  }

  /** The token positions `start..end` (end exclusive) of one window. */
  datatype Window = Window(start: nat, end: nat)

  /** The windows the loop of `_split_text_by_tokens` visits from `start`
      on, over `n` tokens, with width `w` and step `step`: it stops after
      the first window that reaches the end. */
  function WindowsFrom(start: nat, n: nat, w: nat, step: nat): seq<Window>
    requires step >= 1
    decreases n - start
  {
    if start >= n then []
    else
      var end := Min(start + w, n);
      [Window(start, end)] + (if end == n then [] else WindowsFrom(start + step, n, w, step))
  }

  /** Every window ends `w` tokens after its start or at the end of the
      tokens, whichever comes first, and is non-empty. */
  lemma {:induction false} WindowsFromEach(start: nat, n: nat, w: nat, step: nat)
    requires 1 <= step <= w
    ensures forall x :: x in WindowsFrom(start, n, w, step) ==>
      x.end == Min(x.start + w, n) && x.start < x.end <= n
    decreases n - start
  {
    if start < n {
      var end := Min(start + w, n);
      if end != n {
        WindowsFromEach(start + step, n, w, step);
      }
    }
  }

  /** Window `k` either is the last and reaches the end, or falls short of
      the end and the next starts `step` after it. */
  lemma {:induction false} WindowNextFrom(start: nat, n: nat, w: nat, step: nat, k: nat)
    requires 1 <= step <= w && start < n
    requires k < |WindowsFrom(start, n, w, step)|
    ensures var ws := WindowsFrom(start, n, w, step);
      && (k == |ws| - 1 ==> ws[k].end == n)
      && (k < |ws| - 1 ==> ws[k + 1].start == ws[k].start + step && ws[k].end < n)
    decreases k
  {
    var ws := WindowsFrom(start, n, w, step);
    var end := Min(start + w, n);
    if end == n {
      assert |ws| == 1 && ws[0] == Window(start, end);
    } else {
      var rest := WindowsFrom(start + step, n, w, step);
      assert |ws| == |rest| + 1;
      if k == 0 {
        assert ws[0] == Window(start, end);
        assert ws[1] == rest[0];
      } else {
        WindowNextFrom(start + step, n, w, step, k - 1);
        assert ws[k] == rest[k - 1];
        if k < |ws| - 1 {
          assert ws[k + 1] == rest[k];
        }
      }
    }
  }

  /** The first window starts at `start`; each later one starts `step`
      after the one before it; each ends `w` tokens after its start or at
      the end of the tokens, whichever comes first, and is non-empty; only
      the last window reaches the end. */
  lemma WindowsFromShape(start: nat, n: nat, w: nat, step: nat)
    requires 1 <= step <= w && start < n
    ensures var ws := WindowsFrom(start, n, w, step);
      && |ws| >= 1 && ws[0].start == start
      && (forall k :: 0 <= k < |ws| ==> ws[k].end == Min(ws[k].start + w, n))
      && (forall k :: 0 <= k < |ws| ==> ws[k].start < ws[k].end <= n)
      && (forall k :: 0 <= k < |ws| - 1 ==> ws[k + 1].start == ws[k].start + step)
      && (forall k :: 0 <= k < |ws| - 1 ==> ws[k].end < n)
      && ws[|ws| - 1].end == n
  {
    var ws := WindowsFrom(start, n, w, step);
    assert ws[0].start == start;
    WindowsFromEach(start, n, w, step);
    forall k | 0 <= k < |ws|
      ensures ws[k].end == Min(ws[k].start + w, n) && ws[k].start < ws[k].end <= n
    {
      assert ws[k] in ws;
    }
    forall k | 0 <= k < |ws| - 1
      ensures ws[k + 1].start == ws[k].start + step && ws[k].end < n
    {
      WindowNextFrom(start, n, w, step, k);
    }
    WindowNextFrom(start, n, w, step, |ws| - 1);
  }

  /** Window `k` starts at `start + k * step`. */
  lemma {:induction false} WindowStart(start: nat, n: nat, w: nat, step: nat, k: nat)
    requires 1 <= step <= w && start < n
    requires k < |WindowsFrom(start, n, w, step)|
    ensures WindowsFrom(start, n, w, step)[k].start == start + k * step
  {
    WindowsFromShape(start, n, w, step);
    if k > 0 {
      WindowStart(start, n, w, step, k - 1);
      assert (k - 1) * step + step == k * step;
    }
  }

  /** With a step no wider than the window, the windows leave no token
      out: every position from `start` up to `n` lies in some window. */
  lemma {:induction false} WindowsCover(start: nat, n: nat, w: nat, step: nat, i: nat) returns (k: nat)
    requires 1 <= step <= w && start <= i < n
    ensures var ws := WindowsFrom(start, n, w, step);
      k < |ws| && ws[k].start <= i < ws[k].end
    decreases n - start
  {
    var ws := WindowsFrom(start, n, w, step);
    var end := Min(start + w, n);
    assert ws[0] == Window(start, end);
    if i < end {
      k := 0;
    } else {
      var rest := WindowsFrom(start + step, n, w, step);
      assert ws == [Window(start, end)] + rest;
      var k' := WindowsCover(start + step, n, w, step, i);
      k := k' + 1;
      assert ws[k] == rest[k'];
    }
  }

  /** The windows `_split_text_by_tokens` visits over `n` tokens. */
  function Windows(n: nat, maxTokens: nat, overlapTokens: int): seq<Window>
    requires maxTokens >= 1
  {
    WindowsFrom(0, n, maxTokens, Step(maxTokens, overlapTokens))
  }

  /** Each window is at most `maxTokens` long and starts `Step` tokens after
      the one before it, so two successive windows share exactly the
      overlap when it is less than the budget; the last one ends at `n`. */
  lemma WindowsProperties(n: nat, maxTokens: nat, overlapTokens: int)
    requires maxTokens >= 1 && n >= 1
    ensures var ws := Windows(n, maxTokens, overlapTokens);
      && |ws| >= 1 && ws[0].start == 0 && ws[|ws| - 1].end == n
      && (forall k :: 0 <= k < |ws| ==> ws[k].start < ws[k].end <= n)
      && (forall k :: 0 <= k < |ws| ==> ws[k].end == Min(ws[k].start + maxTokens, n))
      && (forall k :: 0 <= k < |ws| ==> ws[k].end - ws[k].start <= maxTokens)
      && (forall k :: 0 <= k < |ws| - 1 ==> ws[k].end < n)
      && (forall k :: 0 <= k < |ws| - 1 ==>
            ws[k + 1].start == ws[k].start + Step(maxTokens, overlapTokens))
      && (0 <= overlapTokens < maxTokens ==>
            forall k :: 0 <= k < |ws| - 1 ==> ws[k].end - ws[k + 1].start == overlapTokens)
  {
    WindowsFromShape(0, n, maxTokens, Step(maxTokens, overlapTokens));
  }

  /** The windows of the default budget (2000 tokens, 200 of overlap) over
      5000 tokens. */
  lemma WindowsExample(ws: seq<Window>)
    requires ws == Windows(5000, 2000, 200)
    ensures ws == [Window(0, 2000), Window(1800, 3800), Window(3600, 5000)]
  {
    assert Step(2000, 200) == 1800;
    var w2 := WindowsFrom(3600, 5000, 2000, 1800);
    assert w2 == [Window(3600, 5000)];
    var w1 := WindowsFrom(1800, 5000, 2000, 1800);
    assert w1 == [Window(1800, 3800)] + w2;
  }

  /** The stripped decoding of one window, or nothing when it is blank. */
  function DecodePiece(tk: Tokenizer, toks: seq<int>, win: Window): seq<string>
    requires win.start <= win.end <= |toks|
  {
    var piece := Trim(Decode(tk, toks[win.start..win.end]));
    if piece != [] then [piece] else []
  }

  predicate InBounds(ws: seq<Window>, n: nat) {
    forall k :: 0 <= k < |ws| ==> ws[k].start <= ws[k].end <= n
  }

  /** The non-blank stripped decodings of the windows, in window order. */
  function DecodeWindows(tk: Tokenizer, toks: seq<int>, ws: seq<Window>): seq<string>
    requires InBounds(ws, |toks|)
  {
    if ws == [] then [] else DecodePiece(tk, toks, ws[0]) + DecodeWindows(tk, toks, ws[1..])
  }

  /** `_split_text_by_tokens(text, maxTokens, overlapTokens)`. The source
      only terminates when the budget is positive, the text already fits, or
      the text has no tokens at all: with a budget below one token the window
      loop never advances, and it only runs when there is a token. */
  function Pieces(tk: Tokenizer, text: string, maxTokens: int, overlapTokens: int): seq<string>
    requires maxTokens >= 1 || TokLen(tk, text) <= maxTokens || TokLen(tk, text) == 0
  {
    var toks := Encode(tk, text);
    if |toks| <= maxTokens then [text]
    else if |toks| == 0 then []
    else
      WindowsInBounds(|toks|, maxTokens, overlapTokens);
      DecodeWindows(tk, toks, Windows(|toks|, maxTokens, overlapTokens))
  }

  lemma WindowsInBounds(n: nat, maxTokens: nat, overlapTokens: int)
    requires maxTokens >= 1
    ensures InBounds(Windows(n, maxTokens, overlapTokens), n)
  {
    if n >= 1 {
      WindowsProperties(n, maxTokens, overlapTokens);
    }
  }

  /** Every decoded piece is non-empty and stripped. */
  lemma {:induction false} DecodeWindowsShape(tk: Tokenizer, toks: seq<int>, ws: seq<Window>)
    requires InBounds(ws, |toks|)
    ensures var ps := DecodeWindows(tk, toks, ws);
      |ps| <= |ws| && forall j :: 0 <= j < |ps| ==> ps[j] != [] && Trimmed(ps[j])
  {
    if ws != [] {
      TrimTrimmed(Decode(tk, toks[ws[0].start..ws[0].end]));
      DecodeWindowsShape(tk, toks, ws[1..]);
    }
  }

  /** When no window decodes to blank text, there is one piece per window:
      piece `k` is the stripped decoding of window `k`. */
  lemma {:induction false} DecodeWindowsAllKept(tk: Tokenizer, toks: seq<int>, ws: seq<Window>)
    requires InBounds(ws, |toks|)
    requires forall k :: 0 <= k < |ws| ==> Trim(Decode(tk, toks[ws[k].start..ws[k].end])) != []
    ensures var ps := DecodeWindows(tk, toks, ws);
      |ps| == |ws| && forall k :: 0 <= k < |ws| ==> ps[k] == Trim(Decode(tk, toks[ws[k].start..ws[k].end]))
  {
    if ws != [] {
      DecodeWindowsAllKept(tk, toks, ws[1..]);
    }
  }

  /** A text within the budget comes back as the only piece, unchanged;
      one with no tokens under a negative budget gives no pieces; a longer
      one comes back as non-empty, stripped pieces, at most one per window. */
  lemma PiecesShape(tk: Tokenizer, text: string, maxTokens: int, overlapTokens: int)
    requires maxTokens >= 1 || TokLen(tk, text) <= maxTokens || TokLen(tk, text) == 0
    ensures TokLen(tk, text) <= maxTokens ==> Pieces(tk, text, maxTokens, overlapTokens) == [text]
    ensures maxTokens < TokLen(tk, text) == 0 ==> Pieces(tk, text, maxTokens, overlapTokens) == []
    ensures TokLen(tk, text) > maxTokens >= 1 ==>
      var ps := Pieces(tk, text, maxTokens, overlapTokens);
      && |ps| <= |Windows(TokLen(tk, text), maxTokens, overlapTokens)|
      && forall j :: 0 <= j < |ps| ==> ps[j] != [] && Trimmed(ps[j])
  {
    if TokLen(tk, text) > maxTokens >= 1 {
      var toks := Encode(tk, text);
      WindowsInBounds(|toks|, maxTokens, overlapTokens);
      DecodeWindowsShape(tk, toks, Windows(|toks|, maxTokens, overlapTokens));
    }
  }

  /** The pieces are what a non-empty, stripped text splits into with a
      positive budget: never blank, never untrimmed. */
  lemma PiecesOfTrimmed(tk: Tokenizer, text: string, maxTokens: int, overlapTokens: int)
    requires maxTokens >= 1 || TokLen(tk, text) <= maxTokens || TokLen(tk, text) == 0
    requires text != [] && Trimmed(text)
    ensures forall j :: 0 <= j < |Pieces(tk, text, maxTokens, overlapTokens)| ==>
      Pieces(tk, text, maxTokens, overlapTokens)[j] != [] && Trimmed(Pieces(tk, text, maxTokens, overlapTokens)[j])
  {
    PiecesShape(tk, text, maxTokens, overlapTokens);
  }

  /** The windows from any start stay within the tokens. */
  lemma WindowsFromInBounds(start: nat, n: nat, w: nat, step: nat)
    requires 1 <= step <= w
    ensures InBounds(WindowsFrom(start, n, w, step), n)
  {
    if start < n {
      WindowsFromShape(start, n, w, step);
    }
  }

  /** Decoding the windows from `start` on, when the window at `start`
      falls short of the end: its piece, if any, then the pieces of the
      windows from `next` on. */
  lemma DecodeNext(tk: Tokenizer, toks: seq<int>, start: nat, w: nat, step: nat, next: nat)
    requires 1 <= step <= w && start + w < |toks| && next == start + step
    ensures InBounds(WindowsFrom(start, |toks|, w, step), |toks|)
    ensures InBounds(WindowsFrom(next, |toks|, w, step), |toks|)
    ensures DecodeWindows(tk, toks, WindowsFrom(start, |toks|, w, step))
      == DecodePiece(tk, toks, Window(start, Min(start + w, |toks|))) + DecodeWindows(tk, toks, WindowsFrom(next, |toks|, w, step))
  {
    WindowsFromInBounds(start, |toks|, w, step);
    WindowsFromInBounds(next, |toks|, w, step);
    var ws := WindowsFrom(start, |toks|, w, step);
    assert ws[0] == Window(start, Min(start + w, |toks|));
    assert ws[1..] == WindowsFrom(next, |toks|, w, step);
  }

  /** Decoding the windows from `start` on, when the window at `start`
      reaches the end: its piece, if any. */
  lemma DecodeLast(tk: Tokenizer, toks: seq<int>, start: nat, w: nat, step: nat)
    requires 1 <= step <= w && start < |toks| <= start + w
    ensures InBounds(WindowsFrom(start, |toks|, w, step), |toks|)
    ensures DecodeWindows(tk, toks, WindowsFrom(start, |toks|, w, step))
      == DecodePiece(tk, toks, Window(start, Min(start + w, |toks|)))
  {
    WindowsFromInBounds(start, |toks|, w, step);
    var ws := WindowsFrom(start, |toks|, w, step);
    assert ws == [Window(start, |toks|)];
    assert ws[1..] == [];
  }

  /** The pieces the loop of `_split_text_by_tokens` collects from the
      window at `start` on. */
  ghost function WindowPiecesFrom(tk: Tokenizer, toks: seq<int>, w: nat, step: nat, start: nat): seq<string>
    requires step >= 1
    decreases |toks| - start
  {
    if start >= |toks| then []
    else
      var end := Min(start + w, |toks|);
      DecodePiece(tk, toks, Window(start, end)) + (if end == |toks| then [] else WindowPiecesFrom(tk, toks, w, step, start + step))
  }

  /** The loop state of `_split_text_by_tokens`: the pieces `acc` collected
      so far, followed by those the loop collects from the window at `start`
      on, are `all` the pieces. */
  ghost predicate Reaches(tk: Tokenizer, toks: seq<int>, w: nat, step: nat, start: nat, acc: seq<string>, all: seq<string>)
    requires step >= 1
  {
    acc + WindowPiecesFrom(tk, toks, w, step, start) == all
  }

  /** A window that falls short of the end contributes its piece, if any,
      before those of the windows after it. */
  lemma WindowPiecesNext(tk: Tokenizer, toks: seq<int>, w: nat, step: nat, start: nat, next: nat)
    requires step >= 1 && start + w < |toks| && next == start + step
    ensures WindowPiecesFrom(tk, toks, w, step, start)
      == DecodePiece(tk, toks, Window(start, Min(start + w, |toks|))) + WindowPiecesFrom(tk, toks, w, step, next)
  {
    var end := Min(start + w, |toks|);
    assert end == start + w;
    calc {
      WindowPiecesFrom(tk, toks, w, step, start);
      DecodePiece(tk, toks, Window(start, end)) + WindowPiecesFrom(tk, toks, w, step, start + step);
    }
  }

  /** A window that reaches the end contributes its piece, if any, and
      is the last. */
  lemma WindowPiecesLast(tk: Tokenizer, toks: seq<int>, w: nat, step: nat, start: nat)
    requires step >= 1 && start < |toks| <= start + w
    ensures WindowPiecesFrom(tk, toks, w, step, start) == DecodePiece(tk, toks, Window(start, Min(start + w, |toks|)))
  {
    assert DecodePiece(tk, toks, Window(start, Min(start + w, |toks|))) + [] == DecodePiece(tk, toks, Window(start, Min(start + w, |toks|)));
  }

  /** One round of the loop that does not reach the end: the piece of the
      window at `start`, if any, joins the pieces collected so far, and the
      loop goes on at the next window. */
  lemma ReachesStep(tk: Tokenizer, toks: seq<int>, w: nat, step: nat, start: nat, acc: seq<string>, all: seq<string>, piece: string, more: seq<string>, next: nat)
    requires step >= 1 && start + w < |toks| && next == start + step
    requires Reaches(tk, toks, w, step, start, acc, all)
    requires piece == Trim(Decode(tk, toks[start..Min(start + w, |toks|)]))
    requires more == if piece != [] then acc + [piece] else acc
    ensures Reaches(tk, toks, w, step, next, more, all)
  {
    var kept := DecodePiece(tk, toks, Window(start, Min(start + w, |toks|)));
    var rest := WindowPiecesFrom(tk, toks, w, step, next);
    WindowPiecesNext(tk, toks, w, step, start, next);
    assert more == acc + kept;
    AppendAssoc(acc, kept, rest);
  }

  /** The round of the loop whose window reaches the end collects the
      last piece, if any. */
  lemma ReachesLast(tk: Tokenizer, toks: seq<int>, w: nat, step: nat, start: nat, acc: seq<string>, all: seq<string>, piece: string, more: seq<string>)
    requires step >= 1 && start < |toks| <= start + w
    requires Reaches(tk, toks, w, step, start, acc, all)
    requires piece == Trim(Decode(tk, toks[start..Min(start + w, |toks|)]))
    requires more == if piece != [] then acc + [piece] else acc
    ensures more == all
  {
    var kept := DecodePiece(tk, toks, Window(start, Min(start + w, |toks|)));
    assert more == acc + kept;
    assert WindowPiecesFrom(tk, toks, w, step, start) == kept + [];
  }

  /** Once past the last token the loop collects nothing more. */
  lemma ReachesDone(tk: Tokenizer, toks: seq<int>, w: nat, step: nat, start: nat, acc: seq<string>, all: seq<string>)
    requires step >= 1 && start >= |toks|
    requires Reaches(tk, toks, w, step, start, acc, all)
    ensures acc == all
  {
    assert acc + [] == acc;
  }

  /** What the loop collects from `start` on are the pieces of the windows
      from `start` on. */
  lemma {:induction false} WindowPiecesDecoded(tk: Tokenizer, toks: seq<int>, w: nat, step: nat, start: nat)
    requires 1 <= step <= w
    decreases |toks| - start
    ensures InBounds(WindowsFrom(start, |toks|, w, step), |toks|)
    ensures WindowPiecesFrom(tk, toks, w, step, start) == DecodeWindows(tk, toks, WindowsFrom(start, |toks|, w, step))
  {
    WindowsFromInBounds(start, |toks|, w, step);
    if start >= |toks| {
      assert WindowsFrom(start, |toks|, w, step) == [];
    } else if start + w < |toks| {
      var next := start + step;
      var piece := DecodePiece(tk, toks, Window(start, Min(start + w, |toks|)));
      calc {
        WindowPiecesFrom(tk, toks, w, step, start);
        { WindowPiecesNext(tk, toks, w, step, start, next); }
        piece + WindowPiecesFrom(tk, toks, w, step, next);
        { WindowPiecesDecoded(tk, toks, w, step, next); }
        piece + DecodeWindows(tk, toks, WindowsFrom(next, |toks|, w, step));
        { DecodeNext(tk, toks, start, w, step, next); }
        DecodeWindows(tk, toks, WindowsFrom(start, |toks|, w, step));
      }
    } else {
      WindowPiecesLast(tk, toks, w, step, start);
      DecodeLast(tk, toks, start, w, step);
    }
  }

  /** The pieces of a text over the budget are what the loop collects
      from the first window on. */
  lemma PiecesLong(tk: Tokenizer, text: string, maxTokens: int, overlapTokens: int)
    requires maxTokens >= 1 && TokLen(tk, text) > maxTokens
    ensures Reaches(tk, Encode(tk, text), maxTokens, Step(maxTokens, overlapTokens), 0, [], Pieces(tk, text, maxTokens, overlapTokens))
  {
    var toks := Encode(tk, text);
    WindowPiecesDecoded(tk, toks, maxTokens, Step(maxTokens, overlapTokens), 0);
    assert [] + WindowPiecesFrom(tk, toks, maxTokens, Step(maxTokens, overlapTokens), 0)
      == WindowPiecesFrom(tk, toks, maxTokens, Step(maxTokens, overlapTokens), 0);
  }

  /** The `while` loop of `_split_text_by_tokens`. */
  method SplitTextByTokens(tk: Tokenizer, text: string, maxTokens: int, overlapTokens: int)
    returns (pieces: seq<string>)
    requires maxTokens >= 1 || TokLen(tk, text) <= maxTokens || TokLen(tk, text) == 0
    ensures pieces == Pieces(tk, text, maxTokens, overlapTokens)
  {
    var toks := Encode(tk, text);
    if |toks| <= maxTokens {
      return [text];
    }
    pieces := [];
    if |toks| == 0 {
      return;
    }
    var step := maxTokens - Max(0, overlapTokens);
    if step <= 0 {
      step := maxTokens;
    }
    assert step == Step(maxTokens, overlapTokens);
    PiecesLong(tk, text, maxTokens, overlapTokens);
    ghost var all := Pieces(tk, text, maxTokens, overlapTokens);
    var start: nat := 0;
    while start < |toks|
      invariant 1 <= step <= maxTokens
      invariant Reaches(tk, toks, maxTokens, step, start, pieces, all)
      decreases |toks| - start
    {
      var end := Min(start + maxTokens, |toks|);
      var piece := Trim(Decode(tk, toks[start..end]));
      ghost var before := pieces;
      if piece != [] {
        pieces := pieces + [piece];
      }
      if end == |toks| {
        ReachesLast(tk, toks, maxTokens, step, start, before, all, piece, pieces);
        return;
      }
      ghost var at := start;
      start := start + step;
      ReachesStep(tk, toks, maxTokens, step, at, before, all, piece, pieces, start);
    }
    ReachesDone(tk, toks, maxTokens, step, start, pieces, all);
  }
}
