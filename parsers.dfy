/**
 * The sentence segmenter: normalising extracted text and cutting it into
 * sentences after `.`, `!` or `?`. Reading the files themselves (plain text,
 * word-processor documents, PDF pages) is not part of this model; each page
 * or document body arrives here as a string.
 */
module Parsers {
  import opened Text

  datatype Option<T> = None | Some(value: T)

  /** A sentence unit: its text and the 1-based page it came from, when the
      format has pages. */
  datatype Sentence = Sentence(text: string, page: Option<int>)

  function Texts(ss: seq<Sentence>): (ts: seq<string>)
    ensures |ts| == |ss| && forall k :: 0 <= k < |ss| ==> ts[k] == ss[k].text
  {
    seq(|ss|, k requires 0 <= k < |ss| => ss[k].text)
  }

  const NUL: char := 0 as char

  predicate NoNul(s: string) {
    forall k :: 0 <= k < |s| ==> s[k] != NUL
  }

  /** Positions `k - 1` and `k` both hold whitespace. */
  predicate DoubleSpaceAt(s: string, k: int)
    requires 0 < k < |s|
  {
    IsSpace(s[k - 1]) && IsSpace(s[k])
  }

  /** The only whitespace is the plain space, and never two in a row. */
  ghost predicate SingleSpaced(s: string) {
    && (forall k :: 0 <= k < |s| ==> IsSpace(s[k]) ==> s[k] == ' ')
    && (forall k :: 0 < k < |s| ==> !DoubleSpaceAt(s, k))
  }

  /** `s.replace("\x00", " ")`. */
  function ReplaceNul(s: string): (r: string)
    ensures |r| == |s| && NoNul(r)
    ensures forall k :: 0 <= k < |s| && s[k] != NUL ==> r[k] == s[k]
    ensures forall k :: 0 <= k < |s| && s[k] == NUL ==> r[k] == ' '
  {
    seq(|s|, k requires 0 <= k < |s| => if s[k] == NUL then ' ' else s[k])
  }

  /** `re.sub(r"\s+", " ", s)`: every maximal whitespace run becomes one space. */
  function Collapse(s: string): (r: string)
    ensures SingleSpaced(r)
    ensures NoNul(s) ==> NoNul(r)
    ensures r == [] <==> s == []
    ensures r != [] ==> (IsSpace(r[0]) <==> IsSpace(s[0]))
    decreases |s|
  {
    if s == [] then []
    else if IsSpace(s[0]) then
      TrimStartShorter(s);
      TrimStartSuffix(s);
      var rest := TrimStart(s);
      var r := " " + Collapse(rest);
      ConsSingleSpaced(' ', Collapse(rest));
      assert NoNul(s) ==> NoNul(rest) by {
        forall k | 0 <= k < |rest| ensures NoNul(s) ==> rest[k] != NUL {
          assert rest[k] == s[|s| - |rest| + k];
        }
      }
      r
    else
      ConsSingleSpaced(s[0], Collapse(s[1..]));
      [s[0]] + Collapse(s[1..])
  }

  lemma ConsSingleSpaced(c: char, t: string)
    requires SingleSpaced(t)
    requires IsSpace(c) ==> c == ' ' && (t == [] || !IsSpace(t[0]))
    ensures SingleSpaced([c] + t)
  {
    var r := [c] + t;
    forall k | 0 < k < |r| ensures !DoubleSpaceAt(r, k) {
      if k > 1 {
        assert r[k - 1] == t[k - 2] && r[k] == t[k - 1];
        assert !DoubleSpaceAt(t, k - 1);
      }
    }
  }

  /** A single-spaced string is left alone by the collapse. */
  lemma {:induction false} CollapseFixesSingleSpaced(s: string)
    requires SingleSpaced(s)
    ensures Collapse(s) == s
    decreases |s|
  {
    if s != [] {
      InfixKeepsShape(s, 1, s[1..]);
      CollapseFixesSingleSpaced(s[1..]);
      if IsSpace(s[0]) {
        if |s| > 1 {
          assert !DoubleSpaceAt(s, 1);
          assert !IsSpace(s[1..][0]);
        }
        assert TrimStart(s[1..]) == s[1..];
        assert TrimStart(s) == s[1..];
        assert Collapse(s) == " " + Collapse(s[1..]);
      } else {
        assert Collapse(s) == [s[0]] + Collapse(s[1..]);
      }
    }
  }

  /** What a reader sees of a text: its characters other than whitespace
      and NUL, in order. */
  function Content(s: string): string
  {
    if s == [] then []
    else (if IsSpace(s[0]) || s[0] == NUL then [] else [s[0]]) + Content(s[1..])
  }

  lemma {:induction false} ContentAppend(a: string, b: string)
    ensures Content(a + b) == Content(a) + Content(b)
  {
    if a == [] {
      assert a + b == b;
    } else {
      var head := if IsSpace(a[0]) || a[0] == NUL then [] else [a[0]];
      calc {
        Content(a + b);
        { assert (a + b)[0] == a[0]; }
        head + Content((a + b)[1..]);
        { assert (a + b)[1..] == a[1..] + b; }
        head + Content(a[1..] + b);
        { ContentAppend(a[1..], b); }
        head + (Content(a[1..]) + Content(b));
        { AppendAssoc(head, Content(a[1..]), Content(b)); }
        head + Content(a[1..]) + Content(b);
      }
    }
  }

  lemma {:induction false} ContentAllSpace(s: string)
    requires AllSpace(s)
    ensures Content(s) == []
  {
    if s != [] {
      ContentAllSpace(s[1..]);
    }
  }

  /** Turning NUL into a space hides nothing a reader sees. */
  lemma {:induction false} ReplaceNulKeepsContent(s: string)
    ensures Content(ReplaceNul(s)) == Content(s)
  {
    if s != [] {
      assert ReplaceNul(s)[1..] == ReplaceNul(s[1..]);
      ReplaceNulKeepsContent(s[1..]);
    }
  }

  /** The collapse keeps every character other than whitespace, in order:
      it only rewrites whitespace runs. */
  lemma {:induction false} CollapseKeepsContent(s: string)
    ensures Content(Collapse(s)) == Content(s)
    decreases |s|
  {
    if s != [] {
      if IsSpace(s[0]) {
        var rest := TrimStart(s);
        TrimStartShorter(s);
        TrimStartSuffix(s);
        CollapseKeepsContent(rest);
        var r := " " + Collapse(rest);
        assert r[1..] == Collapse(rest);
        assert Content(r) == Content(rest);
        assert s == s[..|s| - |rest|] + rest;
        ContentAllSpace(s[..|s| - |rest|]);
        ContentAppend(s[..|s| - |rest|], rest);
      } else {
        CollapseKeepsContent(s[1..]);
        assert ([s[0]] + Collapse(s[1..]))[1..] == Collapse(s[1..]);
      }
    }
  }

  /** `re.sub(r"\s+", " ", s)` as the regular-expression engine runs it,
      left to right: the first whitespace character of a run becomes a
      space, the others of the run are dropped, and every other character
      is copied. `inRun` says whether the previous character was whitespace. */
  function Squeeze(s: string, inRun: bool): (r: string)
    ensures |r| <= |s|
  {
    if s == [] then []
    else if IsSpace(s[0]) then (if inRun then [] else " ") + Squeeze(s[1..], true)
    else [s[0]] + Squeeze(s[1..], false)
  }

  /** Inside a run, the scan drops whitespace until the run ends. */
  lemma {:induction false} SqueezeInRun(t: string)
    ensures Squeeze(t, true) == Squeeze(TrimStart(t), false)
  {
    if t != [] {
      if IsSpace(t[0]) {
        SqueezeInRun(t[1..]);
        assert Squeeze(t, true) == [] + Squeeze(t[1..], true);
      }
    }
  }

  /** The collapse is exactly the left-to-right scan: each maximal
      whitespace run becomes one space and nothing else changes. */
  lemma {:induction false} CollapseIsSqueeze(s: string)
    ensures Collapse(s) == Squeeze(s, false)
    decreases |s|
  {
    if s != [] {
      if IsSpace(s[0]) {
        var rest := TrimStart(s);
        TrimStartShorter(s);
        CollapseIsSqueeze(rest);
        SqueezeInRun(s[1..]);
        assert TrimStart(s[1..]) == rest;
      } else {
        CollapseIsSqueeze(s[1..]);
      }
    }
  }

  /** `_clean_text`: NUL becomes a space, whitespace runs become one space,
      and the result is stripped. */
  function CleanText(s: string): (r: string)
    ensures NoNul(r) && SingleSpaced(r) && Trimmed(r)
  {
    var c := Collapse(ReplaceNul(s));
    var r := Trim(c);
    TrimTrimmed(c);
    TrimInfix(c);
    InfixKeepsShape(c, TrimOffset(c), r);
    r
  }

  /** Any infix of a single-spaced string is one as well, and has no NUL
      when the string has none. */
  lemma InfixKeepsShape(c: string, a: nat, r: string)
    requires SingleSpaced(c)
    requires a + |r| <= |c| && r == c[a..a + |r|]
    ensures SingleSpaced(r)
    ensures NoNul(c) ==> NoNul(r)
  {
    forall k | 0 < k < |r| ensures !DoubleSpaceAt(r, k) {
      assert r[k - 1] == c[a + k - 1] && r[k] == c[a + k];
      assert !DoubleSpaceAt(c, a + k);
    }
    forall k | 0 <= k < |r| ensures (NoNul(c) ==> r[k] != NUL) && (IsSpace(r[k]) ==> r[k] == ' ') {
      assert r[k] == c[a + k];
    }
  }

  /** Stripping removes only whitespace. */
  lemma TrimKeepsContent(c: string)
    ensures Content(Trim(c)) == Content(c)
  {
    TrimInfix(c);
    var r := Trim(c);
    var a := TrimOffset(c);
    var b := a + |r|;
    calc {
      Content(c);
      { assert c == c[..a] + r + c[b..]; }
      Content(c[..a] + r + c[b..]);
      { ContentAppend(c[..a] + r, c[b..]); ContentAppend(c[..a], r); }
      Content(c[..a]) + Content(r) + Content(c[b..]);
      { ContentAllSpace(c[..a]); ContentAllSpace(c[b..]); }
      [] + Content(r) + [];
      { assert [] + Content(r) + [] == Content(r); }
      Content(r);
    }
  }

  /** Cleaning keeps everything a reader sees: only whitespace and NUL
      are rewritten or removed. */
  lemma CleanTextKeepsContent(s: string)
    ensures Content(CleanText(s)) == Content(s)
  {
    var n := ReplaceNul(s);
    var c := Collapse(n);
    calc {
      Content(CleanText(s));
      Content(Trim(c));
      { TrimKeepsContent(c); }
      Content(c);
      { CollapseKeepsContent(n); }
      Content(n);
      { ReplaceNulKeepsContent(s); }
      Content(s);
    }
  }

  /** Cleaning is idempotent: a cleaned text is its own cleaning. */
  lemma CleanTextIdempotent(s: string)
    ensures CleanText(CleanText(s)) == CleanText(s)
  {
    var c := CleanText(s);
    assert ReplaceNul(c) == c;
    CollapseFixesSingleSpaced(c);
    TrimTrimmed(c);
  }

  /** The cleaned text is empty exactly when the input holds nothing but
      whitespace and NUL characters. */
  lemma CleanTextEmpty(s: string)
    ensures CleanText(s) == [] <==> forall k :: 0 <= k < |s| ==> IsSpace(s[k]) || s[k] == NUL
  {
    var n := ReplaceNul(s);
    var c := Collapse(n);
    TrimEmpty(c);
    if forall k :: 0 <= k < |s| ==> IsSpace(s[k]) || s[k] == NUL {
      CollapseSpaceHead(n);
      if c != [] {
        assert IsSpace(c[0]);
        assert AllSpace(c);
      }
    } else {
      var k :| 0 <= k < |s| && !IsSpace(s[k]) && s[k] != NUL;
      assert n[k] == s[k];
      CollapseKeepsNonSpace(n, k);
    }
  }

  /** Collapsing an all-whitespace string leaves at most one character. */
  lemma CollapseSpaceHead(n: string)
    requires forall k :: 0 <= k < |n| ==> IsSpace(n[k])
    ensures |Collapse(n)| <= 1
  {
    if n != [] {
      TrimStartSuffix(n);
      assert TrimStart(n) == [];
    }
  }

  /** A non-whitespace character survives the collapse. */
  lemma {:induction false} CollapseKeepsNonSpace(n: string, k: nat)
    requires k < |n| && !IsSpace(n[k])
    ensures exists j :: 0 <= j < |Collapse(n)| && !IsSpace(Collapse(n)[j])
    decreases |n|
  {
    if IsSpace(n[0]) {
      var rest := TrimStart(n);
      TrimStartShorter(n);
      TrimStartSuffix(n);
      var off := |n| - |rest|;
      assert off <= k;
      assert rest[k - off] == n[k];
      CollapseKeepsNonSpace(rest, k - off);
      var j :| 0 <= j < |Collapse(rest)| && !IsSpace(Collapse(rest)[j]);
      assert Collapse(n)[j + 1] == Collapse(rest)[j];
    } else {
      assert Collapse(n)[0] == n[0];
    }
  }

  predicate IsTerminator(c: char) {
    c == '.' || c == '!' || c == '?'
  }

  /** Position `k` holds whitespace right after a terminator: the place where
      the segmenter cuts. */
  predicate BreakAt(p: string, k: int)
    requires 0 < k < |p|
  {
    IsTerminator(p[k - 1]) && IsSpace(p[k])
  }

  /** No terminator in `p` is directly followed by whitespace. */
  ghost predicate NoBreakInside(p: string) {
    forall k :: 0 < k < |p| ==> !BreakAt(p, k)
  }

  /** The split of `re.split(r"(?<=[.!?])\s+", cur + s)`, where `cur` is the
      part read so far and `s` the rest of the input. A whitespace run is cut
      out exactly when the character just before it is a terminator; the
      look-behind sees that character as the last one of `cur`, which is
      empty only at the very start or right after a cut. */
  function SplitFrom(cur: string, s: string): (parts: seq<string>)
    ensures |parts| >= 1
    decreases |s|
  {
    if s == [] then [cur]
    else if cur != [] && IsTerminator(cur[|cur| - 1]) && IsSpace(s[0]) then
      TrimStartShorter(s);
      [cur] + SplitFrom([], TrimStart(s))
    else
      SplitFrom(cur + [s[0]], s[1..])
  }

  function SplitAtBreaks(s: string): seq<string>
  {
    SplitFrom([], s)
  }

  /** The body of the loop in `split_sentences`: strip each part, drop the
      empty ones, tag the rest with the page. */
  function KeepNonBlank(parts: seq<string>, page: Option<int>): seq<Sentence>
  {
    if parts == [] then [] else KeepPart(parts[0], page) + KeepNonBlank(parts[1..], page)
  }

  /** One part of the split: its stripped text as a sentence, or nothing
      when it strips to the empty string. */
  function KeepPart(part: string, page: Option<int>): seq<Sentence>
  {
    var p := Trim(part);
    if p != [] then [Sentence(p, page)] else []
  }

  lemma {:induction false} KeepNonBlankAppend(a: seq<string>, b: seq<string>, page: Option<int>)
    ensures KeepNonBlank(a + b, page) == KeepNonBlank(a, page) + KeepNonBlank(b, page)
  {
    if a == [] {
      assert a + b == b;
    } else {
      assert (a + b)[0] == a[0];
      assert (a + b)[1..] == a[1..] + b;
      KeepNonBlankAppend(a[1..], b, page);
    }
  }

  /** What `split_sentences(text, page)` returns. */
  function SentencesOf(text: string, page: Option<int>): seq<Sentence>
  {
    var t := CleanText(text);
    if t == [] then [] else KeepNonBlank(SplitAtBreaks(t), page)
  }

  /** A good part is a non-empty, stripped piece of text with no terminator
      directly followed by whitespace. */
  ghost predicate GoodPart(p: string) {
    p != [] && Trimmed(p) && NoBreakInside(p)
  }

  /** Good parts, every one but the last ending with a terminator. */
  ghost predicate GoodParts(parts: seq<string>) {
    && (forall k :: 0 <= k < |parts| ==> GoodPart(parts[k]))
    && (forall k :: 0 <= k < |parts| - 1 ==> EndsWithTerminator(parts[k]))
  }

  predicate EndsWithTerminator(p: string) {
    p != [] && IsTerminator(p[|p| - 1])
  }

  lemma ConsGoodParts(cur: string, tail: seq<string>)
    requires GoodPart(cur) && EndsWithTerminator(cur)
    requires GoodParts(tail) && |tail| >= 1
    ensures GoodParts([cur] + tail)
    ensures Join([cur] + tail, " ") == cur + " " + Join(tail, " ")
  {
    var parts := [cur] + tail;
    assert parts[1..] == tail;
    forall k | 0 <= k < |parts| ensures GoodPart(parts[k]) {
      if k > 0 {
        assert parts[k] == tail[k - 1];
      }
    }
    forall k | 0 <= k < |parts| - 1 ensures EndsWithTerminator(parts[k]) {
      if k > 0 {
        assert parts[k] == tail[k - 1];
      }
    }
  }

  /** The shape of the split of a cleaned, non-empty text: every part is
      good, every part but the last ends with a terminator, and putting the
      single spaces back between the parts gives the text again. */
  lemma {:induction false} SplitFromShape(cur: string, s: string)
    requires cur + s != [] && NoNul(cur + s) && SingleSpaced(cur + s) && Trimmed(cur + s)
    requires NoBreakInside(cur)
    ensures GoodParts(SplitFrom(cur, s))
    ensures Join(SplitFrom(cur, s), " ") == cur + s
    decreases |s|
  {
    if s == [] {
      assert cur + s == cur;
    } else if cur != [] && IsTerminator(cur[|cur| - 1]) && IsSpace(s[0]) {
      SplitCase(cur, s);
    } else {
      var cur' := cur + [s[0]];
      assert cur' + s[1..] == cur + s;
      NoBreakExtend(cur, s[0]);
      SplitFromShape(cur', s[1..]);
    }
  }

  /** Appending a character keeps `NoBreakInside` unless it is whitespace
      after a terminator. */
  lemma NoBreakExtend(cur: string, c: char)
    requires NoBreakInside(cur)
    requires !(cur != [] && IsTerminator(cur[|cur| - 1]) && IsSpace(c))
    ensures NoBreakInside(cur + [c])
  {
    var cur' := cur + [c];
    forall k | 0 < k < |cur'| ensures !BreakAt(cur', k) {
      if k < |cur| {
        assert cur'[k - 1] == cur[k - 1] && cur'[k] == cur[k];
        assert !BreakAt(cur, k);
      }
    }
  }

  /** The cut case of `SplitFromShape`. */
  lemma {:induction false} SplitCase(cur: string, s: string)
    requires cur + s != [] && NoNul(cur + s) && SingleSpaced(cur + s) && Trimmed(cur + s)
    requires NoBreakInside(cur)
    requires s != [] && cur != [] && IsTerminator(cur[|cur| - 1]) && IsSpace(s[0])
    ensures GoodParts(SplitFrom(cur, s))
    ensures Join(SplitFrom(cur, s), " ") == cur + s
    decreases |s|, 0
  {
    CutSpace(cur, s);
    CutRest(cur, s);
    CutHead(cur, s);
    var rest := s[1..];
    assert TrimStart(s) == rest;
    assert [] + rest == rest;
    SplitFromShape([], rest);
    var tail := SplitFrom([], rest);
    assert SplitFrom(cur, s) == [cur] + tail;
    ConsGoodParts(cur, tail);
    JoinCut(cur, s, tail);
  }

  /** At a cut, the whitespace run of a single-spaced text is one space,
      followed by more text. */
  lemma CutSpace(cur: string, s: string)
    requires SingleSpaced(cur + s) && Trimmed(cur + s)
    requires s != [] && cur != [] && IsSpace(s[0])
    ensures |s| > 1 && s[0] == ' ' && !IsSpace(s[1])
  {
    var w := cur + s;
    assert s[0] == w[|cur|];
    assert w[|cur| + 1] == s[1];
    assert !DoubleSpaceAt(w, |cur| + 1);
  }

  /** What follows the space of a cut is itself a cleaned text. */
  lemma CutRest(cur: string, s: string)
    requires NoNul(cur + s) && SingleSpaced(cur + s) && Trimmed(cur + s)
    requires |s| > 1 && !IsSpace(s[1])
    ensures var rest := s[1..]; rest != [] && NoNul([] + rest) && SingleSpaced([] + rest) && Trimmed([] + rest)
  {
    var w := cur + s;
    var rest := s[1..];
    assert rest == w[|cur| + 1..|cur| + 1 + |rest|];
    InfixKeepsShape(w, |cur| + 1, rest);
    assert rest[|rest| - 1] == w[|w| - 1];
    assert [] + rest == rest;
  }

  /** The part before a cut is a good part. */
  lemma CutHead(cur: string, s: string)
    requires SingleSpaced(cur + s) && Trimmed(cur + s)
    requires NoBreakInside(cur)
    requires cur != [] && IsTerminator(cur[|cur| - 1])
    ensures GoodPart(cur)
  {
    var w := cur + s;
    assert cur == w[0..0 + |cur|];
    InfixKeepsShape(w, 0, cur);
    assert cur[0] == w[0];
  }

  lemma JoinCut(cur: string, s: string, tail: seq<string>)
    requires s != [] && s[0] == ' ' && |tail| >= 1
    requires Join(tail, " ") == s[1..]
    ensures Join([cur] + tail, " ") == cur + s
  {
    assert ([cur] + tail)[1..] == tail;
    assert s == " " + s[1..];
  }

  /** When every part is non-empty and stripped, the filter keeps them all. */
  lemma {:induction false} KeepNonBlankKeepsAll(parts: seq<string>, page: Option<int>)
    requires forall k :: 0 <= k < |parts| ==> parts[k] != [] && Trimmed(parts[k])
    ensures var out := KeepNonBlank(parts, page);
      |out| == |parts| && forall k :: 0 <= k < |parts| ==> out[k] == Sentence(parts[k], page)
  {
    if parts != [] {
      assert Trim(parts[0]) == parts[0];
      KeepNonBlankKeepsAll(parts[1..], page);
      var out := KeepNonBlank(parts, page);
      assert out == [Sentence(parts[0], page)] + KeepNonBlank(parts[1..], page);
    }
  }

  /** The split of a cleaned, non-empty text consists of good parts that
      join back to the text. */
  lemma SplitAtBreaksShape(t: string)
    requires t != [] && NoNul(t) && SingleSpaced(t) && Trimmed(t)
    ensures GoodParts(SplitAtBreaks(t))
    ensures Join(SplitAtBreaks(t), " ") == t
  {
    assert [] + t == t;
    SplitFromShape([], t);
  }

  /** What `split_sentences` promises of its result `out` for the cleaned
      text `t`: no sentences exactly when `t` is empty; every sentence is a
      good part (non-empty, stripped, no terminator followed by whitespace)
      tagged with the given page; every sentence but the last ends with a
      terminator; and joining the sentences with single spaces gives back
      `t`. */
  ghost predicate Segmented(out: seq<Sentence>, page: Option<int>, t: string) {
    && (out == [] <==> t == [])
    && (forall k :: 0 <= k < |out| ==> GoodPart(out[k].text) && out[k].page == page)
    && (forall k :: 0 <= k < |out| - 1 ==> EndsWithTerminator(out[k].text))
    && Join(Texts(out), " ") == t
  }

  lemma SentencesOfSpec(text: string, page: Option<int>)
    ensures Segmented(SentencesOf(text, page), page, CleanText(text))
  {
    var t := CleanText(text);
    var out := SentencesOf(text, page);
    if t != [] {
      var parts := SplitAtBreaks(t);
      assert GoodParts(parts) && Join(parts, " ") == t by {
        SplitAtBreaksShape(t);
      }
      assert out == KeepNonBlank(parts, page);
      SegmentedFromParts(parts, page, t, out);
    }
  }

  lemma SegmentedFromParts(parts: seq<string>, page: Option<int>, t: string, out: seq<Sentence>)
    requires t != [] && GoodParts(parts) && Join(parts, " ") == t
    requires out == KeepNonBlank(parts, page)
    ensures Segmented(out, page, t)
  {
    KeepNonBlankKeepsAll(parts, page);
    assert Texts(out) == parts;
  }

  /** A good part is its own strip, so a segmented text can go straight to
      the chunk builder. */
  lemma SegmentedTextsStripped(out: seq<Sentence>, page: Option<int>, t: string)
    requires Segmented(out, page, t)
    ensures forall k :: 0 <= k < |out| ==> out[k].text != [] && Trim(out[k].text) == out[k].text
  {
    forall k | 0 <= k < |out| ensures out[k].text != [] && Trim(out[k].text) == out[k].text {
      assert GoodPart(out[k].text);
    }
  }

  /** `split_sentences`: clean the text, cut it after terminators, and keep
      the non-empty stripped parts, each tagged with `page`. */
  method SplitSentences(text: string, page: Option<int>) returns (out: seq<Sentence>)
    ensures out == SentencesOf(text, page)
    ensures Segmented(out, page, CleanText(text))
  {
    var t := CleanText(text);
    if t == [] {
      out := [];
    } else {
      var parts := SplitAtBreaks(t);
      out := KeepNonBlankLoop(parts, page);
    }
    SentencesOfSpec(text, page);
  }

  /** The `for` loop of `split_sentences` over the parts of the split. */
  method KeepNonBlankLoop(parts: seq<string>, page: Option<int>) returns (out: seq<Sentence>)
    ensures out == KeepNonBlank(parts, page)
  {
    out := [];
    for k := 0 to |parts|
      invariant out == KeepNonBlank(parts[..k], page)
    {
      KeepNonBlankStep(parts, k, page);
      var p := Trim(parts[k]);
      if p != [] {
        out := out + [Sentence(p, page)];
      }
    }
    assert parts[..|parts|] == parts;
  }

  lemma KeepNonBlankStep(parts: seq<string>, k: nat, page: Option<int>)
    requires k < |parts|
    ensures KeepNonBlank(parts[..k + 1], page) == KeepNonBlank(parts[..k], page) + KeepPart(parts[k], page)
  {
    assert parts[..k + 1] == parts[..k] + [parts[k]];
    KeepNonBlankAppend(parts[..k], [parts[k]], page);
    assert KeepNonBlank([parts[k]], page) == KeepPart(parts[k], page) + KeepNonBlank([], page);
  }
}
