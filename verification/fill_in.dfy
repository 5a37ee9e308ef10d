/** How a plain-text segment is tokenized: it is split on `##` into
    alternating text and media references, and each text part is split on
    runs of three or more underscores, which become fill-in blanks
    (`parseForFillInQuestions`). */
module FillIn {
  import opened Wrappers
  import opened Strings
  import opened Scanner
  import opened Substitutions

  /** What a text segment renders as, in order: literal text, a media
      reference, or a fill-in blank. */
  datatype Token = Words(text: string) | Media(url: string) | Blank

  // ---------------------------------------------------------------------
  // Blanks

  /** `/_{3,}/`: three or more underscores, as many as there are. */
  function BlankEnd(s: string, p: nat): (r: Option<nat>)
    ensures r.Some? <==> HasAt(s, "___", p)
    ensures r.Some? ==> p + 3 <= r.value <= |s|
                        && (forall k :: p <= k < r.value ==> s[k] == '_')
                        && (r.value == |s| || s[r.value] != '_')
  {
    if HasAt(s, "___", p) then
      assert s[p] == s[p..p + 3][0] && s[p + 1] == s[p..p + 3][1] && s[p + 2] == s[p..p + 3][2];
      Some(SkipWhile(s, p, c => c == '_'))
    else None
  }

  /** The blank marker between every two consecutive parts. */
  function WithBlanks(parts: seq<string>): (r: seq<Token>)
    requires |parts| >= 1
    ensures |r| == 2 * |parts| - 1
    decreases |parts|
  {
    if |parts| == 1 then [Words(parts[0])]
    else [Words(parts[0]), Blank] + WithBlanks(parts[1..])
  }

  /** `parseForFillInQuestions(str)`. */
  function ParseForFillInQuestions(s: string): (r: seq<Token>)
    ensures |r| % 2 == 1
  {
    WithBlanks(Split(BlankEnd, s))
  }

  /** The parts alternate with blanks: words at even positions holding
      the parts in order, a blank at every odd position. */
  lemma {:induction false} WithBlanksShape(parts: seq<string>)
    requires |parts| >= 1
    ensures forall i :: 0 <= i < |WithBlanks(parts)| && i % 2 == 0 ==> WithBlanks(parts)[i] == Words(parts[i / 2])
    ensures forall i :: 0 <= i < |WithBlanks(parts)| && i % 2 == 1 ==> WithBlanks(parts)[i] == Blank
    decreases |parts|
  {
    if |parts| > 1 {
      WithBlanksShape(parts[1..]);
      var r := WithBlanks(parts);
      var t := WithBlanks(parts[1..]);
      assert r == [Words(parts[0]), Blank] + t;
      forall i | 2 <= i < |r| ensures r[i] == t[i - 2] {
      }
      forall i | 2 <= i < |r| && i % 2 == 0 ensures r[i] == Words(parts[i / 2]) {
        assert r[i] == t[i - 2] == Words(parts[1..][(i - 2) / 2]);
      }
    }
  }

  /** No part holds three underscores in a row. */
  lemma PartsHaveNoBlank(s: string, i: nat)
    requires i < |Split(BlankEnd, s)|
    ensures !Contains(Split(BlankEnd, s)[i], "___")
  {
    SplitPiece(BlankEnd, s, i);
    var g := GapSpans(BlankEnd, s, 0);
    NoBlankInGap(s, g[i].lo, g[i].hi);
  }

  /** A stretch the scan passed over holds no three underscores in a row. */
  lemma NoBlankInGap(s: string, lo: nat, hi: nat)
    requires lo <= hi <= |s| && HitFree(BlankEnd, s, lo, hi)
    ensures !Contains(s[lo..hi], "___")
  {
    forall j | 0 <= j <= hi - lo ensures !HasAt(s[lo..hi], "___", j) {
      HasAtSlice(s, "___", lo, hi, j);
      if lo + j < hi {
        assert !IsHit(BlankEnd, s, lo + j);
      }
    }
  }

  /** The parts, joined with the underscore runs that were cut out, give
      back the text, and every run that was cut out is three or more
      underscores. */
  lemma FillInRebuild(s: string)
    ensures Weave(Split(BlankEnd, s), Separators(BlankEnd, s)) == s
    ensures forall i :: 0 <= i < |Separators(BlankEnd, s)| ==>
              |Separators(BlankEnd, s)[i]| >= 3 && forall k :: 0 <= k < |Separators(BlankEnd, s)[i]| ==> Separators(BlankEnd, s)[i][k] == '_'
  {
    SplitRebuild(BlankEnd, s);
    forall i | 0 <= i < |Separators(BlankEnd, s)|
      ensures |Separators(BlankEnd, s)[i]| >= 3 && forall k :: 0 <= k < |Separators(BlankEnd, s)[i]| ==> Separators(BlankEnd, s)[i][k] == '_'
    {
      SeparatorIsRun(s, i);
    }
  }

  lemma SeparatorIsRun(s: string, i: nat)
    requires i < |Separators(BlankEnd, s)|
    ensures |Separators(BlankEnd, s)[i]| >= 3 && forall k :: 0 <= k < |Separators(BlankEnd, s)[i]| ==> Separators(BlankEnd, s)[i][k] == '_'
  {
    SplitPiece(BlankEnd, s, i);
  }

  // ---------------------------------------------------------------------
  // Counting blanks

  /** A maximal run of three or more underscores starts at `q`. */
  predicate RunStart(s: string, q: nat) {
    HasAt(s, "___", q) && (q == 0 || s[q - 1] != '_')
  }

  /** How many maximal runs of three or more underscores start at or
      after `i`. */
  function RunCount(s: string, i: nat): (n: nat)
    requires i <= |s|
    decreases |s| - i
  {
    if i == |s| then 0 else (if RunStart(s, i) then 1 else 0) + RunCount(s, i + 1)
  }

  /** Runs that start in `[lo, hi)` are counted from `lo` but not from `hi`. */
  lemma {:induction false} RunCountSkip(s: string, lo: nat, hi: nat)
    requires lo <= hi <= |s| && forall q :: lo <= q < hi ==> !RunStart(s, q)
    ensures RunCount(s, lo) == RunCount(s, hi)
    decreases hi - lo
  {
    if lo < hi {
      RunCountSkip(s, lo + 1, hi);
    }
  }

  /** A scan position: the start, or just past a maximal underscore run. */
  predicate AfterRun(s: string, last: nat) {
    last == 0 || (0 < last <= |s| && s[last - 1] == '_' && (last == |s| || s[last] != '_'))
  }

  /** From a scan position, each match the scan takes is one maximal run,
      so the parts outnumber the runs by one. */
  lemma {:induction false} GapsCountRuns(s: string, last: nat)
    requires last <= |s| && AfterRun(s, last)
    ensures |GapSpans(BlankEnd, s, last)| == RunCount(s, last) + 1
    decreases |s| - last
  {
    match NextHit(BlankEnd, s, last)
    case None =>
      NoRunsLeft(s, last);
      assert GapSpans(BlankEnd, s, last) == [Span(last, |s|)];
    case Some(p) =>
      var e := HitEnd(BlankEnd, s, p);
      RunsToHit(s, last, p);
      GapsCountRuns(s, e);
      GapSpansHit(BlankEnd, s, last, p);
  }

  /** No match left means no run left. */
  lemma NoRunsLeft(s: string, last: nat)
    requires last <= |s| && NextHit(BlankEnd, s, last).None?
    ensures RunCount(s, last) == 0
  {
    forall q | last <= q < |s| ensures !RunStart(s, q) {
      assert !IsHit(BlankEnd, s, q);
    }
    RunCountSkip(s, last, |s|);
  }

  /** The first match from a scan position is exactly one run, and the
      scan goes on from a scan position. */
  lemma RunsToHit(s: string, last: nat, p: nat)
    requires last <= |s| && AfterRun(s, last) && NextHit(BlankEnd, s, last) == Some(p)
    ensures RunCount(s, last) == 1 + RunCount(s, HitEnd(BlankEnd, s, p))
    ensures AfterRun(s, HitEnd(BlankEnd, s, p))
  {
    var e := HitEnd(BlankEnd, s, p);
    forall q | last <= q < p ensures !RunStart(s, q) && !HasAt(s, "___", q) {
      assert !IsHit(BlankEnd, s, q);
    }
    RunCountSkip(s, last, p);
    HitIsRunStart(s, last, p);
    forall q | p + 1 <= q < e ensures !RunStart(s, q) {
      assert s[q - 1] == '_';
    }
    RunCountSkip(s, p + 1, e);
    assert RunCount(s, p) == 1 + RunCount(s, p + 1);
  }

  /** The leftmost match from a scan position starts a maximal run. */
  lemma HitIsRunStart(s: string, last: nat, p: nat)
    requires AfterRun(s, last) && last <= p && HasAt(s, "___", p)
    requires forall q :: last <= q < p ==> !HasAt(s, "___", q)
    ensures RunStart(s, p)
  {
    if p > 0 {
      HasAtChar(s, "___", p, p);
      HasAtChar(s, "___", p, p + 1);
      if p > last {
        assert !HasAt(s, "___", p - 1);
        assert s[p - 1..p + 2] == [s[p - 1], '_', '_'];
      }
    }
  }

  /** One blank for each maximal run of three or more underscores. */
  lemma BlankCount(s: string)
    ensures |Split(BlankEnd, s)| == RunCount(s, 0) + 1
    ensures |ParseForFillInQuestions(s)| == 2 * RunCount(s, 0) + 1
  {
    GapsCountRuns(s, 0);
  }

  // ---------------------------------------------------------------------
  // Media references

  /** The tokens of one `##`-separated part: media at odd positions, the
      fill-in tokens of the text at even ones. */
  function PartTokens(part: string, k: nat): (r: seq<Token>) {
    if k % 2 == 1 then [Media(part)] else ParseForFillInQuestions(part)
  }

  function TokensFrom(parts: seq<string>, k: nat): (r: seq<Token>)
    decreases |parts|
  {
    if |parts| == 0 then [] else PartTokens(parts[0], k) + TokensFrom(parts[1..], k + 1)
  }

  /** A text segment: `seg.value.split("##")`, each part tokenized by its
      position. */
  function TextTokens(v: string): (r: seq<Token>) {
    TokensFrom(Split(Literal("##"), v), 0)
  }

  /** The parts between `##` markers, joined again with `##`, give back the
      text. */
  lemma MediaRebuild(v: string)
    ensures Join(Split(Literal("##"), v), "##") == v
  {
    var m := Literal("##");
    SplitRebuild(m, v);
    var seps := Separators(m, v);
    forall i | 0 <= i < |seps| ensures seps[i] == "##" {
      SplitPiece(m, v, i);
      var g := GapSpans(m, v, 0);
      LiteralHit("##", v, g[i].hi);
    }
    assert seps == seq(|Split(m, v)| - 1, _ => "##");
  }

  /** The urls of the media tokens, in order. */
  function MediaUrls(toks: seq<Token>): (r: seq<string>)
    ensures |r| <= |toks|
    decreases |toks|
  {
    if |toks| == 0 then []
    else (if toks[0].Media? then [toks[0].url] else []) + MediaUrls(toks[1..])
  }

  /** The second, fourth, ... part. */
  function OddParts(parts: seq<string>): (r: seq<string>)
    decreases |parts|
  {
    if |parts| < 2 then [] else [parts[1]] + OddParts(parts[2..])
  }

  /** Whether a part is media depends only on its position, so an unpaired
      marker does not stop the alternation: the media are exactly the
      parts at odd positions of the `##` split, in order, and there are
      half as many as parts, rounded down. */
  lemma MediaAtOddParts(v: string)
    ensures var parts := Split(Literal("##"), v);
      && |MediaUrls(TextTokens(v))| == |parts| / 2
      && forall i :: 0 <= i < |parts| / 2 ==> MediaUrls(TextTokens(v))[i] == parts[2 * i + 1]
  {
    MediaFrom(Split(Literal("##"), v), 0);
    OddPartsAt(Split(Literal("##"), v));
  }

  lemma {:induction false} OddPartsAt(parts: seq<string>)
    ensures |OddParts(parts)| == |parts| / 2
    ensures forall i :: 0 <= i < |parts| / 2 ==> OddParts(parts)[i] == parts[2 * i + 1]
    decreases |parts|
  {
    if |parts| >= 2 {
      var rest := parts[2..];
      OddPartsAt(rest);
      forall i | 1 <= i < |parts| / 2 ensures OddParts(parts)[i] == parts[2 * i + 1] {
        assert OddParts(parts)[i] == OddParts(rest)[i - 1] == rest[2 * (i - 1) + 1];
      }
    }
  }

  /** From an even position on, the media are the parts at odd offsets. */
  lemma {:induction false} MediaFrom(parts: seq<string>, k: nat)
    requires k % 2 == 0
    ensures MediaUrls(TokensFrom(parts, k)) == OddParts(parts)
    decreases |parts|
  {
    if |parts| == 1 {
      MediaLast(parts[0], k);
      assert parts == [parts[0]];
    } else if |parts| >= 2 {
      MediaFrom(parts[2..], k + 2);
      MediaPair(parts, k);
    }
  }

  /** A lone text part holds no media. */
  lemma MediaLast(part: string, k: nat)
    requires k % 2 == 0
    ensures MediaUrls(TokensFrom([part], k)) == []
  {
    assert [part][1..] == [];
    assert TokensFrom([part], k) == PartTokens(part, k) + TokensFrom([], k + 1);
    NoMediaInBlanks(Split(BlankEnd, part));
    MediaUrlsAppend(PartTokens(part, k), []);
  }

  /** A text part and a media part contribute the media part. */
  lemma MediaPair(parts: seq<string>, k: nat)
    requires k % 2 == 0 && |parts| >= 2
    ensures MediaUrls(TokensFrom(parts, k)) == [parts[1]] + MediaUrls(TokensFrom(parts[2..], k + 2))
  {
    var t1 := parts[1..];
    assert t1[0] == parts[1] && t1[1..] == parts[2..];
    var tail := TokensFrom(parts[2..], k + 2);
    assert TokensFrom(t1, k + 1) == [Media(parts[1])] + tail;
    assert MediaUrls([Media(parts[1])] + tail) == [parts[1]] + MediaUrls(tail) by {
      assert ([Media(parts[1])] + tail)[1..] == tail;
    }
    NoMediaInBlanks(Split(BlankEnd, parts[0]));
    MediaUrlsAppend(PartTokens(parts[0], k), TokensFrom(t1, k + 1));
  }

  lemma {:induction false} MediaUrlsAppend(a: seq<Token>, b: seq<Token>)
    ensures MediaUrls(a + b) == MediaUrls(a) + MediaUrls(b)
    decreases |a|
  {
    if |a| == 0 {
      assert a + b == b;
    } else {
      assert (a + b)[0] == a[0] && (a + b)[1..] == a[1..] + b;
      MediaUrlsAppend(a[1..], b);
    }
  }

  /** Fill-in tokens are never media. */
  lemma {:induction false} NoMediaInBlanks(parts: seq<string>)
    requires |parts| >= 1
    ensures MediaUrls(WithBlanks(parts)) == []
    decreases |parts|
  {
    if |parts| == 1 {
      assert [Words(parts[0])][1..] == [];
    } else {
      NoMediaInBlanks(parts[1..]);
      MediaUrlsAppend([Words(parts[0]), Blank], WithBlanks(parts[1..]));
      assert [Words(parts[0]), Blank][1..] == [Blank] && [Blank][1..] == [];
    }
  }

  /** Text without `##` and without three underscores in a row is one
      literal token. */
  lemma PlainText(v: string)
    requires !Contains(v, "##") && !Contains(v, "___")
    ensures TextTokens(v) == [Words(v)]
  {
    forall p | 0 <= p < |v| ensures !IsHit(Literal("##"), v, p) {
      LiteralHit("##", v, p);
    }
    NoHitSplit(Literal("##"), v);
    forall p | 0 <= p < |v| ensures !IsHit(BlankEnd, v, p) {
    }
    NoHitSplit(BlankEnd, v);
    assert ParseForFillInQuestions(v) == [Words(v)];
    assert [v][1..] == [];
    assert TextTokens(v) == PartTokens(v, 0) + TokensFrom([], 1);
  }

  /** A part free of `#` ends at the first marker; the rest is split on
      its own. */
  lemma SplitAtMarker(a: string, b: string)
    requires forall k :: 0 <= k < |a| ==> a[k] != '#'
    ensures Split(Literal("##"), a + "##" + b) == [a] + Split(Literal("##"), b)
  {
    var m := Literal("##");
    var s := a + "##" + b;
    forall k | 0 <= k < |a| ensures !IsHit(m, s, k) {
      LiteralHit("##", s, k);
      HasAtFirst(s, "##", k);
    }
    assert s[|a|..|a| + 2] == "##";
    LiteralHit("##", s, |a|);
    LiteralAhead("##", s, |a| + 2);
    SplitFirst(m, s, |a|);
    assert s[..|a|] == a && s[|a| + 2..] == b;
  }

  /** A part free of `#` is not split. */
  lemma NoMarker(a: string)
    requires forall k :: 0 <= k < |a| ==> a[k] != '#'
    ensures Split(Literal("##"), a) == [a]
  {
    forall k | 0 <= k < |a| ensures !IsHit(Literal("##"), a, k) {
      LiteralHit("##", a, k);
      HasAtFirst(a, "##", k);
    }
    NoHitSplit(Literal("##"), a);
  }

  /** Two images between three pieces of text. */
  lemma MediaExample()
    ensures Split(Literal("##"), "x##img1.png##y##img2.png##z") == ["x", "img1.png", "y", "img2.png", "z"]
  {
    var m := Literal("##");
    var t4 := "img2.png" + "##" + "z";
    var t3 := "y" + "##" + t4;
    var t2 := "img1.png" + "##" + t3;
    var t1 := "x" + "##" + t2;
    NoMarker("z");
    SplitAtMarker("img2.png", "z");
    SplitAtMarker("y", t4);
    SplitAtMarker("img1.png", t3);
    SplitAtMarker("x", t2);
    assert Split(m, t1) == ["x", "img1.png", "y", "img2.png", "z"];
    MediaLiteral();
  }

  lemma MediaLiteral()
    ensures "x" + "##" + ("img1.png" + "##" + ("y" + "##" + ("img2.png" + "##" + "z"))) == "x##img1.png##y##img2.png##z"
  {
    assert "img2.png" + "##" + "z" == "img2.png##z";
    assert "y" + "##" + "img2.png##z" == "y##img2.png##z";
    assert "img1.png" + "##" + "y##img2.png##z" == "img1.png##y##img2.png##z";
  }

  /** Text without an underscore is one literal token. */
  lemma NoUnderscore(a: string)
    requires forall k :: 0 <= k < |a| ==> a[k] != '_'
    ensures ParseForFillInQuestions(a) == [Words(a)]
  {
    forall k | 0 <= k < |a| ensures !IsHit(BlankEnd, a, k) {
      HasAtFirst(a, "___", k);
    }
    NoHitSplit(BlankEnd, a);
  }

  /** The tokens of the two-image text: text, media, text, media, text. */
  lemma TokensExample()
    ensures TextTokens("x##img1.png##y##img2.png##z")
         == [Words("x"), Media("img1.png"), Words("y"), Media("img2.png"), Words("z")]
  {
    MediaExample();
    TokensOfParts();
  }

  lemma TokensOfParts()
    ensures TokensFrom(["x", "img1.png", "y", "img2.png", "z"], 0)
         == [Words("x"), Media("img1.png"), Words("y"), Media("img2.png"), Words("z")]
  {
    NoUnderscore("x");
    NoUnderscore("y");
    NoUnderscore("z");
    var parts := ["x", "img1.png", "y", "img2.png", "z"];
    var t4 := TokensFrom(parts[4..], 4);
    assert t4 == [Words("z")] by {
      assert parts[4..] == ["z"] && ["z"][1..] == [];
      assert TokensFrom(["z"], 4) == PartTokens("z", 4) + TokensFrom([], 5);
    }
    var t3 := TokensFrom(parts[3..], 3);
    assert t3 == [Media("img2.png")] + t4 by {
      assert parts[3..][0] == "img2.png" && parts[3..][1..] == parts[4..];
    }
    var t2 := TokensFrom(parts[2..], 2);
    assert t2 == [Words("y")] + t3 by {
      assert parts[2..][0] == "y" && parts[2..][1..] == parts[3..];
    }
    var t1 := TokensFrom(parts[1..], 1);
    assert t1 == [Media("img1.png")] + t2 by {
      assert parts[1..][0] == "img1.png" && parts[1..][1..] == parts[2..];
    }
  }

  /** An unpaired marker: in `a##b##c##d` the last part is media, though no
      marker closes it. */
  lemma UnpairedExample()
    ensures TextTokens("a##b##c##d") == [Words("a"), Media("b"), Words("c"), Media("d")]
  {
    UnpairedSplit();
    UnpairedTokens();
  }

  lemma UnpairedSplit()
    ensures Split(Literal("##"), "a##b##c##d") == ["a", "b", "c", "d"]
  {
    var m := Literal("##");
    var t3 := "c" + "##" + "d";
    var t2 := "b" + "##" + t3;
    var t1 := "a" + "##" + t2;
    NoMarker("d");
    SplitAtMarker("c", "d");
    SplitAtMarker("b", t3);
    SplitAtMarker("a", t2);
    assert Split(m, t1) == ["a", "b", "c", "d"];
    UnpairedLiteral();
  }

  lemma UnpairedLiteral()
    ensures "a" + "##" + ("b" + "##" + ("c" + "##" + "d")) == "a##b##c##d"
  {
    assert "c" + "##" + "d" == "c##d";
    assert "b" + "##" + "c##d" == "b##c##d";
  }

  lemma UnpairedTokens()
    ensures TokensFrom(["a", "b", "c", "d"], 0) == [Words("a"), Media("b"), Words("c"), Media("d")]
  {
    NoUnderscore("a");
    NoUnderscore("c");
    var parts := ["a", "b", "c", "d"];
    var t3 := TokensFrom(parts[3..], 3);
    assert t3 == [Media("d")] by {
      assert parts[3..] == ["d"] && ["d"][1..] == [];
      assert TokensFrom(["d"], 3) == PartTokens("d", 3) + TokensFrom([], 4);
    }
    var t2 := TokensFrom(parts[2..], 2);
    assert t2 == [Words("c")] + t3 by {
      assert parts[2..][0] == "c" && parts[2..][1..] == parts[3..];
    }
    var t1 := TokensFrom(parts[1..], 1);
    assert t1 == [Media("b")] + t2 by {
      assert parts[1..][0] == "b" && parts[1..][1..] == parts[2..];
    }
  }
}
