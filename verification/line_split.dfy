/** Cutting a string into lines: the plain `split(/\r\n|\n|\\n/)` of
    `renderGPTText`, and `splitPreservingMathBlocks`, which keeps every
    `\[...\]` and `\begin{..}...\end{..}` block in one piece, internal
    newlines included, and splits only the text around the blocks. */
module LineSplit {
  import opened Wrappers
  import opened Strings
  import opened Scanner
  import opened MathSegments

  /** The three things that end a line. */
  predicate IsLineBreak(t: string) {
    t == "\r\n" || t == "\n" || t == "\\n"
  }

  /** `/\r\n|\n|\\n/` at `p`: a carriage return with line feed, a line
      feed, or a backslash followed by `n` (an escaped newline left in the
      text), tried in that order. A carriage return alone ends nothing. */
  function NewlineEnd(s: string, p: nat): (r: Option<nat>)
    ensures r.Some? ==> p < r.value <= |s| && IsLineBreak(s[p..r.value])
    ensures r.None? <==> !HasAt(s, "\r\n", p) && !HasAt(s, "\n", p) && !HasAt(s, "\\n", p)
  {
    if HasAt(s, "\r\n", p) then Some(p + 2)
    else if HasAt(s, "\n", p) then Some(p + 1)
    else if HasAt(s, "\\n", p) then Some(p + 2)
    else None
  }

  /** `t` holds no line feed and no backslash-`n` pair. */
  ghost predicate NoLineBreak(t: string) {
    forall k :: 0 <= k < |t| ==> t[k] != '\n' && !HasAt(t, "\\n", k)
  }

  /** `text.split(/\r\n|\n|\\n/)`. There is always a line: the empty
      text is one empty line. */
  function SplitLines(t: string): (r: seq<string>)
    ensures |r| >= 1
    ensures t == [] ==> r == [""]
  {
    Split(NewlineEnd, t)
  }

  /** The line breaks `SplitLines` removes, in order. */
  function LineBreaks(t: string): (r: seq<string>)
    ensures |r| == |SplitLines(t)| - 1
  {
    Separators(NewlineEnd, t)
  }

  /** Lines and the breaks between them give back the text; every break
      is one of the three line endings. */
  lemma SplitLinesRebuild(t: string)
    ensures Weave(SplitLines(t), LineBreaks(t)) == t
    ensures forall i :: 0 <= i < |LineBreaks(t)| ==> IsLineBreak(LineBreaks(t)[i])
  {
    SplitRebuild(NewlineEnd, t);
    forall i | 0 <= i < |LineBreaks(t)| ensures IsLineBreak(LineBreaks(t)[i]) {
      SplitPiece(NewlineEnd, t, i);
    }
  }

  /** No line holds a line break. */
  lemma SplitLinesClean(t: string)
    ensures forall i :: 0 <= i < |SplitLines(t)| ==> NoLineBreak(SplitLines(t)[i])
  {
    forall i | 0 <= i < |SplitLines(t)| ensures NoLineBreak(SplitLines(t)[i]) {
      SplitPiece(NewlineEnd, t, i);
      var g := GapSpans(NewlineEnd, t, 0);
      HitFreeClean(t, g[i].lo, g[i].hi);
    }
  }

  /** A stretch with no line break starting in it is free of line breaks. */
  lemma HitFreeClean(t: string, lo: nat, hi: nat)
    requires lo <= hi <= |t| && HitFree(NewlineEnd, t, lo, hi)
    ensures NoLineBreak(t[lo..hi])
  {
    var x := t[lo..hi];
    forall k | 0 <= k < |x| ensures x[k] != '\n' && !HasAt(x, "\\n", k) {
      assert !IsHit(NewlineEnd, t, lo + k);
      HasAtSlice(t, "\\n", lo, hi, k);
    }
  }

  // ---------------------------------------------------------------------
  // `splitPreservingMathBlocks`

  /** `/(\\\[[\s\S]*?\\\])|(\\begin\{[^}]+\}[\s\S]*?\\end\{[^}]+\})/g`:
      the two block alternatives of the segmenter's pattern. It finds
      exactly the block matches of that pattern. */
  function BlockAlt(s: string, p: nat): (r: Option<MathMatch>)
    ensures r.Some? ==> MatchAt(s, p) == r && r.value.kind == BlockMath
    ensures MatchAt(s, p).Some? && MatchAt(s, p).value.kind == BlockMath ==> r == MatchAt(s, p)
  {
    MatchAtDispatch(s, p);
    BracketAlt(s, p).OrElse(EnvironmentAlt(s, p))
  }

  function BlockEnd(s: string, p: nat): Option<nat> {
    match BlockAlt(s, p)
    case None => None
    case Some(mm) => Some(mm.end)
  }

  /** An output element, tagged with where it came from. */
  datatype Line = PlainLine(text: string) | BlockLine(text: string)

  /** The elements one piece of the block scan contributes: the lines of a
      stretch of plain text, or the whole block. */
  function PieceLines(s: string, pc: Piece): (r: seq<Line>)
    requires pc.lo <= pc.hi <= |s|
    ensures |r| >= 1
  {
    match pc
    case Gap(lo, hi) =>
      var ls := SplitLines(s[lo..hi]);
      seq(|ls|, i requires 0 <= i < |ls| => PlainLine(ls[i]))
    case Hit(lo, hi) => [BlockLine(s[lo..hi])]
  }

  ghost predicate InRange(s: string, pcs: seq<Piece>) {
    forall i :: 0 <= i < |pcs| ==> pcs[i].lo <= pcs[i].hi <= |s|
  }

  function LinesOf(s: string, pcs: seq<Piece>): (r: seq<Line>)
    requires InRange(s, pcs)
    ensures |pcs| > 0 ==> |r| > 0
    decreases |pcs|
  {
    if |pcs| == 0 then [] else PieceLines(s, pcs[0]) + LinesOf(s, pcs[1..])
  }

  /** The text of each element. */
  function Texts(ls: seq<Line>): (r: seq<string>)
    ensures |r| == |ls|
  {
    seq(|ls|, i requires 0 <= i < |ls| => ls[i].text)
  }

  /** `splitPreservingMathBlocks(text)`, each element tagged. */
  function SplitTagged(s: string): (r: seq<Line>)
    ensures r == [] <==> s == []
  {
    var pcs := PiecesFrom(BlockEnd, s, 0);
    assert s != [] ==> pcs != [];
    LinesOf(s, pcs)
  }

  /** `splitPreservingMathBlocks(text)`. Empty input gives no lines at
      all (unlike `split`, which gives one empty line); any other input
      gives at least one. */
  function SplitPreservingMathBlocks(s: string): (r: seq<string>)
    ensures |r| == |SplitTagged(s)|
    ensures r == [] <==> s == []
  {
    Texts(SplitTagged(s))
  }

  /** Where the elements that piece `k` of the block scan contributes
      begin in the output. */
  function FirstLine(s: string, k: nat): (j: nat)
    requires k <= |PiecesFrom(BlockEnd, s, 0)|
  {
    var pcs := PiecesFrom(BlockEnd, s, 0);
    assert InRange(s, pcs[..k]) by {
      forall i | 0 <= i < k ensures pcs[..k][i].lo <= pcs[..k][i].hi <= |s| {
        assert pcs[..k][i] == pcs[i];
      }
    }
    |LinesOf(s, pcs[..k])|
  }

  /** Every block the scan finds, a leftmost `\[...\]` or environment, is
      pushed as one element, verbatim and newlines included: element
      `FirstLine(s, k)` for piece `k`. Each piece's elements start after
      the previous piece's, so the blocks keep their order, and the last
      piece's elements end the output. */
  lemma BlocksWhole(s: string)
    ensures var pcs := PiecesFrom(BlockEnd, s, 0);
      forall k :: 0 <= k < |pcs| && pcs[k].Hit? ==>
        && BlockAlt(s, pcs[k].lo).Some? && BlockAlt(s, pcs[k].lo).value.end == pcs[k].hi
        && FirstLine(s, k) < |SplitTagged(s)|
        && SplitTagged(s)[FirstLine(s, k)] == BlockLine(s[pcs[k].lo..pcs[k].hi])
        && SplitPreservingMathBlocks(s)[FirstLine(s, k)] == s[pcs[k].lo..pcs[k].hi]
    ensures forall k :: 0 <= k < |PiecesFrom(BlockEnd, s, 0)| ==> FirstLine(s, k) < FirstLine(s, k + 1)
    ensures FirstLine(s, |PiecesFrom(BlockEnd, s, 0)|) == |SplitTagged(s)|
  {
    var pcs := PiecesFrom(BlockEnd, s, 0);
    forall k | 0 <= k < |pcs| ensures FirstLine(s, k) < FirstLine(s, k + 1) {
      PieceLine(s, k);
    }
    forall k | 0 <= k < |pcs| && pcs[k].Hit?
      ensures FirstLine(s, k) < |SplitTagged(s)|
      ensures SplitTagged(s)[FirstLine(s, k)] == BlockLine(s[pcs[k].lo..pcs[k].hi])
    {
      PieceLine(s, k);
    }
    assert pcs[..|pcs|] == pcs;
  }

  /** Piece `k`'s elements start before piece `k + 1`'s, and a block
      piece is the element at its start. */
  lemma PieceLine(s: string, k: nat)
    requires k < |PiecesFrom(BlockEnd, s, 0)|
    ensures FirstLine(s, k) < FirstLine(s, k + 1) <= |SplitTagged(s)|
    ensures var pc := PiecesFrom(BlockEnd, s, 0)[k];
      pc.Hit? ==> SplitTagged(s)[FirstLine(s, k)] == BlockLine(s[pc.lo..pc.hi])
  {
    LinesAt(s, PiecesFrom(BlockEnd, s, 0), k);
  }

  /** The elements of piece `k` follow those of the pieces before it, and
      a block piece contributes the block alone. */
  lemma LinesAt(s: string, pcs: seq<Piece>, k: nat)
    requires InRange(s, pcs) && k < |pcs|
    ensures |LinesOf(s, pcs[..k])| < |LinesOf(s, pcs[..k + 1])| <= |LinesOf(s, pcs)|
    ensures pcs[k].Hit? ==> LinesOf(s, pcs)[|LinesOf(s, pcs[..k])|] == BlockLine(s[pcs[k].lo..pcs[k].hi])
  {
    LinesOfSplit(s, pcs, k);
    LinesOfSplit(s, pcs, k + 1);
    var u := pcs[..k + 1];
    LinesOfSplit(s, u, k);
    assert u[..k] == pcs[..k] && u[k..] == [pcs[k]];
    assert LinesOf(s, [pcs[k]]) == PieceLines(s, pcs[k]) + LinesOf(s, []);
    var w := pcs[k..];
    assert w[0] == pcs[k] && w[1..] == pcs[k + 1..];
    assert LinesOf(s, w) == PieceLines(s, pcs[k]) + LinesOf(s, pcs[k + 1..]);
  }

  /** The elements of a list of pieces are those of a prefix followed by
      those of the rest. */
  lemma {:induction false} LinesOfSplit(s: string, pcs: seq<Piece>, k: nat)
    requires InRange(s, pcs) && k <= |pcs|
    ensures LinesOf(s, pcs) == LinesOf(s, pcs[..k]) + LinesOf(s, pcs[k..])
    decreases k
  {
    if k == 0 {
      assert pcs[..0] == [] && pcs[0..] == pcs;
    } else {
      var t := pcs[1..];
      LinesOfSplit(s, t, k - 1);
      assert t[..k - 1] == pcs[..k][1..] && t[k - 1..] == pcs[k..];
      assert pcs[..k][0] == pcs[0];
    }
  }

  /** A text that is one block from start to end is one element, line
      breaks and all. */
  lemma WholeBlock(s: string)
    requires BlockAlt(s, 0).Some? && BlockAlt(s, 0).value.end == |s|
    ensures SplitPreservingMathBlocks(s) == [s]
  {
    var pcs := [Hit(0, |s|)];
    assert IsPieceList(BlockEnd, s, 0, pcs);
    PieceListUnique(BlockEnd, s, 0, pcs);
    assert LinesOf(s, pcs) == [BlockLine(s[0..|s|])] + LinesOf(s, []);
    assert s[0..|s|] == s;
  }

  /** `\[a`, a line feed, `b\]` is one element: the line feed inside the
      block does not split it. */
  lemma BracketBlockExample()
    ensures SplitPreservingMathBlocks("\\[a\nb\\]") == ["\\[a\nb\\]"]
  {
    BracketBlockMatch();
    WholeBlock("\\[a\nb\\]");
  }

  lemma BracketBlockMatch()
    ensures BlockAlt("\\[a\nb\\]", 0) == Some(MathMatch(BlockMath, 2, 5, 7))
  {
    var s := "\\[a\nb\\]";
    assert HasAt(s, "\\[", 0);
    HasAtFirst(s, "\\]", 2);
    HasAtFirst(s, "\\]", 3);
    HasAtFirst(s, "\\]", 4);
    assert HasAt(s, "\\]", 5);
    assert FindFrom(s, "\\]", 2) == Some(5);
  }

  /** `t` is one block of math: it parses as a single block segment. */
  predicate OneBlock(t: string) {
    |ParseMathSegments(t)| == 1 && ParseMathSegments(t)[0].Block?
  }

  /** Each block element is a whole `\[...\]` or environment, verbatim,
      newlines included, and parses as exactly one block segment; each
      plain element holds no line break. */
  lemma SplitTaggedLines(s: string)
    ensures forall i :: 0 <= i < |SplitTagged(s)| ==> LineOk(SplitTagged(s)[i])
  {
    LinesOfLines(s, 0, PiecesFrom(BlockEnd, s, 0));
  }

  /** A block element parses as exactly one block segment; a plain
      element holds no line break. */
  ghost predicate LineOk(l: Line) {
    && (l.BlockLine? ==> OneBlock(l.text))
    && (l.PlainLine? ==> NoLineBreak(l.text))
  }

  lemma {:induction false} LinesOfLines(s: string, last: nat, pcs: seq<Piece>)
    requires IsPieceList(BlockEnd, s, last, pcs)
    ensures forall i :: 0 <= i < |LinesOf(s, pcs)| ==> LineOk(LinesOf(s, pcs)[i])
    decreases |pcs|
  {
    if |pcs| > 0 {
      var head := PieceLines(s, pcs[0]);
      PieceListDrop(BlockEnd, s, last, pcs, 1);
      LinesOfLines(s, pcs[0].hi, pcs[1..]);
      PieceLinesOk(s, pcs[0]);
      AllOkAppend(head, LinesOf(s, pcs[1..]));
    }
  }

  lemma AllOkAppend(a: seq<Line>, b: seq<Line>)
    requires forall i :: 0 <= i < |a| ==> LineOk(a[i])
    requires forall i :: 0 <= i < |b| ==> LineOk(b[i])
    ensures forall i :: 0 <= i < |a + b| ==> LineOk((a + b)[i])
  {
    forall i | 0 <= i < |a + b| ensures LineOk((a + b)[i]) {
      if i >= |a| { assert (a + b)[i] == b[i - |a|]; }
    }
  }

  lemma PieceLinesOk(s: string, pc: Piece)
    requires pc.lo <= pc.hi <= |s|
    requires pc.Hit? ==> IsHit(BlockEnd, s, pc.lo) && HitEnd(BlockEnd, s, pc.lo) == pc.hi
    ensures forall i :: 0 <= i < |PieceLines(s, pc)| ==> LineOk(PieceLines(s, pc)[i])
  {
    if pc.Hit? {
      BlockIsOne(s, pc.lo);
    } else {
      SplitLinesClean(s[pc.lo..pc.hi]);
    }
  }

  /** A block found by the block scan, cut out, is one block segment. */
  lemma BlockIsOne(s: string, p: nat)
    requires BlockAlt(s, p).Some?
    ensures OneBlock(s[p..BlockAlt(s, p).value.end])
  {
    var mm := BlockAlt(s, p).value;
    MatchAtSlice(s, p);
    ParseWholeMatch(s[p..mm.end], Shift(mm, p));
  }

  // ---------------------------------------------------------------------
  // Nothing but line breaks is lost

  /** What separates the elements one piece contributes. */
  function PieceGlue(s: string, pc: Piece): (r: seq<string>)
    requires pc.lo <= pc.hi <= |s|
    ensures |r| == |PieceLines(s, pc)| - 1
  {
    match pc
    case Gap(lo, hi) => LineBreaks(s[lo..hi])
    case Hit(_, _) => []
  }

  /** What separates consecutive elements of `LinesOf(s, pcs)`: a line
      break inside a stretch of plain text, nothing where a block begins or
      ends. */
  function GlueOf(s: string, pcs: seq<Piece>): (r: seq<string>)
    requires InRange(s, pcs) && |pcs| > 0
    ensures |r| == |LinesOf(s, pcs)| - 1
    decreases |pcs|
  {
    if |pcs| == 1 then PieceGlue(s, pcs[0])
    else PieceGlue(s, pcs[0]) + [""] + GlueOf(s, pcs[1..])
  }

  /** A piece's elements, with its glue, spell out the piece. */
  lemma PieceRebuild(s: string, pc: Piece)
    requires pc.lo <= pc.hi <= |s|
    ensures Weave(Texts(PieceLines(s, pc)), PieceGlue(s, pc)) == s[pc.lo..pc.hi]
  {
    if pc.Gap? {
      var x := s[pc.lo..pc.hi];
      assert Texts(PieceLines(s, pc)) == SplitLines(x);
      SplitLinesRebuild(x);
    }
  }

  /** Inside a piece, elements are separated by line breaks only. */
  lemma PieceGlueClean(s: string, pc: Piece)
    requires pc.lo <= pc.hi <= |s|
    ensures BreakOrNothing(PieceGlue(s, pc))
  {
    if pc.Gap? {
      SplitLinesRebuild(s[pc.lo..pc.hi]);
    }
  }

  lemma TextsAppend(a: seq<Line>, b: seq<Line>)
    ensures Texts(a + b) == Texts(a) + Texts(b)
  {
  }

  lemma {:induction false} LinesRebuild(s: string, pcs: seq<Piece>)
    requires InRange(s, pcs) && |pcs| > 0
    ensures Weave(Texts(LinesOf(s, pcs)), GlueOf(s, pcs)) == Concat(PieceTexts(s, pcs))
    decreases |pcs|
  {
    ConcatPieces(s, pcs);
    if |pcs| == 1 {
      LinesRebuildOne(s, pcs);
    } else {
      LinesRebuild(s, pcs[1..]);
      LinesRebuildStep(s, pcs);
    }
  }

  /** A single piece spells itself out. */
  lemma LinesRebuildOne(s: string, pcs: seq<Piece>)
    requires InRange(s, pcs) && |pcs| == 1
    ensures Weave(Texts(LinesOf(s, pcs)), GlueOf(s, pcs)) == s[pcs[0].lo..pcs[0].hi] + Concat(PieceTexts(s, pcs[1..]))
  {
    var x := s[pcs[0].lo..pcs[0].hi];
    PieceRebuild(s, pcs[0]);
    assert pcs[1..] == [];
    assert LinesOf(s, pcs) == PieceLines(s, pcs[0]) + LinesOf(s, []);
    assert LinesOf(s, pcs) == PieceLines(s, pcs[0]);
    assert GlueOf(s, pcs) == PieceGlue(s, pcs[0]);
    assert Concat(PieceTexts(s, [])) == [];
    assert x + [] == x;
  }

  /** The first piece's text, then the rest's. */
  lemma ConcatPieces(s: string, pcs: seq<Piece>)
    requires InRange(s, pcs) && |pcs| > 0
    ensures Concat(PieceTexts(s, pcs)) == s[pcs[0].lo..pcs[0].hi] + Concat(PieceTexts(s, pcs[1..]))
  {
    assert PieceTexts(s, pcs)[1..] == PieceTexts(s, pcs[1..]);
  }

  /** One step of `LinesRebuild`: the first piece in front of the rest. */
  lemma LinesRebuildStep(s: string, pcs: seq<Piece>)
    requires InRange(s, pcs) && |pcs| > 1
    requires Weave(Texts(LinesOf(s, pcs[1..])), GlueOf(s, pcs[1..])) == Concat(PieceTexts(s, pcs[1..]))
    ensures Weave(Texts(LinesOf(s, pcs)), GlueOf(s, pcs)) == s[pcs[0].lo..pcs[0].hi] + Concat(PieceTexts(s, pcs[1..]))
  {
    var rest := pcs[1..];
    var a := Texts(PieceLines(s, pcs[0]));
    var ga := PieceGlue(s, pcs[0]);
    var b := Texts(LinesOf(s, rest));
    var gb := GlueOf(s, rest);
    PieceRebuild(s, pcs[0]);
    TextsCons(s, pcs);
    WeaveSplice(Texts(LinesOf(s, pcs)), GlueOf(s, pcs), a, ga, b, gb);
  }

  /** The texts and glue of a list of pieces, first piece split off. */
  lemma TextsCons(s: string, pcs: seq<Piece>)
    requires InRange(s, pcs) && |pcs| > 1
    ensures Texts(LinesOf(s, pcs)) == Texts(PieceLines(s, pcs[0])) + Texts(LinesOf(s, pcs[1..]))
    ensures GlueOf(s, pcs) == PieceGlue(s, pcs[0]) + [""] + GlueOf(s, pcs[1..])
  {
    TextsAppend(PieceLines(s, pcs[0]), LinesOf(s, pcs[1..]));
  }

  ghost predicate BreakOrNothing(g: seq<string>) {
    forall i :: 0 <= i < |g| ==> g[i] == [] || IsLineBreak(g[i])
  }

  lemma BreakOrNothingAppend(a: seq<string>, b: seq<string>)
    requires BreakOrNothing(a) && BreakOrNothing(b)
    ensures BreakOrNothing(a + [""] + b)
  {
    var g := a + [""] + b;
    forall i | 0 <= i < |g| ensures g[i] == [] || IsLineBreak(g[i]) {
      if i < |a| {
        assert g[i] == a[i];
      } else if i > |a| {
        assert g[i] == b[i - |a| - 1];
      }
    }
  }

  lemma {:induction false} GlueClean(s: string, pcs: seq<Piece>)
    requires InRange(s, pcs) && |pcs| > 0
    ensures BreakOrNothing(GlueOf(s, pcs))
    decreases |pcs|
  {
    PieceGlueClean(s, pcs[0]);
    if |pcs| > 1 {
      GlueClean(s, pcs[1..]);
      BreakOrNothingAppend(PieceGlue(s, pcs[0]), GlueOf(s, pcs[1..]));
    }
  }

  /** The glue of the whole output. */
  function Glue(s: string): (r: seq<string>)
    requires s != []
    ensures |r| == |SplitPreservingMathBlocks(s)| - 1
  {
    GlueOf(s, PiecesFrom(BlockEnd, s, 0))
  }

  /** The elements, put back together with the line breaks that were cut
      out, give back the input: blocks are copied verbatim and nothing but
      line breaks between plain lines is dropped. */
  lemma SplitPreservingRebuild(s: string)
    requires s != []
    ensures Weave(SplitPreservingMathBlocks(s), Glue(s)) == s
    ensures BreakOrNothing(Glue(s))
  {
    var pcs := PiecesFrom(BlockEnd, s, 0);
    LinesRebuild(s, pcs);
    GlueClean(s, pcs);
    PieceListRebuild(BlockEnd, s, 0, pcs);
  }
}
