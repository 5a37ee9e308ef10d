/** The clean-up applied to text generated by a chat model before it is
    rendered (`preprocessChatGPTResponse`).

    First the math spans `\[...\]`, `\(...\)`, `$$...$$` and
    `\begin{..}...\end{..}` are found by a leftmost scan; they are copied
    unchanged, and in the text between them every newline character is
    written as the two characters backslash and `n`. Then every dollar
    amount (`$` followed by a number) has its `$` rewritten to the
    full-width dollar sign U+FF04, and right after that every U+FF04 is
    rewritten back to `$`. The two rewrites cancel, so their only effect
    is that a full-width dollar sign already present in the text becomes
    `$`. */
module GptPreprocess {
  import opened Wrappers
  import opened Strings
  import opened Scanner
  import opened MathSegments
  import opened Substitutions

  // ---------------------------------------------------------------------
  // Protected math spans

  /** The protecting pattern at `p`: `\[..\]`, `\(..\)`, `$$..$$` and
      `\begin{..}..\end{..}`, in this order; each `..` is lazy. The
      protected spans are exactly the segmenter's matches other than the
      single-dollar form: both patterns pick the same alternative wherever
      a protected span starts, and the segmenter matches no other span
      except one opened by a single `$`. */
  function ProtectAt(s: string, p: nat): (r: Option<MathMatch>)
    ensures r.Some? ==> MatchAt(s, p) == r
    ensures MatchAt(s, p).Some? && !SingleDollarAt(s, p) ==> r == MatchAt(s, p)
  {
    var r := BracketAlt(s, p).OrElse(ParenAlt(s, p)).OrElse(DoubleDollarAlt(s, p)).OrElse(EnvironmentAlt(s, p));
    MatchAtDispatch(s, p);
    if p + 1 < |s| then OpenersAt(s, p); r else r
  }

  /** Where a protected span starting at `p` ends. */
  function ProtectEnd(s: string, p: nat): (r: Option<nat>)
    ensures r.Some? ==> p < r.value <= |s|
  {
    match ProtectAt(s, p)
    case None => None
    case Some(mm) => Some(mm.end)
  }

  /** What the text between protected spans becomes. */
  function EscapeNewlines(t: string): (r: string) {
    ReplaceAll(t, "\n", "\\n")
  }

  /** No newline character survives the escaping; text without one is
      left as it is. */
  lemma EscapeNewlinesClean(t: string)
    ensures !Contains(EscapeNewlines(t), "\n")
    ensures !Contains(t, "\n") ==> EscapeNewlines(t) == t
  {
    ReplaceAllRemoves(t, "\n", "\\n", 0);
  }

  /** What one piece of the scan contributes. */
  function ProtectPiece(s: string, pc: Piece): (r: string)
    requires pc.lo <= pc.hi <= |s|
  {
    match pc
    case Gap(lo, hi) => EscapeNewlines(s[lo..hi])
    case Hit(lo, hi) => s[lo..hi]
  }

  function ProtectParts(s: string): (r: seq<string>)
    ensures |r| == |PiecesFrom(ProtectEnd, s, 0)|
  {
    var pcs := PiecesFrom(ProtectEnd, s, 0);
    seq(|pcs|, i requires 0 <= i < |pcs| => ProtectPiece(s, pcs[i]))
  }

  /** The first stage: `parts.join("")`. */
  function Protect(s: string): (r: string) {
    Concat(ProtectParts(s))
  }

  /** Piece by piece: a protected span is copied from the input unchanged
      and may hold newlines; any other piece is the escaped input text and
      holds none. */
  lemma ProtectPartIs(s: string, i: nat)
    requires i < |ProtectParts(s)|
    ensures var pc := PiecesFrom(ProtectEnd, s, 0)[i];
      && pc.lo < pc.hi <= |s|
      && (pc.Hit? ==> ProtectParts(s)[i] == s[pc.lo..pc.hi] && IsHit(ProtectEnd, s, pc.lo))
      && (pc.Gap? ==> ProtectParts(s)[i] == EscapeNewlines(s[pc.lo..pc.hi]) && !Contains(ProtectParts(s)[i], "\n"))
  {
    var pc := PiecesFrom(ProtectEnd, s, 0)[i];
    if pc.Gap? {
      EscapeNewlinesClean(s[pc.lo..pc.hi]);
    }
  }

  /** Text without newline characters passes the first stage unchanged. */
  lemma ProtectNoNewline(s: string)
    requires !Contains(s, "\n")
    ensures Protect(s) == s
  {
    var pcs := PiecesFrom(ProtectEnd, s, 0);
    forall i | 0 <= i < |pcs| ensures ProtectParts(s)[i] == PieceTexts(s, pcs)[i] {
      var pc := pcs[i];
      if pc.Gap? {
        NoNewlineSlice(s, pc.lo, pc.hi);
        EscapeNewlinesClean(s[pc.lo..pc.hi]);
      }
    }
    assert ProtectParts(s) == PieceTexts(s, pcs);
    PieceListRebuild(ProtectEnd, s, 0, pcs);
  }

  lemma NoNewlineSlice(s: string, lo: nat, hi: nat)
    requires lo <= hi <= |s| && !Contains(s, "\n")
    ensures !Contains(s[lo..hi], "\n")
  {
    forall j | 0 <= j <= hi - lo ensures !HasAt(s[lo..hi], "\n", j) {
      HasAtSlice(s, "\n", lo, hi, j);
    }
  }

  // ---------------------------------------------------------------------
  // Dollar amounts

  /** `\d`: an ASCII digit. */
  predicate IsDigit(c: char) {
    '0' <= c <= '9'
  }

  /** The end of the run of at most `n` digits starting at `i`. */
  function Digits(s: string, i: nat, n: nat): (j: nat)
    requires i <= |s|
    ensures i <= j <= |s| && j <= i + n
    ensures forall k :: i <= k < j ==> IsDigit(s[k])
    decreases n
  {
    if n > 0 && i < |s| && IsDigit(s[i]) then Digits(s, i + 1, n - 1) else i
  }

  /** `(,\d{3})*`, greedy: the end of the longest run of groups of a comma
      and three digits starting at `i`. */
  function Groups(s: string, i: nat): (j: nat)
    requires i <= |s|
    ensures i <= j <= |s|
    decreases |s| - i
  {
    if i + 4 <= |s| && s[i] == ',' && IsDigit(s[i + 1]) && IsDigit(s[i + 2]) && IsDigit(s[i + 3])
    then Groups(s, i + 4)
    else i
  }

  /** `/\$(\d{1,3}(,\d{3})*(\.\d{2})?|(\d+))/`: a `$` followed by a digit
      starts a match. The first alternative always succeeds once a digit
      follows, and since nothing comes after it in the pattern the greedy
      path is taken: up to three digits, then as many comma groups as
      there are, then a point and two digits if present. The second
      alternative is never reached. */
  function MoneyEnd(s: string, p: nat): (r: Option<nat>)
    ensures r.Some? <==> p + 1 < |s| && s[p] == '$' && IsDigit(s[p + 1])
    ensures r.Some? ==> p + 1 < r.value <= |s|
  {
    if p + 1 < |s| && s[p] == '$' && IsDigit(s[p + 1]) then
      var a := Digits(s, p + 1, 3);
      var b := Groups(s, a);
      if b + 3 <= |s| && s[b] == '.' && IsDigit(s[b + 1]) && IsDigit(s[b + 2]) then Some(b + 3) else Some(b)
    else None
  }

  /** The full-width dollar sign. */
  const FullDollar: char := '\U{FF04}'

  /** `(_, moneyValue) => "＄" + moneyValue`: the match with its `$`
      replaced by the full-width sign. */
  function MarkMoney(t: string): (r: string) {
    if |t| > 0 then [FullDollar] + t[1..] else t
  }

  /** Every full-width dollar sign of `t` written as `$`, all else kept. */
  function FoldDollars(t: string): (r: string)
    ensures |r| == |t|
    ensures forall i :: 0 <= i < |t| ==> r[i] == (if t[i] == FullDollar then '$' else t[i])
  {
    seq(|t|, i requires 0 <= i < |t| => if t[i] == FullDollar then '$' else t[i])
  }

  lemma FoldDollarsAppend(a: string, b: string)
    ensures FoldDollars(a + b) == FoldDollars(a) + FoldDollars(b)
  {
  }

  /** Replacing every full-width sign by `$` is folding them. */
  lemma {:induction false} RestoreIsFold(s: string, last: nat)
    requires last <= |s|
    ensures ReplaceFrom(Literal([FullDollar]), s, last, Const("$")) == FoldDollars(s[last..])
    decreases |s| - last
  {
    var m := Literal([FullDollar]);
    match NextHit(m, s, last)
    case None =>
      RestoreNone(s, last);
    case Some(p) =>
      LiteralHit([FullDollar], s, p);
      RestoreIsFold(s, p + 1);
      RestoreStep(s, last, p);
  }

  lemma RestoreNone(s: string, last: nat)
    requires last <= |s| && NextHit(Literal([FullDollar]), s, last).None?
    ensures ReplaceFrom(Literal([FullDollar]), s, last, Const("$")) == FoldDollars(s[last..])
  {
    GapUnfolded(s, last, |s|);
    assert s[last..] == s[last..|s|];
  }

  /** One step of `RestoreIsFold`: the text before the first full-width
      sign, the sign, and the rest. */
  lemma RestoreStep(s: string, last: nat, p: nat)
    requires last <= p < |s| && NextHit(Literal([FullDollar]), s, last) == Some(p)
    requires HitEnd(Literal([FullDollar]), s, p) == p + 1
    requires ReplaceFrom(Literal([FullDollar]), s, p + 1, Const("$")) == FoldDollars(s[p + 1..])
    ensures ReplaceFrom(Literal([FullDollar]), s, last, Const("$")) == FoldDollars(s[last..])
  {
    var m := Literal([FullDollar]);
    ReplaceFromHit(m, s, last, p, Const("$"));
    GapUnfolded(s, last, p);
    SignFolds(s, p);
    SuffixThree(s, last, p, p + 1);
    FoldThree(s[last..p], s[p..p + 1], s[p + 1..]);
  }

  /** A full-width sign folds to `$`. */
  lemma SignFolds(s: string, p: nat)
    requires p < |s| && IsHit(Literal([FullDollar]), s, p)
    ensures FoldDollars(s[p..p + 1]) == "$"
  {
    LiteralHit([FullDollar], s, p);
    assert s[p..p + 1] == [FullDollar];
  }

  /** A stretch holding no full-width sign is left as it is by folding. */
  lemma GapUnfolded(s: string, lo: nat, hi: nat)
    requires lo <= hi <= |s| && HitFree(Literal([FullDollar]), s, lo, hi)
    ensures FoldDollars(s[lo..hi]) == s[lo..hi]
  {
    forall k | lo <= k < hi ensures s[k] != FullDollar {
      LiteralHit([FullDollar], s, k);
      assert s[k..k + 1] == [s[k]];
    }
  }

  /** The money rewrite, and the rewrite back. */
  function MoneyPass(t: string): (r: string) {
    ReplaceAll(Replace(MoneyEnd, t, MarkMoney), [FullDollar], "$")
  }

  /** A dollar amount, marked, folds back to itself. */
  lemma MarkFolds(t: string)
    requires |t| > 0 && t[0] == '$'
    ensures FoldDollars(MarkMoney(t)) == FoldDollars(t)
  {
  }

  lemma FoldThree(a: string, b: string, c: string)
    ensures FoldDollars(a + b + c) == FoldDollars(a) + FoldDollars(b) + FoldDollars(c)
  {
    FoldDollarsAppend(a + b, c);
    FoldDollarsAppend(a, b);
  }

  lemma {:induction false} MarkedFold(s: string, last: nat)
    requires last <= |s|
    ensures FoldDollars(ReplaceFrom(MoneyEnd, s, last, MarkMoney)) == FoldDollars(s[last..])
    decreases |s| - last
  {
    match NextHit(MoneyEnd, s, last)
    case None =>
      assert ReplaceFrom(MoneyEnd, s, last, MarkMoney) == s[last..];
    case Some(p) =>
      MarkedFold(s, HitEnd(MoneyEnd, s, p));
      MarkedFoldStep(s, last, p);
  }

  /** One step of `MarkedFold`: the text before the first amount, the
      amount, and the rest. */
  lemma MarkedFoldStep(s: string, last: nat, p: nat)
    requires last <= |s| && NextHit(MoneyEnd, s, last) == Some(p)
    requires FoldDollars(ReplaceFrom(MoneyEnd, s, HitEnd(MoneyEnd, s, p), MarkMoney)) == FoldDollars(s[HitEnd(MoneyEnd, s, p)..])
    ensures FoldDollars(ReplaceFrom(MoneyEnd, s, last, MarkMoney)) == FoldDollars(s[last..])
  {
    var e := HitEnd(MoneyEnd, s, p);
    var rest := ReplaceFrom(MoneyEnd, s, e, MarkMoney);
    assert ReplaceFrom(MoneyEnd, s, last, MarkMoney) == s[last..p] + MarkMoney(s[p..e]) + rest;
    FoldThree(s[last..p], MarkMoney(s[p..e]), rest);
    AmountFolds(s, p);
    SuffixThree(s, last, p, e);
    FoldThree(s[last..p], s[p..e], s[e..]);
  }

  /** A matched amount, marked, folds back to itself. */
  lemma AmountFolds(s: string, p: nat)
    requires IsHit(MoneyEnd, s, p)
    ensures FoldDollars(MarkMoney(s[p..HitEnd(MoneyEnd, s, p)])) == FoldDollars(s[p..HitEnd(MoneyEnd, s, p)])
  {
    var e := HitEnd(MoneyEnd, s, p);
    assert s[p..e][0] == s[p] == '$';
    MarkFolds(s[p..e]);
  }

  /** The money rewrite and the rewrite back cancel out: all that is left
      is that full-width dollar signs become `$`. */
  lemma MoneyPassFolds(t: string)
    ensures MoneyPass(t) == FoldDollars(t)
  {
    var u := Replace(MoneyEnd, t, MarkMoney);
    RestoreIsFold(u, 0);
    assert u[0..] == u;
    MarkedFold(t, 0);
    assert t[0..] == t;
  }

  /** `preprocessChatGPTResponse(input)`. */
  function PreprocessChatGptResponse(s: string): (r: string) {
    MoneyPass(Protect(s))
  }

  /** The whole clean-up: newlines outside math spans escaped, full-width
      dollar signs written as `$`, nothing else changed. Text with neither
      comes back as it was. */
  lemma PreprocessIs(s: string)
    ensures PreprocessChatGptResponse(s) == FoldDollars(Protect(s))
    ensures forall i :: 0 <= i < |PreprocessChatGptResponse(s)| ==> PreprocessChatGptResponse(s)[i] != FullDollar
    ensures !Contains(s, "\n") && (forall i :: 0 <= i < |s| ==> s[i] != FullDollar) ==> PreprocessChatGptResponse(s) == s
  {
    MoneyPassFolds(Protect(s));
    if !Contains(s, "\n") {
      ProtectNoNewline(s);
    }
  }
}
