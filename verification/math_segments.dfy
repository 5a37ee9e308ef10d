/** The math segmenter of `src/platform-logic/renderText.js`
    (`parseMathSegments`): one line of text becomes a list of plain text,
    inline math and block math segments.

    The segmenter's regular expression has five alternatives, tried in this
    order at each position:

      1. `\(` ... `\)`                 inline, trimmed interior
      2. `$$` ... `$$`                 inline, trimmed interior
      3. `$` (not followed by `$`) then one or more non-`$` then `$`
                                       inline, trimmed interior
      4. `\[` ... `\]`                 block, trimmed interior
      5. `\begin{N}` ... `\end{M}`     block, the whole environment

    Every `...` is a lazy `[\s\S]*?`, so it stops at the first closing
    delimiter. At most one alternative can start at a position: 1, 4 and
    5 start with a backslash and differ in the next character, and 3
    refuses the second `$` that 2 needs. */
module MathSegments {
  import opened Wrappers
  import opened Strings
  import opened Scanner

  datatype Segment = Text(value: string) | Inline(value: string) | Block(value: string)

  datatype Kind = InlineMath | BlockMath

  /** A match of the segmenter's pattern at some position: which kind of
      segment it makes, the slice `[from, to)` its value is trimmed from,
      and the position just past the match. */
  datatype MathMatch = MathMatch(kind: Kind, from: nat, to: nat, end: nat)

  /** `close` occurs at `q`, at or after `from`, and not at any position in
      between: where a lazy `[\s\S]*?` followed by `close` stops. */
  ghost predicate FirstAt(s: string, close: string, from: nat, q: nat) {
    from <= q && HasAt(s, close, q) && forall j :: from <= j < q ==> !HasAt(s, close, j)
  }

  /** `close` does not occur at or after `from`. */
  ghost predicate NoneFrom(s: string, close: string, from: nat) {
    forall j :: from <= j ==> !HasAt(s, close, j)
  }

  /** `open[\s\S]*?close` at `p`: the position of the closing delimiter. */
  function Delimited(s: string, p: nat, open: string, close: string): (r: Option<nat>)
    ensures r.Some? ==> HasAt(s, open, p) && FirstAt(s, close, p + |open|, r.value)
    ensures r.None? ==> !HasAt(s, open, p) || NoneFrom(s, close, p + |open|)
  {
    if HasAt(s, open, p) then FindFrom(s, close, p + |open|) else None
  }

  /** An alternative of the form `open([\s\S]*?)close` whose value is the
      trimmed interior: alternatives 1, 2 and 4. */
  function Enclosed(s: string, p: nat, open: string, close: string, kind: Kind): (r: Option<MathMatch>)
    ensures r.Some? ==> HasAt(s, open, p) && FirstAt(s, close, p + |open|, r.value.to)
                        && r.value == MathMatch(kind, p + |open|, r.value.to, r.value.to + |close|)
    ensures r.None? ==> !HasAt(s, open, p) || NoneFrom(s, close, p + |open|)
  {
    match Delimited(s, p, open, close)
    case None => None
    case Some(q) => Some(MathMatch(kind, p + |open|, q, q + |close|))
  }

  /** Alternative 1, `\\\(([\s\S]*?)\\\)`. */
  function ParenAlt(s: string, p: nat): Option<MathMatch> {
    Enclosed(s, p, "\\(", "\\)", InlineMath)
  }

  /** Alternative 2, `\${2}([\s\S]*?)\${2}`. */
  function DoubleDollarAlt(s: string, p: nat): Option<MathMatch> {
    Enclosed(s, p, "$$", "$$", InlineMath)
  }

  /** Alternative 4, `\\\[([\s\S]*?)\\\]`. */
  function BracketAlt(s: string, p: nat): Option<MathMatch> {
    Enclosed(s, p, "\\[", "\\]", BlockMath)
  }

  /** A `$` at `p` whose next character exists and is not `$`: the opener
      of alternative 3, `\$(?!\$)` followed by at least one character. */
  predicate SingleDollarAt(s: string, p: nat) {
    p + 1 < |s| && s[p] == '$' && s[p + 1] != '$'
  }

  /** Alternative 3, `\$(?!\$)([^$]+)\$`: the run of non-`$` characters
      cannot stretch past a `$`, so the match closes at the next `$`, and
      the value is not empty before trimming. */
  function DollarAlt(s: string, p: nat): (r: Option<MathMatch>)
    ensures r.Some? ==> SingleDollarAt(s, p) && FirstAt(s, "$", p + 1, r.value.to)
                        && r.value == MathMatch(InlineMath, p + 1, r.value.to, r.value.to + 1)
                        && p + 1 < r.value.to
    ensures r.None? ==> !SingleDollarAt(s, p) || NoneFrom(s, "$", p + 1)
  {
    if !SingleDollarAt(s, p) then None
    else
      match FindFrom(s, "$", p + 1)
      case None => None
      case Some(q) =>
        assert q != p + 1 by { assert s[p + 1..p + 2] == [s[p + 1]]; }
        Some(MathMatch(InlineMath, p + 1, q, q + 1))
  }

  /** `[^}]+\}` at `i`: a non-empty run of characters other than `}` and
      the `}` that ends it; the result is the position just past the `}`.
      The run is greedy and cannot contain `}`, so it always stops at the
      first `}`. */
  function NameEnd(s: string, i: nat): (r: Option<nat>)
    ensures r.Some? ==> i + 2 <= r.value <= |s| && s[r.value - 1] == '}'
                        && forall j :: i <= j < r.value - 1 ==> s[j] != '}'
    ensures r.None? ==> i >= |s| || s[i] == '}' || forall j :: i <= j < |s| ==> s[j] != '}'
  {
    if i >= |s| then None
    else
      var k := SkipWhile(s, i, c => c != '}');
      if i < k < |s| then Some(k + 1) else None
  }

  /** `\\end\{[^}]+\}`: a closing environment marker of any name. */
  function EndTag(s: string, q: nat): (r: Option<nat>)
    ensures r.Some? ==> HasAt(s, "\\end{", q) && NameEnd(s, q + 5) == r
    ensures r.None? ==> !HasAt(s, "\\end{", q) || NameEnd(s, q + 5).None?
  {
    if HasAt(s, "\\end{", q) then NameEnd(s, q + 5) else None
  }

  /** Alternative 5, `\\begin\{[^}]+\}[\s\S]*?\\end\{[^}]+\}`: the first
      closing marker after the opening one ends the match whatever the two
      names are, and the value is the whole match. */
  function EnvironmentAlt(s: string, p: nat): (r: Option<MathMatch>)
    ensures r.Some? ==> HasAt(s, "\\begin{", p) && p + 9 < r.value.end <= |s| && s[r.value.end - 1] == '}'
                        && r.value == MathMatch(BlockMath, p, r.value.end, r.value.end)
  {
    if !HasAt(s, "\\begin{", p) then None
    else
      match NameEnd(s, p + 7)
      case None => None
      case Some(k) =>
        match NextHit(EndTag, s, k)
        case None => None
        case Some(q) => Some(MathMatch(BlockMath, p, HitEnd(EndTag, s, q), HitEnd(EndTag, s, q)))
  }

  /** An environment from `p` to `e`: `\begin{` at `p`, a name closed by
      `}` at `k`, and at `q` the first closing marker from `k` on, which
      ends at `e`. */
  ghost predicate EnvironmentSpan(s: string, p: nat, k: nat, q: nat, e: nat) {
    && HasAt(s, "\\begin{", p) && NameEnd(s, p + 7) == Some(k)
    && k <= q && IsHit(EndTag, s, q) && HitFree(EndTag, s, k, q) && HitEnd(EndTag, s, q) == e
  }

  /** Alternative 5 matches exactly the environment spans. */
  lemma EnvironmentAltIff(s: string, p: nat, e: nat)
    ensures EnvironmentAlt(s, p) == Some(MathMatch(BlockMath, p, e, e))
            <==> exists k, q :: EnvironmentSpan(s, p, k, q, e)
  {
    if EnvironmentAlt(s, p) == Some(MathMatch(BlockMath, p, e, e)) {
      var k := NameEnd(s, p + 7).value;
      var q := NextHit(EndTag, s, k).value;
      assert EnvironmentSpan(s, p, k, q, e);
    }
    if exists k, q :: EnvironmentSpan(s, p, k, q, e) {
      var k, q :| EnvironmentSpan(s, p, k, q, e);
      NextHitIs(EndTag, s, k, q);
    }
  }

  /** The whole pattern at `p`: the alternatives in their listed order,
      the first that matches wins. */
  function MatchAt(s: string, p: nat): (r: Option<MathMatch>)
    ensures r.Some? ==> p < r.value.from <= r.value.to < r.value.end <= |s|
                        || (r.value.kind == BlockMath && p == r.value.from < r.value.to == r.value.end <= |s|)
  {
    ParenAlt(s, p).OrElse(DoubleDollarAlt(s, p)).OrElse(DollarAlt(s, p))
      .OrElse(BracketAlt(s, p)).OrElse(EnvironmentAlt(s, p))
  }

  /** The segment a match becomes: inline for an inline match, block for
      a block match, holding the trimmed slice `[from, to)`. */
  function MatchSegment(s: string, mm: MathMatch): (r: Segment)
    requires mm.from <= mm.to <= |s|
    ensures !r.Text? && IsTrimmed(r.value)
    ensures r.Inline? <==> mm.kind == InlineMath
    ensures r.Block? <==> mm.kind == BlockMath
    ensures r.value == Trim(s[mm.from..mm.to])
  {
    var v := Trim(s[mm.from..mm.to]);
    match mm.kind
    case InlineMath => Inline(v)
    case BlockMath => Block(v)
  }

  /** `MatchAt` as a `Matcher` for the scanning loop. */
  function MathEnd(s: string, p: nat): Option<nat> {
    match MatchAt(s, p)
    case None => None
    case Some(mm) => Some(mm.end)
  }

  /** The segment a piece of the scan becomes: unmatched text verbatim, a
      match as its alternative says. */
  function SegmentOf(s: string, pc: Piece): Segment
    requires pc.lo <= pc.hi <= |s|
    requires pc.Hit? ==> IsHit(MathEnd, s, pc.lo)
  {
    match pc
    case Gap(lo, hi) => Text(s[lo..hi])
    case Hit(lo, _) => MatchSegment(s, MatchAt(s, lo).value)
  }

  /** Segment `i` and segment `i + 1` are not both text. */
  predicate Apart(r: seq<Segment>, i: nat)
    requires i < |r| - 1
  {
    !(r[i].Text? && r[i + 1].Text?)
  }

  /** `parseMathSegments(text)`: the pieces of the scan, each turned into
      its segment. Only the empty line has no segments; text segments are
      never empty and math values are trimmed; no two text segments are
      next to each other, since the text between two matches is collected
      into one segment. */
  function ParseMathSegments(s: string): (r: seq<Segment>)
    ensures |r| == |PiecesFrom(MathEnd, s, 0)|
    ensures r == [] <==> s == []
    ensures forall i :: 0 <= i < |r| && r[i].Text? ==> r[i].value != []
    ensures forall i :: 0 <= i < |r| && !r[i].Text? ==> IsTrimmed(r[i].value)
    ensures forall i :: 0 <= i < |r| - 1 ==> Apart(r, i)
  {
    var pcs := PiecesFrom(MathEnd, s, 0);
    assert s != [] ==> pcs[0].lo == 0 < pcs[0].hi;
    SegmentsOfPieces(s, pcs);
    SegmentsOf(s, pcs)
  }

  /** The segments of a list of scan pieces, in order. */
  function SegmentsOf(s: string, pcs: seq<Piece>): (r: seq<Segment>)
    requires IsPieceList(MathEnd, s, 0, pcs)
    ensures |r| == |pcs|
  {
    seq(|pcs|, i requires 0 <= i < |pcs| => SegmentOf(s, pcs[i]))
  }

  /** A gap's text is non-empty, a match's value is trimmed, and a gap is
      always followed by a match. */
  lemma SegmentsOfPieces(s: string, pcs: seq<Piece>)
    requires IsPieceList(MathEnd, s, 0, pcs)
    ensures var r := SegmentsOf(s, pcs);
      && (forall i :: 0 <= i < |r| && r[i].Text? ==> r[i].value != [])
      && (forall i :: 0 <= i < |r| && !r[i].Text? ==> IsTrimmed(r[i].value))
      && (forall i :: 0 <= i < |r| - 1 ==> Apart(r, i))
  {
    var r := SegmentsOf(s, pcs);
    forall i | 0 <= i < |r|
      ensures r[i].Text? ==> r[i].value != []
      ensures !r[i].Text? ==> IsTrimmed(r[i].value)
      ensures r[i].Text? <==> pcs[i].Gap?
    {
    }
    forall i | 0 <= i < |r| - 1 ensures Apart(r, i) {
      assert Abut(pcs, i);
    }
  }

  /** Segment `i` is piece `i` of the scan. */
  lemma SegmentIs(s: string, i: nat)
    requires i < |ParseMathSegments(s)|
    ensures var pc := PiecesFrom(MathEnd, s, 0)[i];
      && pc.lo < pc.hi <= |s|
      && (pc.Gap? ==> ParseMathSegments(s)[i] == Text(s[pc.lo..pc.hi]))
      && (pc.Hit? ==> MatchAt(s, pc.lo).Some? && MatchAt(s, pc.lo).value.end == pc.hi
                      && ParseMathSegments(s)[i] == MatchSegment(s, MatchAt(s, pc.lo).value))
  {
  }

  /** The value of an environment is the whole environment, markers
      included: trimming it changes nothing, since it starts with a
      backslash and ends with a brace. */
  lemma EnvironmentValue(s: string, p: nat)
    requires EnvironmentAlt(s, p).Some?
    ensures var e := EnvironmentAlt(s, p).value.end;
      MatchSegment(s, EnvironmentAlt(s, p).value) == Block(s[p..e])
  {
    var e := EnvironmentAlt(s, p).value.end;
    var body := s[p..e];
    assert body[0] == s[p..p + 7][0] == '\\';
    assert body[|body| - 1] == s[e - 1];
    assert IsTrimmed(body);
  }

  /** Which segment each alternative makes: `\(...\)`, `$$...$$` and
      `$...$` are inline and `\[...\]` is block, each holding its trimmed
      interior between the delimiters; an environment is block and holds
      the whole environment. */
  lemma AlternativeSegment(s: string, p: nat)
    requires MatchAt(s, p).Some?
    ensures var mm := MatchAt(s, p).value;
      && (HasAt(s, "\\(", p) ==> mm.kind == InlineMath && mm.from == p + 2 && mm.end == mm.to + 2)
      && (HasAt(s, "$$", p) ==> mm.kind == InlineMath && mm.from == p + 2 && mm.end == mm.to + 2)
      && (SingleDollarAt(s, p) ==> mm.kind == InlineMath && mm.from == p + 1 && mm.end == mm.to + 1)
      && (HasAt(s, "\\[", p) ==> mm.kind == BlockMath && mm.from == p + 2 && mm.end == mm.to + 2)
      && (HasAt(s, "\\begin{", p) ==> MatchSegment(s, mm) == Block(s[p..mm.end]))
  {
    MatchAtDispatch(s, p);
    if HasAt(s, "\\begin{", p) {
      EnvironmentValue(s, p);
    }
  }

  // ---------------------------------------------------------------------
  // Precedence: which alternative decides the match at a position

  /** The five alternatives open differently: the single-`$` alternative
      refuses a `$` followed by another `$`, so the `$$` and `$` openers
      never both fit. The first characters at `p` therefore pick the one
      alternative that can match there, and the order in which the
      alternatives are tried decides nothing. */
  lemma MatchAtDispatch(s: string, p: nat)
    ensures HasAt(s, "\\(", p) ==> MatchAt(s, p) == ParenAlt(s, p)
    ensures HasAt(s, "$$", p) ==> MatchAt(s, p) == DoubleDollarAlt(s, p)
    ensures SingleDollarAt(s, p) ==> MatchAt(s, p) == DollarAlt(s, p)
    ensures HasAt(s, "\\[", p) ==> MatchAt(s, p) == BracketAlt(s, p)
    ensures HasAt(s, "\\begin{", p) ==> MatchAt(s, p) == EnvironmentAlt(s, p)
    ensures (!HasAt(s, "\\(", p) && !HasAt(s, "$$", p) && !SingleDollarAt(s, p)
             && !HasAt(s, "\\[", p) && !HasAt(s, "\\begin{", p)) ==> MatchAt(s, p).None?
  {
    if p + 1 < |s| {
      OpenersAt(s, p);
    }
  }

  /** What each opener says about the first two characters. */
  lemma OpenersAt(s: string, p: nat)
    requires p + 1 < |s|
    ensures HasAt(s, "\\(", p) <==> s[p] == '\\' && s[p + 1] == '('
    ensures HasAt(s, "$$", p) <==> s[p] == '$' && s[p + 1] == '$'
    ensures HasAt(s, "\\[", p) <==> s[p] == '\\' && s[p + 1] == '['
    ensures HasAt(s, "\\begin{", p) ==> s[p] == '\\' && s[p + 1] == 'b'
  {
    assert s[p..p + 2] == [s[p], s[p + 1]];
    if HasAt(s, "\\begin{", p) {
      assert s[p..p + 7][0] == s[p] && s[p..p + 7][1] == s[p + 1];
    }
  }

  // ---------------------------------------------------------------------
  // Atomicity: a matched span, cut out on its own, is one segment

  lemma FirstAtUnique(s: string, close: string, from: nat, q: nat, q': nat)
    requires FirstAt(s, close, from, q) && FirstAt(s, close, from, q')
    ensures q == q'
  {
  }

  /** The lazy search finds a closing delimiter in a slice exactly where it
      finds it in the whole string, as long as the delimiter lies inside the
      slice. */
  lemma FirstAtSlice(s: string, close: string, lo: nat, hi: nat, from: nat, q: nat)
    requires lo <= from && q + |close| <= hi <= |s|
    requires FirstAt(s, close, from, q)
    ensures FirstAt(s[lo..hi], close, from - lo, q - lo)
  {
    HasAtSlice(s, close, lo, hi, q - lo);
    forall j | from - lo <= j < q - lo ensures !HasAt(s[lo..hi], close, j) {
      HasAtSlice(s, close, lo, hi, j);
    }
  }

  /** `NameEnd` is fixed by where the first `}` is. */
  lemma NameEndIs(s: string, i: nat, v: nat)
    requires i + 2 <= v <= |s| && s[v - 1] == '}'
    requires forall j :: i <= j < v - 1 ==> s[j] != '}'
    ensures NameEnd(s, i) == Some(v)
  {
  }

  /** A name run inside a slice is a name run of the whole string, and a
      name run of the whole string that ends inside the slice is one of the
      slice. */
  lemma NameEndSlice(s: string, lo: nat, hi: nat, i: nat)
    requires lo <= hi <= |s|
    ensures NameEnd(s[lo..hi], i).Some? ==> NameEnd(s, lo + i) == Some(lo + NameEnd(s[lo..hi], i).value)
    ensures NameEnd(s, lo + i).Some? && NameEnd(s, lo + i).value <= hi
            ==> NameEnd(s[lo..hi], i) == Some(NameEnd(s, lo + i).value - lo)
  {
    var t := s[lo..hi];
    if NameEnd(t, i).Some? {
      var v := NameEnd(t, i).value;
      assert t[v - 1] == s[lo + v - 1];
      forall j | lo + i <= j < lo + v - 1 ensures s[j] != '}' {
        assert t[j - lo] == s[j];
      }
      NameEndIs(s, lo + i, lo + v);
    }
    if NameEnd(s, lo + i).Some? && NameEnd(s, lo + i).value <= hi {
      var w := NameEnd(s, lo + i).value;
      assert t[w - lo - 1] == s[w - 1];
      forall j | i <= j < w - lo - 1 ensures t[j] != '}' {
        assert t[j] == s[lo + j];
      }
      NameEndIs(t, i, w - lo);
    }
  }

  /** `EndTag` on a slice agrees with `EndTag` on the whole string. */
  lemma EndTagSlice(s: string, lo: nat, hi: nat, j: nat)
    requires lo <= hi <= |s|
    ensures EndTag(s[lo..hi], j).Some? ==> EndTag(s, lo + j) == Some(lo + EndTag(s[lo..hi], j).value)
    ensures EndTag(s, lo + j).Some? && EndTag(s, lo + j).value <= hi
            ==> EndTag(s[lo..hi], j) == Some(EndTag(s, lo + j).value - lo)
  {
    HasAtSlice(s, "\\end{", lo, hi, j);
    NameEndSlice(s, lo, hi, j + 5);
  }

  lemma DelimitedSlice(s: string, p: nat, e: nat, open: string, close: string)
    requires p <= e <= |s|
    requires Delimited(s, p, open, close).Some?
    requires Delimited(s, p, open, close).value + |close| <= e
    ensures Delimited(s[p..e], 0, open, close) == Some(Delimited(s, p, open, close).value - p)
  {
    var q := Delimited(s, p, open, close).value;
    var t := s[p..e];
    HasAtSlice(s, open, p, e, 0);
    FirstAtSlice(s, close, p, e, p + |open|, q);
    var r := Delimited(t, 0, open, close);
    if r.Some? {
      FirstAtUnique(t, close, |open|, r.value, q - p);
    } else {
      assert HasAt(t, close, q - p);
    }
  }

  /** The search for the closing `\end{...}` finds the same marker in a
      slice that ends with it. */
  lemma EndSearchSlice(s: string, p: nat, k: nat, q: nat, e: nat)
    requires p <= k <= q && IsHit(EndTag, s, q) && HitFree(EndTag, s, k, q)
    requires e == HitEnd(EndTag, s, q)
    ensures IsHit(EndTag, s[p..e], q - p) && HitEnd(EndTag, s[p..e], q - p) == e - p
    ensures NextHit(EndTag, s[p..e], k - p) == Some(q - p)
  {
    var t := s[p..e];
    EndTagSlice(s, p, e, q - p);
    forall j | k - p <= j < q - p ensures !IsHit(EndTag, t, j) {
      EndTagSlice(s, p, e, j);
      assert !IsHit(EndTag, s, p + j);
    }
    NextHitIs(EndTag, t, k - p, q - p);
  }

  /** A match moved `d` positions to the left. */
  function Shift(mm: MathMatch, d: nat): MathMatch
    requires d <= mm.from <= mm.to <= mm.end
  {
    MathMatch(mm.kind, mm.from - d, mm.to - d, mm.end - d)
  }

  lemma EnclosedSlice(s: string, p: nat, open: string, close: string, kind: Kind)
    requires Enclosed(s, p, open, close, kind).Some?
    ensures var mm := Enclosed(s, p, open, close, kind).value;
      && p <= mm.from && mm.end <= |s|
      && Enclosed(s[p..mm.end], 0, open, close, kind) == Some(Shift(mm, p))
  {
    var q := Delimited(s, p, open, close).value;
    DelimitedSlice(s, p, q + |close|, open, close);
  }

  lemma DollarAltSlice(s: string, p: nat)
    requires DollarAlt(s, p).Some?
    ensures var mm := DollarAlt(s, p).value;
      && p <= mm.from && mm.end <= |s|
      && DollarAlt(s[p..mm.end], 0) == Some(Shift(mm, p))
  {
    var e := DollarAlt(s, p).value.end;
    var t := s[p..e];
    assert t[0] == s[p] && t[1] == s[p + 1];
    FirstAtSlice(s, "$", p, e, p + 1, e - 1);
    var r := FindFrom(t, "$", 1);
    if r.Some? {
      FirstAtUnique(t, "$", 1, r.value, e - 1 - p);
    }
  }

  /** Alternative 5, cut out of its string, matches the same way on its
      own. */
  lemma EnvironmentAltSlice(s: string, p: nat)
    requires EnvironmentAlt(s, p).Some?
    ensures var mm := EnvironmentAlt(s, p).value;
      && p <= mm.from && mm.end <= |s|
      && EnvironmentAlt(s[p..mm.end], 0) == Some(Shift(mm, p))
  {
    var k, q, e := EnvironmentParts(s, p);
    EnvironmentPartsSlice(s, p, k, q, e);
    EnvironmentAltStart(s[p..e], p, k, q, e);
    assert EnvironmentAlt(s, p).value == MathMatch(BlockMath, p, e, e);
  }

  /** The parts of a match of alternative 5. */
  lemma EnvironmentParts(s: string, p: nat) returns (k: nat, q: nat, e: nat)
    requires EnvironmentAlt(s, p).Some?
    ensures HasAt(s, "\\begin{", p) && NameEnd(s, p + 7) == Some(k)
    ensures p + 7 <= k <= q && IsHit(EndTag, s, q) && HitFree(EndTag, s, k, q) && HitEnd(EndTag, s, q) == e
    ensures EnvironmentAlt(s, p) == Some(MathMatch(BlockMath, p, e, e))
  {
    k := NameEnd(s, p + 7).value;
    q := NextHit(EndTag, s, k).value;
    e := HitEnd(EndTag, s, q);
  }

  /** The parts of alternative 5 carry over to the slice that the match
      covers. */
  lemma EnvironmentPartsSlice(s: string, p: nat, k: nat, q: nat, e: nat)
    requires HasAt(s, "\\begin{", p) && NameEnd(s, p + 7) == Some(k)
    requires p + 7 <= k <= q && IsHit(EndTag, s, q) && HitFree(EndTag, s, k, q) && HitEnd(EndTag, s, q) == e
    ensures p + 9 < e <= |s| && p + 7 <= k <= q && EnvironmentAtStart(s[p..e], k - p, q - p, e - p)
  {
    BeginSlice(s, p, e);
    NameSlice(s, p, k, e);
    EndSearchSlice(s, p, k, q, e);
  }

  lemma BeginSlice(s: string, p: nat, e: nat)
    requires HasAt(s, "\\begin{", p) && p + 7 <= e <= |s|
    ensures HasAt(s[p..e], "\\begin{", 0)
  {
    HasAtSlice(s, "\\begin{", p, e, 0);
  }

  lemma NameSlice(s: string, p: nat, k: nat, e: nat)
    requires NameEnd(s, p + 7) == Some(k) && k <= e <= |s|
    ensures NameEnd(s[p..e], 7) == Some(k - p)
  {
    NameEndSlice(s, p, e, 7);
  }

  /** Alternative 5 at the start of `t` ends at `e`: `\begin{` and a
      name closed at `k`, then the first closing marker, at `q`. */
  ghost predicate EnvironmentAtStart(t: string, k: nat, q: nat, e: nat) {
    && HasAt(t, "\\begin{", 0) && NameEnd(t, 7) == Some(k)
    && k <= |t| && NextHit(EndTag, t, k) == Some(q) && HitEnd(EndTag, t, q) == e
  }

  /** Alternative 5 at the start of a string, from its parts given as
      positions in a larger string where the string starts at `p`. */
  lemma EnvironmentAltStart(t: string, p: nat, k: nat, q: nat, e: nat)
    requires p + 7 <= k <= q && p + 9 < e && EnvironmentAtStart(t, k - p, q - p, e - p)
    ensures EnvironmentAlt(t, 0) == Some(Shift(MathMatch(BlockMath, p, e, e), p))
  {
    EnvironmentAltFrom(t, k - p, q - p, e - p);
  }

  /** Alternative 5 at the start of a string, from its parts. */
  lemma EnvironmentAltFrom(t: string, k: nat, q: nat, e: nat)
    requires EnvironmentAtStart(t, k, q, e)
    ensures EnvironmentAlt(t, 0) == Some(MathMatch(BlockMath, 0, e, e))
  {
  }

  /** A match, cut out of its string, matches the same way on its own. */
  lemma MatchAtSlice(s: string, p: nat)
    requires MatchAt(s, p).Some?
    ensures var mm := MatchAt(s, p).value;
      && p <= mm.from && mm.end <= |s|
      && MatchAt(s[p..mm.end], 0) == Some(Shift(mm, p))
  {
    var e := MatchAt(s, p).value.end;
    var t := s[p..e];
    MatchAtDispatch(s, p);
    MatchAtDispatch(t, 0);
    OpenersAt(s, p);
    OpenersAt(t, 0);
    assert t[0] == s[p] && t[1] == s[p + 1];
    if HasAt(s, "\\(", p) {
      EnclosedSlice(s, p, "\\(", "\\)", InlineMath);
    } else if HasAt(s, "$$", p) {
      EnclosedSlice(s, p, "$$", "$$", InlineMath);
    } else if SingleDollarAt(s, p) {
      DollarAltSlice(s, p);
    } else if HasAt(s, "\\[", p) {
      EnclosedSlice(s, p, "\\[", "\\]", BlockMath);
    } else {
      HasAtSlice(s, "\\begin{", p, e, 0);
      EnvironmentAltSlice(s, p);
    }
  }

  /** The segment of a match does not depend on the text around it. */
  lemma MatchSegmentSlice(s: string, p: nat, mm: MathMatch)
    requires p <= mm.from <= mm.to <= mm.end <= |s|
    ensures MatchSegment(s[p..mm.end], Shift(mm, p)) == MatchSegment(s, mm)
  {
    SliceOfSlice(s, p, mm.end, mm.from - p, mm.to - p);
    MatchSegmentSame(s[p..mm.end], Shift(mm, p), s, mm);
  }

  /** The segment of a match depends only on its kind and matched text. */
  lemma MatchSegmentSame(t: string, nn: MathMatch, s: string, mm: MathMatch)
    requires nn.from <= nn.to <= |t| && mm.from <= mm.to <= |s|
    requires nn.kind == mm.kind && t[nn.from..nn.to] == s[mm.from..mm.to]
    ensures MatchSegment(t, nn) == MatchSegment(s, mm)
  {
  }

  /** A string that is one match from start to end parses as that one
      segment. */
  lemma ParseWholeMatch(t: string, mm: MathMatch)
    requires MatchAt(t, 0) == Some(mm) && mm.end == |t|
    ensures ParseMathSegments(t) == [MatchSegment(t, mm)]
  {
    NextHitIs(MathEnd, t, 0, 0);
    NextHitIs(MathEnd, t, |t|, |t|);
    assert PiecesFrom(MathEnd, t, |t|) == [];
    assert PiecesFrom(MathEnd, t, 0) == [Hit(0, |t|)];
  }

  /** A line that is one whole match, whose matched text needs no
      trimming, is that one segment. */
  lemma ParseWholeSegment(t: string, mm: MathMatch, v: string)
    requires MatchAt(t, 0) == Some(mm) && mm.end == |t| && mm.from <= mm.to <= |t|
    requires t[mm.from..mm.to] == v && IsTrimmed(v)
    ensures ParseMathSegments(t) == [if mm.kind == InlineMath then Inline(v) else Block(v)]
  {
    ParseWholeMatch(t, mm);
  }

  // ---------------------------------------------------------------------
  // Reconstruction

  /** The source text of each segment: the slice of the line it came from. */
  function Sources(s: string): (r: seq<string>)
    ensures |r| == |ParseMathSegments(s)|
  {
    var pcs := PiecesFrom(MathEnd, s, 0);
    PieceTexts(s, pcs)
  }

  /** The sources spell out the line in order. */
  lemma ParseRebuild(s: string)
    ensures Concat(Sources(s)) == s
  {
    PieceListRebuild(MathEnd, s, 0, PiecesFrom(MathEnd, s, 0));
  }

  /** Segment `i` against its source: a text segment is exactly its
      source, untrimmed; a math segment's source is one whole match and on
      its own parses back to that same segment. */
  predicate SourceOf(s: string, i: nat)
    requires i < |Sources(s)|
  {
    var r := ParseMathSegments(s);
    && (r[i].Text? ==> r[i].value == Sources(s)[i])
    && (!r[i].Text? ==> ParseMathSegments(Sources(s)[i]) == [r[i]])
  }

  lemma SourcesParse(s: string)
    ensures forall i :: 0 <= i < |Sources(s)| ==> SourceOf(s, i)
  {
    forall i | 0 <= i < |Sources(s)| ensures SourceOf(s, i) {
      SourceIs(s, i);
    }
  }

  lemma SourceIs(s: string, i: nat)
    requires i < |Sources(s)|
    ensures SourceOf(s, i)
  {
    SegmentIs(s, i);
    var pc := PiecesFrom(MathEnd, s, 0)[i];
    if pc.Hit? {
      var mm := MatchAt(s, pc.lo).value;
      MatchAtSlice(s, pc.lo);
      MatchSegmentSlice(s, pc.lo, mm);
      ParseWholeMatch(s[pc.lo..pc.hi], Shift(mm, pc.lo));
    }
  }

  // ---------------------------------------------------------------------
  // Worked examples

  /** `$$x^2$$` is one inline segment: the single-`$` alternative refuses
      a `$` followed by another `$`, so only the `$$` one fits. */
  lemma DoubleDollarExample()
    ensures ParseMathSegments("$$x^2$$") == [Inline("x^2")]
  {
    DoubleDollarMatch();
    XSquared();
    ParseWholeSegment("$$x^2$$", MathMatch(InlineMath, 2, 5, 7), "x^2");
  }

  lemma XSquared()
    ensures "$$x^2$$"[2..5] == "x^2" && IsTrimmed("x^2")
  {
  }

  /** The first alternative that fits `$$x^2$$` is the `$$` one. */
  lemma DoubleDollarMatch()
    ensures MatchAt("$$x^2$$", 0) == Some(MathMatch(InlineMath, 2, 5, 7))
  {
    var s := "$$x^2$$";
    assert HasAt(s, "$$", 0);
    HasAtFirst(s, "$$", 2);
    HasAtFirst(s, "$$", 3);
    HasAtFirst(s, "$$", 4);
    assert HasAt(s, "$$", 5);
    assert FindFrom(s, "$$", 2) == Some(5);
    MatchAtDispatch(s, 0);
  }

  /** Only a backslash or a dollar sign can start a match. */
  lemma MatchStart(s: string, p: nat)
    ensures MatchAt(s, p).Some? ==> p < |s| && (s[p] == '\\' || s[p] == '$')
  {
    if MatchAt(s, p).Some? {
      MatchAtDispatch(s, p);
      if p + 1 < |s| {
        OpenersAt(s, p);
      }
    }
  }

  /** The opening `\begin{a}` and the closing `\end{b}` need not agree:
      the whole environment is one block segment. */
  lemma EnvironmentExample()
    ensures ParseMathSegments("\\begin{a}x\\end{b}") == [Block("\\begin{a}x\\end{b}")]
  {
    var s := "\\begin{a}x\\end{b}";
    EnvironmentMatch();
    EnvironmentWhole();
    ParseWholeSegment(s, MathMatch(BlockMath, 0, 17, 17), s);
  }

  lemma EnvironmentMatch()
    ensures MatchAt("\\begin{a}x\\end{b}", 0) == Some(MathMatch(BlockMath, 0, 17, 17))
  {
    var s := "\\begin{a}x\\end{b}";
    assert HasAt(s, "\\begin{", 0);
    NameEndIs(s, 7, 9);
    HasAtFirst(s, "\\end{", 9);
    assert HasAt(s, "\\end{", 10);
    NameEndIs(s, 15, 17);
    NextHitIs(EndTag, s, 9, 10);
    MatchAtDispatch(s, 0);
  }

  lemma EnvironmentWhole()
    ensures var s := "\\begin{a}x\\end{b}"; s[0..17] == s && IsTrimmed(s)
  {
    var s := "\\begin{a}x\\end{b}";
    assert s[0..17] == s;
    assert s[0] == '\\' && s[16] == '}';
  }

  /** A dollar amount is not protected: in `$5 and $x$` the first two
      dollars pair up, and the last one stays in the text. */
  lemma DollarAmountExample()
    ensures ParseMathSegments("$5 and $x$") == [Inline("5 and"), Text("x$")]
  {
    var s := "$5 and $x$";
    DollarAmountPieces();
    var r := ParseMathSegments(s);
    SegmentIs(s, 0);
    SegmentIs(s, 1);
    DollarAmountSlices();
    TrimExample();
    assert r[0] == MatchSegment(s, MathMatch(InlineMath, 1, 7, 8)) == Inline("5 and");
    assert r[1] == Text("x$");
  }

  lemma DollarAmountSlices()
    ensures "$5 and $x$"[1..7] == "5 and "
    ensures "$5 and $x$"[8..10] == "x$"
  {
  }

  lemma TrimExample()
    ensures Trim("5 and ") == "5 and"
  {
    var s := "5 and ";
    assert SkipWhile(s, 0, IsSpace) == 0;
    assert SkipBackWhile(s, 0, 5, IsSpace) == 5;
    assert SkipBackWhile(s, 0, 6, IsSpace) == 5;
  }

  lemma DollarAmountPieces()
    ensures PiecesFrom(MathEnd, "$5 and $x$", 0) == [Hit(0, 8), Gap(8, 10)]
    ensures MatchAt("$5 and $x$", 0) == Some(MathMatch(InlineMath, 1, 7, 8))
  {
    var s := "$5 and $x$";
    DollarAmountMatch();
    MatchStart(s, 8);
    MatchAtDispatch(s, 9);
    NextHitIs(MathEnd, s, 0, 0);
    NextHitIs(MathEnd, s, 8, 10);
    assert PiecesFrom(MathEnd, s, 8) == [Gap(8, 10)];
  }

  lemma DollarAmountMatch()
    ensures MatchAt("$5 and $x$", 0) == Some(MathMatch(InlineMath, 1, 7, 8))
  {
    var s := "$5 and $x$";
    HasAtFirst(s, "$", 1);
    HasAtFirst(s, "$", 2);
    HasAtFirst(s, "$", 3);
    HasAtFirst(s, "$", 4);
    HasAtFirst(s, "$", 5);
    HasAtFirst(s, "$", 6);
    assert HasAt(s, "$", 7);
    assert FindFrom(s, "$", 1) == Some(7);
    MatchAtDispatch(s, 0);
  }
}
