/** The leftmost-first scanning loop behind every global regular expression
    in the pipeline. JavaScript's `exec` loop, `split`, `replace` and
    `replaceAll` with a global pattern all look for the earliest position
    where the pattern matches, take that match, and resume the search where
    the match ended; none of the patterns here can match the empty string.

    A pattern is modelled as a `Matcher`: given the whole string and a
    position, the end of the match starting there, if there is one. The
    search itself is written once (`NextHit`) and feeds the two shapes the
    source uses: the gaps of a `split` (`GapSpans`) and the text/match
    pieces of an `exec` loop (`PiecesFrom`). Each shape comes with a
    declarative description (`IsGapList`, `IsPieceList`) that it satisfies
    and that no other list satisfies. */
module Scanner {
  import opened Wrappers
  import opened Strings

  /** Where the match of a pattern that starts at a given position ends. */
  type Matcher = (string, nat) -> Option<nat>

  /** A non-empty match of `m` starts at `p`. */
  predicate IsHit(m: Matcher, s: string, p: nat) {
    p < |s| && m(s, p).Some? && p < m(s, p).value <= |s|
  }

  function HitEnd(m: Matcher, s: string, p: nat): (e: nat)
    requires IsHit(m, s, p)
    ensures p < e <= |s|
  {
    m(s, p).value
  }

  /** No match of `m` starts anywhere in `[lo, hi)`. */
  predicate HitFree(m: Matcher, s: string, lo: nat, hi: nat) {
    forall k :: lo <= k < hi ==> !IsHit(m, s, k)
  }

  /** The earliest position at or after `from` where `m` matches: one call
      of `RegExp.prototype.exec` with `lastIndex == from`. */
  function NextHit(m: Matcher, s: string, from: nat): (r: Option<nat>)
    requires from <= |s|
    decreases |s| - from
    ensures r.Some? ==> from <= r.value && IsHit(m, s, r.value) && HitFree(m, s, from, r.value)
    ensures r.None? ==> HitFree(m, s, from, |s|)
  {
    if from == |s| then None
    else if IsHit(m, s, from) then Some(from)
    else NextHit(m, s, from + 1)
  }

  /** The search result is fixed by the positions where `m` matches. */
  lemma NextHitIs(m: Matcher, s: string, from: nat, p: nat)
    requires from <= p <= |s|
    requires HitFree(m, s, from, p)
    ensures p < |s| && IsHit(m, s, p) ==> NextHit(m, s, from) == Some(p)
    ensures p == |s| ==> NextHit(m, s, from) == None
  {
    var r := NextHit(m, s, from);
    if r.Some? {
      assert r.value >= p;
      if p < |s| && IsHit(m, s, p) {
        assert r.value <= p;
      }
    }
  }

  // ---------------------------------------------------------------------
  // The `split` shape

  /** A slice `[lo, hi)` of the scanned string. */
  datatype Span = Span(lo: nat, hi: nat)

  predicate InBounds(s: string, r: seq<Span>) {
    forall i :: 0 <= i < |r| ==> r[i].lo <= r[i].hi <= |s|
  }

  /** `r` lists the gaps between consecutive leftmost non-overlapping
      matches of `m` in `s[last..]`: the first gap starts at `last`, the
      last one ends at `|s|`, no gap holds the start of a match, and each
      gap but the last is followed by a match that ends where the next gap
      begins. */
  ghost predicate IsGapList(m: Matcher, s: string, last: nat, r: seq<Span>) {
    && |r| >= 1
    && r[0].lo == last
    && r[|r| - 1].hi == |s|
    && InBounds(s, r)
    && (forall i :: 0 <= i < |r| ==> HitFree(m, s, r[i].lo, r[i].hi))
    && (forall i :: 0 <= i < |r| - 1 ==> MatchFollows(m, s, r, i))
  }

  /** Gap `i` is followed by a match that ends where gap `i + 1` begins. */
  ghost predicate MatchFollows(m: Matcher, s: string, r: seq<Span>, i: nat)
    requires i < |r| - 1
  {
    IsHit(m, s, r[i].hi) && HitEnd(m, s, r[i].hi) == r[i + 1].lo
  }

  /** The gaps `split` leaves: `n` matches give `n + 1` gaps, empty ones
      included. */
  function GapSpans(m: Matcher, s: string, last: nat): (r: seq<Span>)
    requires last <= |s|
    decreases |s| - last
    ensures |r| >= 1 && r[0].lo == last && InBounds(s, r)
  {
    match NextHit(m, s, last)
    case None => [Span(last, |s|)]
    case Some(p) =>
      var rest := GapSpans(m, s, HitEnd(m, s, p));
      [Span(last, p)] + rest
  }

  /** `GapSpans` lists the gaps `split` leaves. */
  lemma {:induction false} GapSpansIs(m: Matcher, s: string, last: nat)
    requires last <= |s|
    ensures IsGapList(m, s, last, GapSpans(m, s, last))
    decreases |s| - last
  {
    match NextHit(m, s, last)
    case None =>
    case Some(p) =>
      var e := HitEnd(m, s, p);
      GapSpansIs(m, s, e);
      GapListCons(m, s, last, p, GapSpans(m, s, e));
  }

  /** A gap up to a match, followed by the gap list after that match. */
  lemma GapListCons(m: Matcher, s: string, last: nat, p: nat, rest: seq<Span>)
    requires last <= p && IsHit(m, s, p) && HitFree(m, s, last, p)
    requires IsGapList(m, s, HitEnd(m, s, p), rest)
    ensures IsGapList(m, s, last, [Span(last, p)] + rest)
  {
    var r := [Span(last, p)] + rest;
    forall i | 0 <= i < |r|
      ensures r[i].lo <= r[i].hi <= |s| && HitFree(m, s, r[i].lo, r[i].hi)
    {
      if i > 0 { assert r[i] == rest[i - 1]; }
    }
    forall i | 0 <= i < |r| - 1 ensures MatchFollows(m, s, r, i) {
      if i > 0 {
        assert r[i] == rest[i - 1] && r[i + 1] == rest[i];
        assert MatchFollows(m, s, rest, i - 1);
      } else {
        assert r[1] == rest[0];
      }
    }
  }

  /** Dropping the first gap leaves the gap list of the text after the
      first match. */
  lemma GapListTail(m: Matcher, s: string, last: nat, r: seq<Span>)
    requires IsGapList(m, s, last, r) && |r| > 1
    ensures IsGapList(m, s, r[1].lo, r[1..])
  {
    var rest := r[1..];
    forall i | 0 <= i < |rest| - 1 ensures MatchFollows(m, s, rest, i) {
      assert rest[i] == r[i + 1] && rest[i + 1] == r[i + 2];
      assert MatchFollows(m, s, r, i + 1);
    }
  }

  /** `GapSpans` is the only gap list: the declarative description above
      pins down the leftmost-first split completely. */
  lemma {:induction false} GapListUnique(m: Matcher, s: string, last: nat, r: seq<Span>)
    requires IsGapList(m, s, last, r)
    ensures last <= |s| && r == GapSpans(m, s, last)
    decreases |r|
  {
    if |r| == 1 {
      NextHitIs(m, s, last, |s|);
    } else {
      var p := r[0].hi;
      assert MatchFollows(m, s, r, 0);
      NextHitIs(m, s, last, p);
      var e := HitEnd(m, s, p);
      GapListTail(m, s, last, r);
      GapListUnique(m, s, e, r[1..]);
      assert r == [Span(last, p)] + r[1..];
    }
  }

  /** Spans in order, each within `s`, none overlapping the next. */
  ghost predicate Chained(s: string, r: seq<Span>) {
    && InBounds(s, r)
    && (forall i :: 0 <= i < |r| - 1 ==> InOrder(r, i))
  }

  ghost predicate InOrder(r: seq<Span>, i: nat)
    requires i < |r| - 1
  {
    r[i].hi <= r[i + 1].lo
  }

  lemma GapListChained(m: Matcher, s: string, last: nat, r: seq<Span>)
    requires IsGapList(m, s, last, r)
    ensures Chained(s, r)
  {
    forall i | 0 <= i < |r| - 1 ensures InOrder(r, i) {
      assert MatchFollows(m, s, r, i);
    }
  }

  /** The text of each span. */
  function Slices(s: string, r: seq<Span>): (t: seq<string>)
    requires InBounds(s, r)
    ensures |t| == |r|
  {
    seq(|r|, i requires 0 <= i < |r| => s[r[i].lo..r[i].hi])
  }

  /** The text between consecutive spans. */
  function Between(s: string, r: seq<Span>): (t: seq<string>)
    requires Chained(s, r) && |r| >= 1
    ensures |t| == |r| - 1
  {
    seq(|r| - 1, i requires 0 <= i < |r| - 1 => assert InOrder(r, i); s[r[i].hi..r[i + 1].lo])
  }

  /** Spans and the text between them, woven back together, give back
      everything from the first span's start to the last span's end. */
  lemma {:induction false} ChainRebuild(s: string, r: seq<Span>)
    requires Chained(s, r) && |r| >= 1
    ensures r[0].lo <= r[|r| - 1].hi
    ensures Weave(Slices(s, r), Between(s, r)) == s[r[0].lo..r[|r| - 1].hi]
    decreases |r|
  {
    if |r| > 1 {
      var rest := r[1..];
      forall i | 0 <= i < |rest| - 1 ensures InOrder(rest, i) {
        assert rest[i] == r[i + 1] && rest[i + 1] == r[i + 2];
        assert InOrder(r, i + 1);
      }
      assert InOrder(r, 0);
      ChainRebuild(s, rest);
      var parts := Slices(s, r);
      var seps := Between(s, r);
      assert parts[1..] == Slices(s, rest);
      assert seps[1..] == Between(s, rest);
      var lo, mid, e, hi := r[0].lo, r[0].hi, r[1].lo, r[|r| - 1].hi;
      calc {
        Weave(parts, seps);
        parts[0] + seps[0] + Weave(parts[1..], seps[1..]);
        s[lo..mid] + s[mid..e] + s[e..hi];
        { assert s[lo..mid] + s[mid..e] == s[lo..e]; }
        s[lo..hi];
      }
    }
  }

  /** `s.split(pattern)`: the pieces between leftmost matches. */
  function Split(m: Matcher, s: string): (r: seq<string>)
    ensures |r| >= 1
  {
    Slices(s, GapSpans(m, s, 0))
  }

  /** The matched text `split` drops, one per boundary between pieces. */
  function Separators(m: Matcher, s: string): (r: seq<string>)
    ensures |r| == |Split(m, s)| - 1
  {
    var g := GapSpans(m, s, 0);
    GapSpansIs(m, s, 0);
    GapListChained(m, s, 0, g);
    Between(s, g)
  }

  /** Splitting loses nothing: pieces and separators rebuild the input. */
  lemma SplitRebuild(m: Matcher, s: string)
    ensures Weave(Split(m, s), Separators(m, s)) == s
  {
    var g := GapSpans(m, s, 0);
    GapSpansIs(m, s, 0);
    GapListChained(m, s, 0, g);
    ChainRebuild(s, g);
  }

  /** `s.replace(pattern, f)` with a global pattern, from `last` on: the
      text before the leftmost match is kept, the match is replaced by `f`
      of its text, and the search resumes in the original string where the
      match ended, so replacement text is never searched again. */
  function ReplaceFrom(m: Matcher, s: string, last: nat, f: string -> string): (r: string)
    requires last <= |s|
    decreases |s| - last
  {
    match NextHit(m, s, last)
    case None => s[last..]
    case Some(p) =>
      var e := HitEnd(m, s, p);
      s[last..p] + f(s[p..e]) + ReplaceFrom(m, s, e, f)
  }

  /** `ReplaceFrom` unfolded at a known first hit. */
  lemma ReplaceFromHit(m: Matcher, s: string, last: nat, p: nat, f: string -> string)
    requires last <= |s| && NextHit(m, s, last) == Some(p)
    ensures ReplaceFrom(m, s, last, f) == s[last..p] + f(s[p..HitEnd(m, s, p)]) + ReplaceFrom(m, s, HitEnd(m, s, p), f)
  {
  }

  function Replace(m: Matcher, s: string, f: string -> string): (r: string) {
    ReplaceFrom(m, s, 0, f)
  }

  /** `f` applied to every element. */
  function MapAll(f: string -> string, ss: seq<string>): (r: seq<string>)
    ensures |r| == |ss|
    ensures forall i :: 0 <= i < |ss| ==> r[i] == f(ss[i])
  {
    seq(|ss|, i requires 0 <= i < |ss| => f(ss[i]))
  }

  lemma {:induction false} ReplaceGaps(m: Matcher, s: string, last: nat, f: string -> string)
    requires last <= |s|
    ensures var g := GapSpans(m, s, last);
      Chained(s, g) && ReplaceFrom(m, s, last, f) == Weave(Slices(s, g), MapAll(f, Between(s, g)))
    decreases |s| - last
  {
    var g := GapSpans(m, s, last);
    GapSpansIs(m, s, last);
    GapListChained(m, s, last, g);
    match NextHit(m, s, last)
    case None =>
    case Some(p) =>
      var e := HitEnd(m, s, p);
      var rest := GapSpans(m, s, e);
      assert g == [Span(last, p)] + rest;
      ReplaceGaps(m, s, e, f);
      SlicesCons(s, Span(last, p), rest);
      BetweenCons(s, Span(last, p), rest);
      assert MapAll(f, Between(s, g))[1..] == MapAll(f, Between(s, rest));
  }

  lemma SlicesCons(s: string, x: Span, rest: seq<Span>)
    requires InBounds(s, [x] + rest)
    ensures x.lo <= x.hi <= |s| && InBounds(s, rest)
    ensures Slices(s, [x] + rest) == [s[x.lo..x.hi]] + Slices(s, rest)
  {
    var r := [x] + rest;
    assert r[0] == x;
    assert forall i :: 0 <= i < |rest| ==> rest[i] == r[i + 1];
  }

  lemma ChainedTail(s: string, x: Span, rest: seq<Span>)
    requires Chained(s, [x] + rest) && |rest| >= 1
    ensures Chained(s, rest) && x.hi <= rest[0].lo
  {
    var r := [x] + rest;
    forall i | 0 <= i < |rest| ensures rest[i].lo <= rest[i].hi <= |s| {
      assert rest[i] == r[i + 1];
    }
    forall i | 0 <= i < |rest| - 1 ensures InOrder(rest, i) {
      assert rest[i] == r[i + 1] && rest[i + 1] == r[i + 2];
      assert InOrder(r, i + 1);
    }
    assert InOrder(r, 0);
  }

  lemma BetweenCons(s: string, x: Span, rest: seq<Span>)
    requires Chained(s, [x] + rest) && |rest| >= 1
    ensures Chained(s, rest) && x.hi <= rest[0].lo
    ensures Between(s, [x] + rest) == [s[x.hi..rest[0].lo]] + Between(s, rest)
  {
    ChainedTail(s, x, rest);
    var r := [x] + rest;
    var b := Between(s, rest);
    forall i | 0 <= i < |b| ensures Between(s, r)[i + 1] == b[i] {
      assert InOrder(rest, i);
      assert rest[i] == r[i + 1] && rest[i + 1] == r[i + 2];
    }
  }

  /** The replacing scan agrees with the split: it is the pieces of
      `split`, with `f` of each separator in between. */
  lemma ReplaceSplit(m: Matcher, s: string, f: string -> string)
    ensures Replace(m, s, f) == Weave(Split(m, s), MapAll(f, Separators(m, s)))
  {
    ReplaceGaps(m, s, 0, f);
  }

  /** A replacement that gives every match back unchanged leaves the whole
      string unchanged. */
  lemma {:induction false} ReplaceKeeps(m: Matcher, s: string, last: nat, f: string -> string)
    requires last <= |s|
    requires forall p :: last <= p < |s| && IsHit(m, s, p) ==> f(s[p..HitEnd(m, s, p)]) == s[p..HitEnd(m, s, p)]
    ensures ReplaceFrom(m, s, last, f) == s[last..]
    decreases |s| - last
  {
    match NextHit(m, s, last)
    case None =>
    case Some(p) =>
      var e := HitEnd(m, s, p);
      ReplaceKeeps(m, s, e, f);
      assert s[last..p] + s[p..e] + s[e..] == s[last..];
  }

  /** A match found in a suffix, moved back to the whole string. */
  function ShiftBy(r: Option<nat>, d: nat): Option<nat> {
    match r
    case None => None
    case Some(e) => Some(e + d)
  }

  /** From `d` on, `m` only looks ahead: what it finds at a position of
      `s` is what it finds at the same position of the suffix `s[d..]`.
      Stated position by position from `p` on, so that a proof sees only
      the positions it asks about (`AheadAt`). */
  ghost predicate AgreeFrom(m: Matcher, s: string, d: nat, p: nat)
    requires d <= p
    decreases |s| + 1 - p
  {
    p > |s| || (m(s, p) == ShiftBy(m(s[d..], p - d), d) && AgreeFrom(m, s, d, p + 1))
  }

  ghost predicate LooksAhead(m: Matcher, s: string, d: nat)
    requires d <= |s|
  {
    AgreeFrom(m, s, d, d)
  }

  lemma {:induction false} AgreeAt(m: Matcher, s: string, d: nat, p0: nat, p: nat)
    requires d <= p0 <= p <= |s| && AgreeFrom(m, s, d, p0)
    ensures m(s, p) == ShiftBy(m(s[d..], p - d), d)
    decreases p - p0
  {
    if p0 < p {
      AgreeAt(m, s, d, p0 + 1, p);
    }
  }

  /** What looking ahead says about one position. */
  lemma AheadAt(m: Matcher, s: string, d: nat, p: nat)
    requires d <= p <= |s| && LooksAhead(m, s, d)
    ensures m(s, p) == ShiftBy(m(s[d..], p - d), d)
  {
    AgreeAt(m, s, d, d, p);
  }

  lemma {:induction false} AgreeIntro(m: Matcher, s: string, d: nat, p: nat)
    requires d <= p
    requires forall q :: p <= q <= |s| ==> m(s, q) == ShiftBy(m(s[d..], q - d), d)
    ensures AgreeFrom(m, s, d, p)
    decreases |s| + 1 - p
  {
    if p <= |s| {
      AgreeIntro(m, s, d, p + 1);
    }
  }

  /** Looking ahead, established position by position. */
  lemma AheadIntro(m: Matcher, s: string, d: nat)
    requires d <= |s|
    requires forall q :: d <= q <= |s| ==> m(s, q) == ShiftBy(m(s[d..], q - d), d)
    ensures LooksAhead(m, s, d)
  {
    AgreeIntro(m, s, d, d);
  }

  lemma {:induction false} NextHitAhead(m: Matcher, s: string, d: nat, k: nat)
    requires d + k <= |s| && LooksAhead(m, s, d)
    ensures NextHit(m, s, d + k) == ShiftBy(NextHit(m, s[d..], k), d)
    decreases |s| - k
  {
    AheadAt(m, s, d, d + k);
    if d + k < |s| && !IsHit(m, s, d + k) {
      NextHitAhead(m, s, d, k + 1);
    }
  }

  /** A hit in the suffix is a hit in the whole text, shifted. */
  lemma HitAhead(m: Matcher, s: string, d: nat, q: nat)
    requires d <= |s| && LooksAhead(m, s, d) && IsHit(m, s[d..], q)
    ensures IsHit(m, s, d + q) && HitEnd(m, s, d + q) == d + HitEnd(m, s[d..], q)
  {
    AheadAt(m, s, d, d + q);
  }

  /** Replacing from a point after `d` sees only the suffix `s[d..]`. */
  lemma {:induction false} ReplaceAhead(m: Matcher, s: string, d: nat, k: nat, f: string -> string)
    requires d + k <= |s| && LooksAhead(m, s, d)
    ensures ReplaceFrom(m, s, d + k, f) == ReplaceFrom(m, s[d..], k, f)
    decreases |s| - k
  {
    var t := s[d..];
    NextHitAhead(m, s, d, k);
    match NextHit(m, t, k)
    case None =>
      ReplaceAheadNone(m, s, d, k, f);
    case Some(q) =>
      var e := HitEnd(m, t, q);
      HitAhead(m, s, d, q);
      ReplaceAhead(m, s, d, e, f);
      ReplaceAheadStep(m, s, d, k, q, e, f);
  }

  lemma ReplaceAheadNone(m: Matcher, s: string, d: nat, k: nat, f: string -> string)
    requires d + k <= |s|
    requires NextHit(m, s[d..], k).None? && NextHit(m, s, d + k).None?
    ensures ReplaceFrom(m, s, d + k, f) == ReplaceFrom(m, s[d..], k, f)
  {
    var t := s[d..];
    SliceOfSlice(s, d, |s|, k, |t|);
    assert ReplaceFrom(m, t, k, f) == t[k..];
    assert ReplaceFrom(m, s, d + k, f) == s[d + k..];
  }

  /** One step of `ReplaceAhead`: the same first hit on both sides. */
  lemma ReplaceAheadStep(m: Matcher, s: string, d: nat, k: nat, q: nat, e: nat, f: string -> string)
    requires d + k <= |s| && NextHit(m, s[d..], k) == Some(q) && e == HitEnd(m, s[d..], q)
    requires NextHit(m, s, d + k) == Some(d + q) && HitEnd(m, s, d + q) == d + e
    requires ReplaceFrom(m, s, d + e, f) == ReplaceFrom(m, s[d..], e, f)
    ensures ReplaceFrom(m, s, d + k, f) == ReplaceFrom(m, s[d..], k, f)
  {
    var t := s[d..];
    SuffixSlice(s, d, k, q);
    SuffixSlice(s, d, q, e);
    ReplaceFromHit(m, t, k, q, f);
    ReplaceFromHit(m, s, d + k, d + q, f);
  }

  /** Splitting from a point after `d` sees only the suffix `s[d..]`. */
  lemma {:induction false} SplitAhead(m: Matcher, s: string, d: nat, k: nat)
    requires d + k <= |s| && LooksAhead(m, s, d)
    ensures Slices(s, GapSpans(m, s, d + k)) == Slices(s[d..], GapSpans(m, s[d..], k))
    decreases |s| - k
  {
    var t := s[d..];
    NextHitAhead(m, s, d, k);
    match NextHit(m, t, k)
    case None =>
      SplitAheadNone(m, s, d, k);
    case Some(q) =>
      var e := HitEnd(m, t, q);
      HitAhead(m, s, d, q);
      SplitAhead(m, s, d, e);
      SplitAheadStep(m, s, d, k, q, e);
  }

  lemma SplitAheadNone(m: Matcher, s: string, d: nat, k: nat)
    requires d + k <= |s|
    requires NextHit(m, s[d..], k).None? && NextHit(m, s, d + k).None?
    ensures Slices(s, GapSpans(m, s, d + k)) == Slices(s[d..], GapSpans(m, s[d..], k))
  {
    var t := s[d..];
    SliceOfSlice(s, d, |s|, k, |t|);
    assert GapSpans(m, s, d + k) == [Span(d + k, |s|)];
    assert GapSpans(m, t, k) == [Span(k, |t|)];
    assert t == s[d..|s|];
    assert Slices(s, [Span(d + k, |s|)]) == [s[d + k..|s|]];
    assert Slices(t, [Span(k, |t|)]) == [t[k..|t|]];
  }

  /** One step of `SplitAhead`: the same first hit on both sides. */
  lemma SplitAheadStep(m: Matcher, s: string, d: nat, k: nat, q: nat, e: nat)
    requires d + k <= |s| && NextHit(m, s[d..], k) == Some(q) && e == HitEnd(m, s[d..], q)
    requires NextHit(m, s, d + k) == Some(d + q) && HitEnd(m, s, d + q) == d + e
    requires Slices(s, GapSpans(m, s, d + e)) == Slices(s[d..], GapSpans(m, s[d..], e))
    ensures Slices(s, GapSpans(m, s, d + k)) == Slices(s[d..], GapSpans(m, s[d..], k))
  {
    SuffixSlice(s, d, k, q);
    SlicesHit(m, s, d + k, d + q);
    SlicesHit(m, s[d..], k, q);
  }

  // ---------------------------------------------------------------------
  // Looking behind: a prefix whose matches do not see past its end

  /** Every match that starts inside `a` is the same with `r` appended,
      and ends inside `a`. */
  ghost predicate StaysWithin(m: Matcher, a: string, r: string) {
    forall q: nat :: q < |a| ==> m(a + r, q) == m(a, q) && (m(a, q).Some? ==> m(a, q).value <= |a|)
  }

  /** What staying within says about one position. */
  lemma HitBehind(m: Matcher, a: string, r: string, q: nat)
    requires StaysWithin(m, a, r) && q < |a|
    ensures IsHit(m, a + r, q) <==> IsHit(m, a, q)
    ensures IsHit(m, a, q) ==> HitEnd(m, a + r, q) == HitEnd(m, a, q)
  {
    assert m(a + r, q) == m(a, q);
  }

  /** No match of `a` in `[lo, hi)` means none of `a + r` there either. */
  lemma FreeBehind(m: Matcher, a: string, r: string, lo: nat, hi: nat)
    requires StaysWithin(m, a, r) && hi <= |a| && HitFree(m, a, lo, hi)
    ensures HitFree(m, a + r, lo, hi)
  {
    forall q | lo <= q < hi ensures !IsHit(m, a + r, q) {
      HitBehind(m, a, r, q);
    }
  }

  /** `ReplaceBehind` where `a` has no match left from `k`. */
  lemma ReplaceBehindNone(m: Matcher, a: string, r: string, k: nat, f: string -> string)
    requires k <= |a| && StaysWithin(m, a, r) && NextHit(m, a, k).None?
    ensures ReplaceFrom(m, a + r, k, f) == ReplaceFrom(m, a, k, f) + ReplaceFrom(m, a + r, |a|, f)
  {
    var s := a + r;
    FreeBehind(m, a, r, k, |a|);
    assert ReplaceFrom(m, a, k, f) == a[k..];
    match NextHit(m, s, k)
    case None =>
      NextHitIs(m, s, |a|, |s|);
      assert s[k..] == a[k..] + s[|a|..];
    case Some(q) =>
      NextHitIs(m, s, |a|, q);
      ReplaceFromHit(m, s, k, q, f);
      ReplaceFromHit(m, s, |a|, q, f);
      assert s[k..q] == a[k..] + s[|a|..q];
  }

  /** One step of `ReplaceBehind`: the same first hit on both sides. */
  lemma ReplaceBehindStep(m: Matcher, a: string, r: string, k: nat, p: nat, f: string -> string)
    requires k <= |a| && StaysWithin(m, a, r) && NextHit(m, a, k) == Some(p)
    requires ReplaceFrom(m, a + r, HitEnd(m, a, p), f)
          == ReplaceFrom(m, a, HitEnd(m, a, p), f) + ReplaceFrom(m, a + r, |a|, f)
    ensures ReplaceFrom(m, a + r, k, f) == ReplaceFrom(m, a, k, f) + ReplaceFrom(m, a + r, |a|, f)
  {
    var s := a + r;
    var e := HitEnd(m, a, p);
    FreeBehind(m, a, r, k, p);
    HitBehind(m, a, r, p);
    NextHitIs(m, s, k, p);
    ReplaceFromHit(m, s, k, p, f);
    ReplaceFromHit(m, a, k, p, f);
    assert s[k..p] == a[k..p] && s[p..e] == a[p..e];
  }

  /** Replacing in `a + r` from a point inside `a` handles `a` as if it
      stood alone, then carries on from the start of `r`. */
  lemma {:induction false} ReplaceBehind(m: Matcher, a: string, r: string, k: nat, f: string -> string)
    requires k <= |a| && StaysWithin(m, a, r)
    ensures ReplaceFrom(m, a + r, k, f) == ReplaceFrom(m, a, k, f) + ReplaceFrom(m, a + r, |a|, f)
    decreases |a| - k
  {
    match NextHit(m, a, k)
    case None =>
      ReplaceBehindNone(m, a, r, k, f);
    case Some(p) =>
      ReplaceBehind(m, a, r, HitEnd(m, a, p), f);
      ReplaceBehindStep(m, a, r, k, p, f);
  }

  /** The pieces of a split from a known first hit: the text up to the
      hit, then the pieces after it. */
  lemma SlicesHit(m: Matcher, s: string, last: nat, p: nat)
    requires last <= |s| && NextHit(m, s, last) == Some(p)
    ensures Slices(s, GapSpans(m, s, last)) == [s[last..p]] + Slices(s, GapSpans(m, s, HitEnd(m, s, p)))
  {
    var a := GapSpans(m, s, HitEnd(m, s, p));
    GapSpansHit(m, s, last, p);
    SlicesCons(s, Span(last, p), a);
  }

  /** `GapSpans` unfolded at a known first hit. */
  lemma GapSpansHit(m: Matcher, s: string, last: nat, p: nat)
    requires last <= |s| && NextHit(m, s, last) == Some(p)
    ensures GapSpans(m, s, last) == [Span(last, p)] + GapSpans(m, s, HitEnd(m, s, p))
  {
  }

  /** The split of a string whose first match is at `p`: the text before
      the match, then the split of what follows it. */
  lemma SplitFirst(m: Matcher, s: string, p: nat)
    requires p < |s| && IsHit(m, s, p) && HitFree(m, s, 0, p)
    requires LooksAhead(m, s, HitEnd(m, s, p))
    ensures Split(m, s) == [s[..p]] + Split(m, s[HitEnd(m, s, p)..])
  {
    var e := HitEnd(m, s, p);
    NextHitIs(m, s, 0, p);
    assert GapSpans(m, s, 0) == [Span(0, p)] + GapSpans(m, s, e);
    SlicesCons(s, Span(0, p), GapSpans(m, s, e));
    SplitAhead(m, s, e, 0);
  }

  /** A string where `m` never matches is not split. */
  lemma NoHitSplit(m: Matcher, s: string)
    requires HitFree(m, s, 0, |s|)
    ensures Split(m, s) == [s]
  {
    NextHitIs(m, s, 0, |s|);
    assert GapSpans(m, s, 0) == [Span(0, |s|)];
    assert s[0..|s|] == s;
  }

  /** Facts about the `i`-th piece of a split and the match after it. */
  lemma SplitPiece(m: Matcher, s: string, i: nat)
    requires i < |Split(m, s)|
    ensures var g := GapSpans(m, s, 0);
      && Split(m, s)[i] == s[g[i].lo..g[i].hi]
      && HitFree(m, s, g[i].lo, g[i].hi)
      && (i + 1 < |g| ==> IsHit(m, s, g[i].hi) && Separators(m, s)[i] == s[g[i].hi..HitEnd(m, s, g[i].hi)])
  {
    var g := GapSpans(m, s, 0);
    GapSpansIs(m, s, 0);
    if i + 1 < |g| {
      assert MatchFollows(m, s, g, i);
    }
  }

  // ---------------------------------------------------------------------
  // The `exec` loop shape

  /** A non-empty stretch of unmatched text, or one match. */
  datatype Piece = Gap(lo: nat, hi: nat) | Hit(lo: nat, hi: nat)

  /** `r` tiles `s[last..]` into non-empty pieces: each match is a
      leftmost match of `m` and ends where `m` says, each gap holds no
      match start, and a gap is always followed by a match (gaps are
      maximal). */
  ghost predicate IsPieceList(m: Matcher, s: string, last: nat, r: seq<Piece>) {
    && (|r| == 0 ==> last == |s|)
    && (|r| > 0 ==> r[0].lo == last && r[|r| - 1].hi == |s|)
    && (forall i :: 0 <= i < |r| ==> r[i].lo < r[i].hi <= |s|)
    && (forall i :: 0 <= i < |r| - 1 ==> Abut(r, i))
    && (forall i :: 0 <= i < |r| && r[i].Gap? ==> HitFree(m, s, r[i].lo, r[i].hi))
    && (forall i :: 0 <= i < |r| && r[i].Hit? ==> IsHit(m, s, r[i].lo) && HitEnd(m, s, r[i].lo) == r[i].hi)
  }

  /** Piece `i + 1` starts where piece `i` ends, and two gaps never meet. */
  ghost predicate Abut(r: seq<Piece>, i: nat)
    requires i < |r| - 1
  {
    r[i].hi == r[i + 1].lo && (r[i].Gap? ==> r[i + 1].Hit?)
  }

  /** The `while ((m = re.exec(text)) !== null)` loop: the text before each
      match (when non-empty), the match, and the trailing text (when
      non-empty). */
  function PiecesFrom(m: Matcher, s: string, last: nat): (r: seq<Piece>)
    requires last <= |s|
    decreases |s| - last
    ensures IsPieceList(m, s, last, r)
  {
    match NextHit(m, s, last)
    case None => if last < |s| then [Gap(last, |s|)] else []
    case Some(p) =>
      var e := HitEnd(m, s, p);
      var rest := PiecesFrom(m, s, e);
      PieceListCons(m, s, last, p, rest);
      (if last < p then [Gap(last, p), Hit(p, e)] else [Hit(p, e)]) + rest
  }

  /** The gap before a match (if non-empty), the match, and the pieces
      after it. */
  lemma PieceListCons(m: Matcher, s: string, last: nat, p: nat, rest: seq<Piece>)
    requires last <= p && IsHit(m, s, p) && HitFree(m, s, last, p)
    requires IsPieceList(m, s, HitEnd(m, s, p), rest)
    ensures IsPieceList(m, s, last, (if last < p then [Gap(last, p), Hit(p, HitEnd(m, s, p))] else [Hit(p, HitEnd(m, s, p))]) + rest)
  {
    var e := HitEnd(m, s, p);
    var head := if last < p then [Gap(last, p), Hit(p, e)] else [Hit(p, e)];
    var r := head + rest;
    var h := |head|;
    forall i | 0 <= i < |r|
      ensures r[i].lo < r[i].hi <= |s|
      ensures r[i].Gap? ==> HitFree(m, s, r[i].lo, r[i].hi)
      ensures r[i].Hit? ==> IsHit(m, s, r[i].lo) && HitEnd(m, s, r[i].lo) == r[i].hi
    {
      if i >= h { assert r[i] == rest[i - h]; }
    }
    forall i | 0 <= i < |r| - 1 ensures Abut(r, i) {
      if i >= h {
        assert r[i] == rest[i - h] && r[i + 1] == rest[i + 1 - h];
        assert Abut(rest, i - h);
      } else if i + 1 >= h {
        assert r[i + 1] == rest[0];
      }
    }
  }

  /** Dropping the first `k` pieces leaves the piece list of the rest. */
  lemma PieceListDrop(m: Matcher, s: string, last: nat, r: seq<Piece>, k: nat)
    requires IsPieceList(m, s, last, r) && 0 < k <= |r|
    ensures IsPieceList(m, s, r[k - 1].hi, r[k..])
  {
    var rest := r[k..];
    forall i | 0 <= i < |rest|
      ensures rest[i].lo < rest[i].hi <= |s|
      ensures rest[i].Gap? ==> HitFree(m, s, rest[i].lo, rest[i].hi)
      ensures rest[i].Hit? ==> IsHit(m, s, rest[i].lo) && HitEnd(m, s, rest[i].lo) == rest[i].hi
    {
      assert rest[i] == r[i + k];
    }
    forall i | 0 <= i < |rest| - 1 ensures Abut(rest, i) {
      assert rest[i] == r[i + k] && rest[i + 1] == r[i + 1 + k];
      assert Abut(r, i + k);
    }
    if |rest| > 0 {
      assert Abut(r, k - 1);
    }
  }

  /** `PiecesFrom` is the only piece list of `s[last..]`. */
  lemma {:induction false} PieceListUnique(m: Matcher, s: string, last: nat, r: seq<Piece>)
    requires IsPieceList(m, s, last, r)
    ensures last <= |s| && r == PiecesFrom(m, s, last)
    decreases |r|
  {
    if |r| == 0 {
      NextHitIs(m, s, last, |s|);
    } else if r[0].Hit? {
      NextHitIs(m, s, last, last);
      var e := r[0].hi;
      PieceListDrop(m, s, last, r, 1);
      PieceListUnique(m, s, e, r[1..]);
      assert r == [Hit(last, e)] + r[1..];
    } else if |r| == 1 {
      NextHitIs(m, s, last, |s|);
    } else {
      var p := r[0].hi;
      assert Abut(r, 0);
      NextHitIs(m, s, last, p);
      var e := r[1].hi;
      PieceListDrop(m, s, last, r, 2);
      PieceListUnique(m, s, e, r[2..]);
      assert r == [Gap(last, p), Hit(p, e)] + r[2..];
    }
  }

  /** The text of each piece. */
  function PieceTexts(s: string, r: seq<Piece>): (t: seq<string>)
    requires forall i :: 0 <= i < |r| ==> r[i].lo <= r[i].hi <= |s|
    ensures |t| == |r|
  {
    seq(|r|, i requires 0 <= i < |r| => s[r[i].lo..r[i].hi])
  }

  /** The pieces, in order, spell out the scanned text. */
  lemma {:induction false} PieceListRebuild(m: Matcher, s: string, last: nat, r: seq<Piece>)
    requires IsPieceList(m, s, last, r)
    ensures last <= |s| && Concat(PieceTexts(s, r)) == s[last..]
    decreases |r|
  {
    if |r| > 0 {
      var e := r[0].hi;
      var rest := r[1..];
      PieceListDrop(m, s, last, r, 1);
      PieceListRebuild(m, s, e, rest);
      assert PieceTexts(s, r)[1..] == PieceTexts(s, rest);
      assert s[last..e] + s[e..] == s[last..];
    }
  }
}
