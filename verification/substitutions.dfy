/** The literal rewrites applied before a text is split: `replaceAll`
    with a fixed string (`\neq` to `≠`, `**` to `^`) and the
    `split(key).join(value)` of each `dynamicText` entry. */
module Substitutions {
  import opened Wrappers
  import opened Strings
  import opened Scanner

  /** A fixed string as a pattern. */
  function Literal(pat: string): Matcher {
    (s: string, p: nat) => if |pat| > 0 && HasAt(s, pat, p) then Some(p + |pat|) else None
  }

  lemma LiteralHit(pat: string, s: string, p: nat)
    requires |pat| > 0
    ensures IsHit(Literal(pat), s, p) <==> HasAt(s, pat, p)
    ensures IsHit(Literal(pat), s, p) ==> HitEnd(Literal(pat), s, p) == p + |pat|
  {
  }

  /** The replacement that ignores what was matched. */
  function Const(rep: string): string -> string {
    _ => rep
  }

  /** Whether a fixed string occurs at a position depends only on the
      text from there on. */
  lemma LiteralAhead(pat: string, s: string, d: nat)
    requires d <= |s|
    ensures LooksAhead(Literal(pat), s, d)
  {
    forall p | d <= p <= |s| ensures Literal(pat)(s, p) == ShiftBy(Literal(pat)(s[d..], p - d), d) {
      HasAtSlice(s, pat, d, |s|, p - d);
      assert s[d..|s|] == s[d..];
    }
    AheadIntro(Literal(pat), s, d);
  }

  /** `s.replaceAll(pat, rep)` for a non-empty fixed `pat`; text
      without `pat` comes back unchanged. */
  function ReplaceAll(s: string, pat: string, rep: string): (r: string)
    requires |pat| > 0
    ensures !Contains(s, pat) ==> r == s
  {
    Replace(Literal(pat), s, Const(rep))
  }

  /** No character of `t` occurs in `pat`. */
  predicate Disjoint(t: string, pat: string) {
    forall i, j :: 0 <= i < |t| && 0 <= j < |pat| ==> t[i] != pat[j]
  }

  /** An occurrence of `pat` in `a + rep + x` lies wholly in `a` or wholly
      in `x` when `rep` is non-empty and shares no character with `pat`. */
  lemma OccurrenceSides(a: string, rep: string, x: string, pat: string, k: nat)
    requires |pat| > 0 && |rep| > 0 && Disjoint(rep, pat) && HasAt(a + rep + x, pat, k)
    ensures (k + |pat| <= |a| && HasAt(a, pat, k)) || (k >= |a| + |rep| && HasAt(x, pat, k - |a| - |rep|))
  {
    var s := a + rep + x;
    var n := |a| + |rep|;
    if k + |pat| <= |a| {
      assert s[k..k + |pat|] == a[k..k + |pat|];
    } else if k >= n {
      assert s[k..k + |pat|] == x[k - n..k - n + |pat|];
    } else {
      var i := if k < |a| then |a| else k;
      HasAtChar(s, pat, k, i);
      assert false;
    }
  }

  /** A replacement that shares no character with the pattern removes
      every occurrence: none is left behind, and none is formed across a
      replaced spot. */
  lemma {:induction false} ReplaceAllRemoves(s: string, pat: string, rep: string, last: nat)
    requires |pat| > 0 && |rep| > 0 && Disjoint(rep, pat) && last <= |s|
    ensures !Contains(ReplaceFrom(Literal(pat), s, last, Const(rep)), pat)
    decreases |s| - last
  {
    var m := Literal(pat);
    match NextHit(m, s, last)
    case None =>
      NoneInGap(s, pat, last, |s|);
      assert ReplaceFrom(m, s, last, Const(rep)) == s[last..] == s[last..|s|];
    case Some(p) =>
      var e := HitEnd(m, s, p);
      var a := s[last..p];
      var x := ReplaceFrom(m, s, e, Const(rep));
      ReplaceAllRemoves(s, pat, rep, e);
      NoneInGap(s, pat, last, p);
      assert ReplaceFrom(m, s, last, Const(rep)) == a + rep + x;
      forall k | 0 <= k <= |a + rep + x| ensures !HasAt(a + rep + x, pat, k) {
        if HasAt(a + rep + x, pat, k) {
          OccurrenceSides(a, rep, x, pat, k);
        }
      }
  }

  /** A replacement that shares no character with `q` forms no new
      occurrence of `q`: a text without `q` is still without it after every
      occurrence of `pat` is replaced. */
  lemma {:induction false} ReplaceKeepsAbsent(s: string, pat: string, rep: string, q: string, last: nat)
    requires |pat| > 0 && |rep| > 0 && |q| > 0 && Disjoint(rep, q) && last <= |s| && !Contains(s, q)
    ensures !Contains(ReplaceFrom(Literal(pat), s, last, Const(rep)), q)
    decreases |s| - last
  {
    var m := Literal(pat);
    match NextHit(m, s, last)
    case None =>
      AbsentInSlice(s, q, last, |s|);
      assert ReplaceFrom(m, s, last, Const(rep)) == s[last..] == s[last..|s|];
    case Some(p) =>
      var e := HitEnd(m, s, p);
      var a := s[last..p];
      var x := ReplaceFrom(m, s, e, Const(rep));
      ReplaceKeepsAbsent(s, pat, rep, q, e);
      AbsentInSlice(s, q, last, p);
      assert ReplaceFrom(m, s, last, Const(rep)) == a + rep + x;
      forall k | 0 <= k <= |a + rep + x| ensures !HasAt(a + rep + x, q, k) {
        if HasAt(a + rep + x, q, k) {
          OccurrenceSides(a, rep, x, q, k);
        }
      }
  }

  /** A slice of a text without `q` is without `q`. */
  lemma AbsentInSlice(s: string, q: string, lo: nat, hi: nat)
    requires lo <= hi <= |s| && !Contains(s, q)
    ensures !Contains(s[lo..hi], q)
  {
    forall j | 0 <= j <= hi - lo ensures !HasAt(s[lo..hi], q, j) {
      HasAtSlice(s, q, lo, hi, j);
    }
  }

  /** A stretch the scan passed over holds no whole occurrence. */
  lemma NoneInGap(s: string, pat: string, lo: nat, hi: nat)
    requires |pat| > 0 && lo <= hi <= |s| && HitFree(Literal(pat), s, lo, hi)
    ensures !Contains(s[lo..hi], pat)
  {
    forall j | 0 <= j <= hi - lo ensures !HasAt(s[lo..hi], pat, j) {
      HasAtSlice(s, pat, lo, hi, j);
      if lo + j < hi {
        LiteralHit(pat, s, lo + j);
      }
    }
  }

  /** `result.split(key).join(value)`: with a non-empty key, the pieces
      between occurrences joined with `value`; with the empty key, `split`
      gives the single characters. A non-empty key that does not occur
      leaves the text as it is. */
  function SplitJoin(s: string, key: string, value: string): (r: string)
    ensures |key| > 0 && !Contains(s, key) ==> r == s
  {
    if key == [] then Intersperse(s, value)
    else Join(Split(Literal(key), s), value)
  }

  /** For a non-empty key, splitting and joining is replacing every
      occurrence. */
  lemma SplitJoinReplaces(s: string, key: string, value: string)
    requires |key| > 0
    ensures SplitJoin(s, key, value) == ReplaceAll(s, key, value)
  {
    var f := Const(value);
    ReplaceSplit(Literal(key), s, f);
    var seps := Separators(Literal(key), s);
    assert MapAll(f, seps) == seq(|Split(Literal(key), s)| - 1, _ => value);
  }

  /** `for (const d in dynamicText) result = result.split(d).join(dynamicText[d])`,
      with the table given as its entries in iteration order. */
  function ApplyDynamicText(s: string, table: seq<(string, string)>): (r: string)
    decreases |table|
  {
    if |table| == 0 then s
    else ApplyDynamicText(SplitJoin(s, table[0].0, table[0].1), table[1..])
  }

  /** Entries apply one after the other, in table order. */
  lemma {:induction false} DynamicTextInOrder(s: string, t1: seq<(string, string)>, t2: seq<(string, string)>)
    ensures ApplyDynamicText(s, t1 + t2) == ApplyDynamicText(ApplyDynamicText(s, t1), t2)
    decreases |t1|
  {
    if |t1| > 0 {
      assert (t1 + t2)[1..] == t1[1..] + t2;
      DynamicTextInOrder(SplitJoin(s, t1[0].0, t1[0].1), t1[1..], t2);
    } else {
      assert t1 + t2 == t2;
    }
  }
}
