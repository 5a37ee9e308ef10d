/** String primitives shared by every stage: substring search, the
    whitespace trim of JavaScript's `String.prototype.trim`, and the ways
    pieces of a string are put back together. */
module Strings {
  import opened Wrappers

  /** True when `pat` occurs in `s` starting at index `i`. */
  predicate HasAt(s: string, pat: string, i: nat) {
    i + |pat| <= |s| && s[i..i + |pat|] == pat
  }

  /** True when `pat` occurs anywhere in `s`. */
  predicate Contains(s: string, pat: string) {
    exists j | 0 <= j <= |s| :: HasAt(s, pat, j)
  }

  /** The first index at or after `i` where `pat` occurs (JavaScript's
      `indexOf`), which is where a lazy `[\s\S]*?` followed by `pat` stops. */
  function FindFrom(s: string, pat: string, i: nat): (r: Option<nat>)
    decreases |s| - i
    ensures r.Some? ==> i <= r.value && HasAt(s, pat, r.value)
    ensures r.Some? ==> forall j :: i <= j < r.value ==> !HasAt(s, pat, j)
    ensures r.None? ==> forall j :: i <= j ==> !HasAt(s, pat, j)
  {
    if i + |pat| > |s| then None
    else if HasAt(s, pat, i) then Some(i)
    else FindFrom(s, pat, i + 1)
  }

  /** The end of the longest run of characters satisfying `P` that starts
      at `i`: what a greedy character class `[...]*` consumes. */
  function SkipWhile(s: string, i: nat, P: char -> bool): (j: nat)
    requires i <= |s|
    decreases |s| - i
    ensures i <= j <= |s|
    ensures forall k :: i <= k < j ==> P(s[k])
    ensures j == |s| || !P(s[j])
  {
    if i < |s| && P(s[i]) then SkipWhile(s, i + 1, P) else i
  }

  /** The characters `trim()` removes: the ECMAScript WhiteSpace and
      LineTerminator sets (tab, vertical tab, form feed, space, no-break
      space, byte order mark, the Unicode space separators, LF, CR, LS, PS). */
  predicate IsSpace(c: char) {
    || c == '\t' || c == '\n' || c == '\U{0B}' || c == '\U{0C}' || c == '\r'
    || c == ' ' || c == '\U{A0}' || c == '\U{1680}'
    || ('\U{2000}' <= c <= '\U{200A}')
    || c == '\U{2028}' || c == '\U{2029}' || c == '\U{202F}' || c == '\U{205F}'
    || c == '\U{3000}' || c == '\U{FEFF}'
  }

  predicate AllSpace(s: string) {
    forall i :: 0 <= i < |s| ==> IsSpace(s[i])
  }

  /** Neither end of `t` is whitespace. */
  predicate IsTrimmed(t: string) {
    t == [] || (!IsSpace(t[0]) && !IsSpace(t[|t| - 1]))
  }

  /** The start of the longest run of characters satisfying `P` that ends
      at `j` and does not reach below `lo`. */
  function SkipBackWhile(s: string, lo: nat, j: nat, P: char -> bool): (b: nat)
    requires lo <= j <= |s|
    decreases j
    ensures lo <= b <= j
    ensures forall k :: b <= k < j ==> P(s[k])
    ensures b == lo || !P(s[b - 1])
  {
    if j > lo && P(s[j - 1]) then SkipBackWhile(s, lo, j - 1, P) else j
  }

  /** How many leading whitespace characters `trim()` drops. */
  function Lead(s: string): nat {
    SkipWhile(s, 0, IsSpace)
  }

  /** JavaScript's `trim()`: the slice of `s` left once whitespace is
      removed from both ends. */
  function Trim(s: string): (r: string)
    ensures IsTrimmed(r)
    ensures IsTrimmed(s) ==> r == s
  {
    var a := SkipWhile(s, 0, IsSpace);
    var b := SkipBackWhile(s, a, |s|, IsSpace);
    s[a..b]
  }

  /** What `trim()` removes is whitespace, and only whitespace: the result
      is the slice of `s` after its leading whitespace, everything around
      it is whitespace, and it is empty exactly when `s` is all whitespace. */
  lemma TrimSlice(s: string)
    ensures Lead(s) + |Trim(s)| <= |s| && Trim(s) == s[Lead(s)..Lead(s) + |Trim(s)|]
    ensures forall i :: 0 <= i < Lead(s) ==> IsSpace(s[i])
    ensures forall i :: Lead(s) + |Trim(s)| <= i < |s| ==> IsSpace(s[i])
    ensures Trim(s) == [] <==> AllSpace(s)
  {
  }

  /** The pieces of `ss` joined end to end (`Array.prototype.join("")`). */
  function Concat(ss: seq<string>): (r: string)
    decreases |ss|
  {
    if |ss| == 0 then [] else ss[0] + Concat(ss[1..])
  }

  /** `parts[0] + seps[0] + parts[1] + ... + parts[n]`: a string cut into
      parts at `n` separators, put back together. */
  function Weave(parts: seq<string>, seps: seq<string>): (r: string)
    requires |parts| == |seps| + 1
    decreases |seps|
  {
    if |seps| == 0 then parts[0] else parts[0] + seps[0] + Weave(parts[1..], seps[1..])
  }

  /** Weaving two runs of parts joined by one more separator. */
  lemma {:induction false} WeaveAppend(a: seq<string>, sa: seq<string>, x: string, b: seq<string>, sb: seq<string>)
    requires |a| == |sa| + 1 && |b| == |sb| + 1
    ensures Weave(a + b, sa + [x] + sb) == Weave(a, sa) + x + Weave(b, sb)
    decreases |sa|
  {
    if |sa| == 0 {
      assert (a + b)[0] == a[0];
      assert (a + b)[1..] == b;
      assert (sa + [x] + sb)[0] == x;
      assert (sa + [x] + sb)[1..] == sb;
    } else {
      assert (a + b)[1..] == a[1..] + b;
      assert (sa + [x] + sb)[1..] == sa[1..] + [x] + sb;
      WeaveAppend(a[1..], sa[1..], x, b, sb);
    }
  }

  /** Two woven runs put side by side, with nothing between them. */
  lemma WeaveSplice(parts: seq<string>, seps: seq<string>, a: seq<string>, sa: seq<string>, b: seq<string>, sb: seq<string>)
    requires |a| == |sa| + 1 && |b| == |sb| + 1
    requires parts == a + b && seps == sa + [""] + sb
    ensures |parts| == |seps| + 1 && Weave(parts, seps) == Weave(a, sa) + Weave(b, sb)
  {
    WeaveAppend(a, sa, "", b, sb);
    assert Weave(a, sa) + "" == Weave(a, sa);
  }

  /** `Array.prototype.join(sep)` on a non-empty array. */
  function Join(parts: seq<string>, sep: string): (r: string)
    requires |parts| >= 1
  {
    Weave(parts, seq(|parts| - 1, _ => sep))
  }

  /** `s.split("").join(sep)`: `sep` between every two characters of `s`. */
  function Intersperse(s: string, sep: string): (r: string)
    decreases |s|
  {
    if |s| <= 1 then s else [s[0]] + sep + Intersperse(s[1..], sep)
  }

  /** A pattern can only occur where its first character does. */
  lemma HasAtFirst(s: string, pat: string, i: nat)
    requires |pat| > 0 && i < |s| && s[i] != pat[0]
    ensures !HasAt(s, pat, i)
  {
    if i + |pat| <= |s| {
      assert s[i..i + |pat|][0] == s[i];
    }
  }

  /** A character that does not occur as a one-character pattern occurs
      at no index. */
  lemma CharAbsent(s: string, c: char)
    requires !Contains(s, [c])
    ensures forall k :: 0 <= k < |s| ==> s[k] != c
  {
    forall k | 0 <= k < |s| ensures s[k] != c {
      assert s[k..k + 1] == [s[k]];
      assert !HasAt(s, [c], k);
    }
  }

  /** Each character of an occurrence is the pattern's character. */
  lemma HasAtChar(s: string, pat: string, k: nat, i: nat)
    requires HasAt(s, pat, k) && k <= i < k + |pat|
    ensures s[i] == pat[i - k]
  {
    assert s[k..k + |pat|][i - k] == s[i];
  }

  /** A suffix cut in three. */
  lemma SuffixThree(s: string, a: nat, b: nat, c: nat)
    requires a <= b <= c <= |s|
    ensures s[a..] == s[a..b] + s[b..c] + s[c..]
  {
  }

  /** A slice of a slice is a slice of the original. */
  lemma SliceOfSlice(s: string, lo: nat, hi: nat, a: nat, b: nat)
    requires lo <= hi <= |s| && a <= b <= hi - lo
    ensures s[lo..hi][a..b] == s[lo + a..lo + b]
  {
    var u, w := s[lo..hi][a..b], s[lo + a..lo + b];
    forall k | 0 <= k < |u| ensures u[k] == w[k] {
      assert u[k] == s[lo..hi][a + k];
    }
  }

  /** A slice of a suffix is a slice of the whole. */
  lemma SuffixSlice(s: string, d: nat, a: nat, b: nat)
    requires d <= |s| && a <= b <= |s| - d
    ensures s[d..][a..b] == s[d + a..d + b]
  {
    assert s[d..] == s[d..|s|];
    SliceOfSlice(s, d, |s|, a, b);
  }

  /** A match of `pat` inside a slice of `s` is a match in `s` itself. */
  lemma HasAtSlice(s: string, pat: string, lo: nat, hi: nat, j: nat)
    requires lo <= hi <= |s|
    ensures HasAt(s[lo..hi], pat, j) <==> (lo + j + |pat| <= hi && HasAt(s, pat, lo + j))
  {
    if lo + j + |pat| <= hi {
      var u := s[lo..hi][j..j + |pat|];
      var w := s[lo + j..lo + j + |pat|];
      forall k | 0 <= k < |pat| ensures u[k] == w[k] {
        assert u[k] == s[lo + j + k];
      }
      assert u == w;
    }
  }
}
