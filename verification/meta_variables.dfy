/** Meta-variable substitution (`parseForMetaVariables`): every reference
    `%{name}` whose name the mapper knows is replaced by the value it
    computes from the render context; every other reference is kept as it
    is. The only name the mapper knows is `oats_user_id`. */
module MetaVariables {
  import opened Wrappers
  import opened Strings
  import opened Scanner

  /** What the mapper may read. */
  datatype Context = Context(userID: string)

  /** A character allowed in a reference name: anything but `{`, `}`, `%`
      and `"`. */
  predicate NameChar(c: char) {
    c != '{' && c != '}' && c != '%' && c != '"'
  }

  /** `t` is a whole reference `%{name}` with a non-empty name of allowed
      characters. */
  predicate IsReference(t: string) {
    && |t| >= 4
    && t[0] == '%' && t[1] == '{' && t[|t| - 1] == '}'
    && forall k :: 2 <= k < |t| - 1 ==> NameChar(t[k])
  }

  /** The name inside a reference. */
  function RefName(t: string): string
    requires IsReference(t)
  {
    t[2..|t| - 1]
  }

  /** `/%\{([^{}%"]+)}/`: the end of the reference starting at `p`. The
      greedy name run stops at the first character that is not allowed,
      and backing off cannot help, because the character after a shorter
      run is an allowed one and so not `}`. */
  function MetaEnd(s: string, p: nat): (r: Option<nat>)
    ensures r.Some? ==> p < r.value <= |s| && IsReference(s[p..r.value])
    ensures r.None? ==> forall e :: p <= e <= |s| ==> !IsReference(s[p..e])
  {
    if p + 2 <= |s| && s[p] == '%' && s[p + 1] == '{' then
      var j := SkipWhile(s, p + 2, NameChar);
      if p + 2 < j < |s| && s[j] == '}' then Some(j + 1) else None
    else None
  }

  /** At most one reference starts at a position. */
  lemma ReferenceUnique(s: string, p: nat, e: nat)
    requires p <= e <= |s| && IsReference(s[p..e])
    ensures MetaEnd(s, p) == Some(e)
  {
    var t := s[p..e];
    assert s[p] == t[0] && s[p + 1] == t[1];
    var j := SkipWhile(s, p + 2, NameChar);
    assert s[e - 1] == t[|t| - 1];
    forall k | p + 2 <= k < e - 1 ensures NameChar(s[k]) {
      assert s[k] == t[k - p];
    }
    assert j == e - 1;
  }

  /** The mapper: the value a known name stands for. */
  function Lookup(name: string, ctx: Context): (r: Option<string>)
    ensures r.Some? <==> name == "oats_user_id"
    ensures r.Some? ==> r.value == ctx.userID
  {
    if name == "oats_user_id" then Some(ctx.userID) else None
  }

  /** The replacement for one matched reference. */
  function Substitute(ctx: Context): (f: string -> string) {
    t =>
      if IsReference(t) then
        match Lookup(RefName(t), ctx)
        case Some(v) => v
        case None => t
      else t
  }

  /** `parseForMetaVariables(str, context)`. */
  function ParseForMetaVariables(s: string, ctx: Context): (r: string) {
    Replace(MetaEnd, s, Substitute(ctx))
  }

  /** Text without a reference to a known name comes back unchanged:
      unknown names, malformed references and stray `%` are all kept. */
  lemma UnknownKept(s: string, ctx: Context)
    requires forall p, e :: 0 <= p <= e <= |s| && IsReference(s[p..e]) ==> RefName(s[p..e]) != "oats_user_id"
    ensures ParseForMetaVariables(s, ctx) == s
  {
    forall p | 0 <= p < |s| && IsHit(MetaEnd, s, p)
      ensures Substitute(ctx)(s[p..HitEnd(MetaEnd, s, p)]) == s[p..HitEnd(MetaEnd, s, p)]
    {
    }
    ReplaceKeeps(MetaEnd, s, 0, Substitute(ctx));
  }

  /** The user-id reference on its own becomes the user id. */
  lemma UserIdReplaced(ctx: Context)
    ensures ParseForMetaVariables("%{oats_user_id}", ctx) == ctx.userID
  {
    var s := "%{oats_user_id}";
    ReferenceUnique(s, 0, |s|);
    NextHitIs(MetaEnd, s, 0, 0);
    NextHitIs(MetaEnd, s, |s|, |s|);
    assert s[0..|s|] == s;
    UserIdName();
  }

  lemma UserIdName()
    ensures IsReference("%{oats_user_id}") && RefName("%{oats_user_id}") == "oats_user_id"
  {
    var t := "%{oats_user_id}";
    assert t[2..|t| - 1] == "oats_user_id";
  }

  /** Whether a reference starts at a position depends only on the text
      from that position on. */
  lemma MetaEndAhead(s: string, d: nat)
    requires d <= |s|
    ensures LooksAhead(MetaEnd, s, d)
  {
    var t := s[d..];
    forall p | d <= p <= |s| ensures MetaEnd(s, p) == ShiftBy(MetaEnd(t, p - d), d) {
      var q := p - d;
      match MetaEnd(t, q)
      case Some(e) =>
        SliceOfSlice(s, d, |s|, q, e);
        ReferenceUnique(s, p, e + d);
      case None =>
    }
    AheadIntro(MetaEnd, s, d);
  }

  /** A reference that starts inside `a` ends inside `a` when `a` is
      followed by a `%`: a name cannot run into the `%`, and the `%` does
      not close the reference. So such a match does not see what follows. */
  lemma MetaEndBefore(a: string, r: string, p: nat)
    requires p < |a| && 0 < |r| && r[0] == '%'
    ensures MetaEnd(a + r, p) == MetaEnd(a, p)
  {
    var s := a + r;
    assert !NameChar(s[|a|]);
    if p + 2 <= |a| && a[p] == '%' && a[p + 1] == '{' {
      var js := SkipWhile(s, p + 2, NameChar);
      var ja := SkipWhile(a, p + 2, NameChar);
      assert forall k :: p + 2 <= k < |a| ==> s[k] == a[k];
      assert js == ja;
    }
  }

  /** Before a `%`, every reference ends where the text before it ends. */
  lemma MetaWithin(a: string, r: string)
    requires 0 < |r| && r[0] == '%'
    ensures StaysWithin(MetaEnd, a, r)
  {
    forall q: nat | q < |a| ensures MetaEnd(a + r, q) == MetaEnd(a, q) {
      MetaEndBefore(a, r, q);
    }
  }

  /** The replacement for the user-id reference is the user id. */
  lemma UserIdSubstituted(ctx: Context)
    ensures Substitute(ctx)("%{oats_user_id}") == ctx.userID
  {
    UserIdName();
  }

  /** Scanning from a reference replaces it and carries on right after it. */
  lemma ReferenceAt(s: string, c: nat, e: nat, f: string -> string)
    requires c <= e <= |s| && IsReference(s[c..e])
    ensures ReplaceFrom(MetaEnd, s, c, f) == f(s[c..e]) + ReplaceFrom(MetaEnd, s, e, f)
  {
    ReferenceUnique(s, c, e);
    NextHitIs(MetaEnd, s, c, c);
    ReplaceFromHit(MetaEnd, s, c, c, f);
    assert s[c..c] == [];
  }

  /** Scanning from a reference to the user id inserts the id and carries
      on right after the reference. */
  lemma UserIdAt(s: string, c: nat, e: nat, ctx: Context)
    requires c <= e <= |s| && s[c..e] == "%{oats_user_id}"
    ensures ReplaceFrom(MetaEnd, s, c, Substitute(ctx)) == ctx.userID + ReplaceFrom(MetaEnd, s, e, Substitute(ctx))
  {
    UserIdName();
    ReferenceAt(s, c, e, Substitute(ctx));
    UserIdSubstituted(ctx);
  }

  /** From the user-id reference on, `a + "%{oats_user_id}" + b` gives the
      user id and then the result for `b` alone. */
  lemma UserIdThenRest(a: string, b: string, ctx: Context)
    ensures ReplaceFrom(MetaEnd, a + "%{oats_user_id}" + b, |a|, Substitute(ctx))
         == ctx.userID + ParseForMetaVariables(b, ctx)
  {
    var t := "%{oats_user_id}";
    var s := a + t + b;
    var e := |a| + |t|;
    assert s[|a|..e] == t;
    UserIdAt(s, |a|, e, ctx);
    MetaEndAhead(s, e);
    ReplaceAhead(MetaEnd, s, e, 0, Substitute(ctx));
    assert s[e..] == b;
  }

  /** A reference to the user id is replaced by the user id, the text
      before it is handled as if it stood alone (a reference started there
      cannot reach into the `%` that follows), and so is the text after it:
      scanning resumes after the reference, so the inserted id is never
      searched for references itself. */
  lemma UserIdInText(a: string, b: string, ctx: Context)
    ensures ParseForMetaVariables(a + "%{oats_user_id}" + b, ctx)
         == ParseForMetaVariables(a, ctx) + ctx.userID + ParseForMetaVariables(b, ctx)
  {
    var r := "%{oats_user_id}" + b;
    assert a + "%{oats_user_id}" + b == a + r;
    MetaWithin(a, r);
    ReplaceBehind(MetaEnd, a, r, 0, Substitute(ctx));
    UserIdThenRest(a, b, ctx);
  }

  /** Empty text stays empty. */
  lemma EmptyKept(ctx: Context)
    ensures ParseForMetaVariables("", ctx) == ""
  {
    NextHitIs(MetaEnd, "", 0, 0);
  }

  /** A stray `%` and an unknown reference are kept. */
  lemma StrayKept(ctx: Context)
    ensures ParseForMetaVariables("50% %{x}", ctx) == "50% %{x}"
  {
    var a := "50% %{x}";
    forall p, e | 0 <= p <= e <= |a| && IsReference(a[p..e]) ensures RefName(a[p..e]) != "oats_user_id" {
      assert |RefName(a[p..e])| < |"oats_user_id"|;
    }
    UnknownKept(a, ctx);
  }

  /** A stray `%` and an unknown reference in front of the user-id
      reference are kept, and the user-id reference is still replaced. */
  lemma MixedExample(ctx: Context)
    ensures ParseForMetaVariables("50% %{x}%{oats_user_id}", ctx) == "50% %{x}" + ctx.userID
  {
    var a, t: string := "50% %{x}", "%{oats_user_id}";
    var s := a + t + "";
    assert s == "50% %{x}%{oats_user_id}";
    UserIdInText(a, "", ctx);
    StrayKept(ctx);
    EmptyKept(ctx);
    assert ParseForMetaVariables(s, ctx) == a + ctx.userID + "";
  }
}
