/** The pure front half of `renderText` and `renderGPTText`: the text is
    rewritten (`\neq` to `≠`, `**` to `^`, meta-variables, `dynamicText`,
    the optional variabilization), cut into lines, and every line is
    classed as blank or cut into typed parts. What the parts are drawn as
    is not modelled; each renderer's output is the list of lines it
    draws, in order. */
module Render {
  import opened Wrappers
  import opened Strings
  import opened Scanner
  import opened MathSegments
  import opened LineSplit
  import opened MetaVariables
  import opened Substitutions
  import opened GptPreprocess
  import opened FillIn

  /** What a renderer is given: a string, or some other value that it
      hands back untouched. */
  datatype Value = Str(text: string) | NonString(id: nat)

  /** One drawn part of a line. */
  datatype Part = TextPart(tokens: seq<Token>) | InlinePart(math: string) | BlockPart(math: string)

  /** A drawn line: an empty spacer line, or the parts of the line. */
  datatype Drawn = BlankLine | ContentLine(parts: seq<Part>)

  datatype Rendered = PassThrough(value: Value) | Lines(lines: seq<Drawn>)

  /** The renderers' settings: the `dynamicText` table as its entries in
      iteration order, and `text => variabilize(text, variabilization)`
      when a variabilization is given. */
  datatype Settings = Settings(dynamicText: seq<(string, string)>, variabilize: Option<string -> string>)

  /** The rewrites every text goes through before it is cut into lines. */
  function Prepare(t: string, cfg: Settings, ctx: Context): (r: string) {
    var a := ReplaceAll(t, "\\neq", "≠");
    var b := ReplaceAll(a, "**", "^");
    var c := ParseForMetaVariables(b, ctx);
    var d := ApplyDynamicText(c, cfg.dynamicText);
    match cfg.variabilize
    case None => d
    case Some(f) => f(d)
  }

  /** The part a segment of a line is drawn as. */
  function PartOf(seg: Segment): (r: Part) {
    match seg
    case Text(v) => TextPart(TextTokens(v))
    case Inline(v) => InlinePart(v)
    case Block(v) => BlockPart(v)
  }

  /** One line: `trim()` leaves nothing exactly when the line is all
      whitespace, and then it is drawn blank; otherwise it has one part
      per segment, at least one, of the segment's kind and holding the
      segment's value. */
  function DrawLine(line: string): (r: Drawn)
    ensures r.BlankLine? <==> AllSpace(line)
    ensures r.ContentLine? ==> |r.parts| == |ParseMathSegments(line)| > 0
    ensures r.ContentLine? ==> forall i :: 0 <= i < |ParseMathSegments(line)| ==>
              match ParseMathSegments(line)[i]
              case Text(t) => r.parts[i] == TextPart(TextTokens(t))
              case Inline(m) => r.parts[i] == InlinePart(m)
              case Block(m) => r.parts[i] == BlockPart(m)
  {
    TrimSlice(line);
    if Trim(line) == [] then BlankLine
    else
      var segs := ParseMathSegments(line);
      ContentLine(seq(|segs|, i requires 0 <= i < |segs| => PartOf(segs[i])))
  }

  /** Each line drawn on its own, in order. */
  function DrawLines(lines: seq<string>): (r: seq<Drawn>)
    ensures |r| == |lines|
    ensures forall i :: 0 <= i < |lines| ==> r[i] == DrawLine(lines[i])
  {
    seq(|lines|, i requires 0 <= i < |lines| => DrawLine(lines[i]))
  }

  /** `renderText(text, problemID, variabilization, context)`. */
  function RenderText(v: Value, cfg: Settings, ctx: Context): (r: Rendered)
    ensures v.NonString? ==> r == PassThrough(v)
    ensures v.Str? ==> var ls := SplitPreservingMathBlocks(Prepare(v.text, cfg, ctx));
      && r.Lines? && |r.lines| == |ls|
      && forall i :: 0 <= i < |ls| ==> r.lines[i] == DrawLine(ls[i])
  {
    match v
    case NonString(_) => PassThrough(v)
    case Str(t) => Lines(DrawLines(SplitPreservingMathBlocks(Prepare(t, cfg, ctx))))
  }

  /** `renderGPTText(text, problemID, variabilization, context)`: the
      chat-model clean-up first, and a plain line split, which does not
      keep math blocks whole. */
  function RenderGptText(v: Value, cfg: Settings, ctx: Context): (r: Rendered)
    ensures v.NonString? ==> r == PassThrough(v)
    ensures v.Str? ==> var ls := SplitLines(Prepare(PreprocessChatGptResponse(v.text), cfg, ctx));
      && r.Lines? && |r.lines| == |ls|
      && forall i :: 0 <= i < |ls| ==> r.lines[i] == DrawLine(ls[i])
  {
    match v
    case NonString(_) => PassThrough(v)
    case Str(t) => Lines(DrawLines(SplitLines(Prepare(PreprocessChatGptResponse(t), cfg, ctx))))
  }

  // ---------------------------------------------------------------------
  // The rewrites

  /** After the two rewrites neither `\neq` nor `**` is left: neither
      replacement shares a character with its own pattern, and the `^` of
      the second shares none with `\neq`, so it forms no new one. */
  lemma RewritesRemove(t: string)
    ensures !Contains(ReplaceAll(t, "\\neq", "≠"), "\\neq")
    ensures !Contains(ReplaceAll(ReplaceAll(t, "\\neq", "≠"), "**", "^"), "**")
    ensures !Contains(ReplaceAll(ReplaceAll(t, "\\neq", "≠"), "**", "^"), "\\neq")
  {
    var a := ReplaceAll(t, "\\neq", "≠");
    ReplaceAllRemoves(t, "\\neq", "≠", 0);
    ReplaceAllRemoves(a, "**", "^", 0);
    ReplaceKeepsAbsent(a, "**", "^", "\\neq", 0);
  }

  /** Text with nothing to rewrite comes through unchanged when no
      variabilization is given. */
  lemma PrepareKeeps(t: string, cfg: Settings, ctx: Context)
    requires !Contains(t, "\\neq") && !Contains(t, "**") && !Contains(t, "%")
    requires forall i :: 0 <= i < |cfg.dynamicText| ==> cfg.dynamicText[i].0 != [] && !Contains(t, cfg.dynamicText[i].0)
    requires cfg.variabilize.None?
    ensures Prepare(t, cfg, ctx) == t
  {
    CharAbsent(t, '%');
    forall p, e | 0 <= p <= e <= |t| ensures !IsReference(t[p..e]) {
      if p < e {
        assert t[p..e][0] == t[p];
      }
    }
    UnknownKept(t, ctx);
    DynamicAbsent(t, cfg.dynamicText);
  }

  lemma {:induction false} DynamicAbsent(t: string, table: seq<(string, string)>)
    requires forall i :: 0 <= i < |table| ==> table[i].0 != [] && !Contains(t, table[i].0)
    ensures ApplyDynamicText(t, table) == t
    decreases |table|
  {
    if |table| > 0 {
      DynamicAbsent(t, table[1..]);
    }
  }

  /** The empty text: `renderText` draws no line at all, while
      `renderGPTText` draws one blank line, because a plain split of the
      empty string gives one empty line. */
  lemma EmptyText(ctx: Context)
    ensures RenderText(Str(""), Settings([], None), ctx) == Lines([])
    ensures RenderGptText(Str(""), Settings([], None), ctx) == Lines([BlankLine])
  {
    EmptyPrepared(ctx);
    PreprocessIs("");
    assert Trim("") == [];
  }

  lemma EmptyPrepared(ctx: Context)
    ensures Prepare("", Settings([], None), ctx) == ""
  {
    PrepareKeeps("", Settings([], None), ctx);
  }
}
