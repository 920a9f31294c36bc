/**
 * What `GeoCanvas.showPage` does to a page's content stream, stated as values.
 * The content stream is a sequence of opaque tokens; each drawing call made by
 * the page finaliser appends one token recording the call and its arguments.
 * `Finalize` gives the outcome of page finalisation for every configuration,
 * in the five-part form described by the crop-mark layout; the class in
 * `Canvas` is proved to perform exactly this by splicing its buffer in place.
 */
module Finalizer {
  import opened Wrappers

  /** A line segment from (x1, y1) to (x2, y2), in page units. */
  datatype Segment = Segment(x1: real, y1: real, x2: real, y2: real)

  /** A stroke colour; `NoColor` is a falsy colour setting such as None. */
  datatype Color = NoColor | Color(name: string)

  const Black: Color := Color("black")

  /** The drawing calls the page finaliser makes on the canvas. */
  datatype Primitive =
    | SaveState
    | RestoreState
    | Translate(dx: real, dy: real)
    | Scale(sx: real, sy: real)
    | SetStrokeColor(color: Color)
    | SetLineWidth(width: real)
    | Lines(segments: seq<Segment>)

  /** A content-stream token: one drawing call, or any other instruction text. */
  datatype Token = Op(p: Primitive) | Text(s: string)

  /** The terminating separator appended to every page's stream. */
  const Space: Token := Text(" ")

  /**
   * The crop-mark configuration object. Each attribute may be absent, in which
   * case the finaliser uses its default.
   */
  datatype CropMarks = CropMarks(
    borderWidth: Option<real>,
    markLength: Option<real>,
    markWidth: Option<real>,
    markColor: Option<Color>,
    markLast: Option<bool>,
    bleedWidth: Option<real>)

  /** The effective values the finaliser computes from the configuration. */
  datatype Settings = Settings(
    bw: real, markLast: bool, ml: real, mw: real, mc: Color, mg: real, bleedW: real)
  {
    /** The bounds the clamping establishes. */
    predicate Clamped() {
      0.0 <= ml <= bw && mg == 2.0 * bw - ml && bleedW >= 0.0
    }

    /** `ml and mc`: whether the crop marks are drawn at all. */
    predicate Drawn() {
      ml != 0.0 && mc != NoColor
    }
  }

  /** Python's `max(0, x)`. */
  function Max0(x: real): real {
    if 0.0 >= x then 0.0 else x
  }

  /** Python's `min(a, b)`. */
  function Min(a: real, b: real): real {
    if b < a then b else a
  }

  /**
   * Defaults and clamps: `bw = max(0, borderWidth)`, `ml = min(bw, max(0, markLength))`,
   * `mg = 2*bw - ml`, `bleedW = max(0, bleedWidth)`. Values already in range pass
   * through unchanged.
   */
  function Effective(cm: CropMarks): (s: Settings)
    ensures s.Clamped()
    ensures s.bw >= 0.0 && s.bw <= s.mg <= 2.0 * s.bw
    ensures cm.borderWidth.GetOr(36.0) >= 0.0 ==> s.bw == cm.borderWidth.GetOr(36.0)
    ensures 0.0 <= cm.markLength.GetOr(18.0) <= s.bw ==> s.ml == cm.markLength.GetOr(18.0)
    ensures cm.bleedWidth.GetOr(0.0) >= 0.0 ==> s.bleedW == cm.bleedWidth.GetOr(0.0)
    ensures s.markLast == cm.markLast.GetOr(true) && s.mc == cm.markColor.GetOr(Black)
    ensures s.mw == cm.markWidth.GetOr(0.5)
    ensures cm.borderWidth.GetOr(36.0) < 0.0 ==> s.bw == 0.0
    ensures cm.markLength.GetOr(18.0) < 0.0 ==> s.ml == 0.0
    ensures cm.markLength.GetOr(18.0) > s.bw ==> s.ml == s.bw
    ensures cm.bleedWidth.GetOr(0.0) < 0.0 ==> s.bleedW == 0.0
  {
    var bw := Max0(cm.borderWidth.GetOr(36.0));
    var ml := Min(bw, Max0(cm.markLength.GetOr(18.0)));
    Settings(bw, cm.markLast.GetOr(true), ml, cm.markWidth.GetOr(0.5),
             cm.markColor.GetOr(Black), 2.0 * bw - ml, Max0(cm.bleedWidth.GetOr(0.0)))
  }

  /**
   * A crop tick of the enlarged page (w + 2bw) x (h + 2bw): an axis-parallel segment
   * of length `ml` that lies on the extension of one of the four trim lines
   * (x = bw, x = w + bw, y = bw, y = h + bw), entirely within the border band outside
   * the trim box, and inside the enlarged page.
   */
  predicate CropTick(seg: Segment, bw: real, ml: real, w: real, h: real) {
    var W, H := w + 2.0 * bw, h + 2.0 * bw;
    && 0.0 <= seg.x1 <= W && 0.0 <= seg.x2 <= W
    && 0.0 <= seg.y1 <= H && 0.0 <= seg.y2 <= H
    && (|| (seg.x1 == seg.x2 && (seg.x1 == bw || seg.x1 == w + bw)
            && seg.y2 - seg.y1 == ml && (seg.y2 <= bw || seg.y1 >= h + bw))
        || (seg.y1 == seg.y2 && (seg.y1 == bw || seg.y1 == h + bw)
            && seg.x2 - seg.x1 == ml && (seg.x2 <= bw || seg.x1 >= w + bw)))
  }

  /**
   * `segs` holds both ticks of the trim corner (cx, cy), each of length `ml` and pointing
   * away from the trim box: a vertical one on x = cx, below the corner for a bottom corner
   * and above it for a top one, and a horizontal one on y = cy, left of the corner for a
   * left corner and right of it for a right one.
   */
  predicate CornerTicks(segs: seq<Segment>, ml: real, cx: real, cy: real, right: bool, top: bool) {
    && (exists seg :: seg in segs && seg.x1 == cx && seg.x2 == cx && seg.y2 - seg.y1 == ml
                      && (if top then seg.y1 >= cy else seg.y2 <= cy))
    && (exists seg :: seg in segs && seg.y1 == cy && seg.y2 == cy && seg.x2 - seg.x1 == ml
                      && (if right then seg.x1 >= cx else seg.x2 <= cx))
  }

  /**
   * The eight crop-mark segments: two outward ticks at each of the four corners of the
   * trim box (`MarkSegmentsAtCorners`). With the clamped settings and a page of
   * non-negative size every one is a crop tick of the enlarged page.
   */
  function MarkSegments(bw: real, ml: real, mg: real, w: real, h: real): (segs: seq<Segment>)
    ensures |segs| == 8
    ensures 0.0 <= ml <= bw && mg == 2.0 * bw - ml && w >= 0.0 && h >= 0.0 ==>
      forall seg :: seg in segs ==> CropTick(seg, bw, ml, w, h)
  {
    [ Segment(bw, 0.0, bw, ml),
      Segment(w + bw, 0.0, w + bw, ml),
      Segment(bw, h + mg, bw, h + 2.0 * bw),
      Segment(w + bw, h + mg, w + bw, h + 2.0 * bw),
      Segment(0.0, bw, ml, bw),
      Segment(w + mg, bw, w + 2.0 * bw, bw),
      Segment(0.0, h + bw, ml, h + bw),
      Segment(w + mg, h + bw, w + 2.0 * bw, h + bw) ]
  }

  /**
   * With the clamped settings, the crop marks are the two outward ticks at every one of
   * the four corners of the trim box (bw, bw), (w + bw, bw), (bw, h + bw), (w + bw, h + bw).
   */
  lemma MarkSegmentsAtCorners(bw: real, ml: real, mg: real, w: real, h: real)
    requires 0.0 <= ml <= bw && mg == 2.0 * bw - ml
    ensures var segs := MarkSegments(bw, ml, mg, w, h);
      && CornerTicks(segs, ml, bw, bw, false, false)
      && CornerTicks(segs, ml, w + bw, bw, true, false)
      && CornerTicks(segs, ml, bw, h + bw, false, true)
      && CornerTicks(segs, ml, w + bw, h + bw, true, true)
  {
    var segs := MarkSegments(bw, ml, mg, w, h);
    assert segs[0] in segs && segs[1] in segs && segs[2] in segs && segs[3] in segs;
    assert segs[4] in segs && segs[5] in segs && segs[6] in segs && segs[7] in segs;
  }

  /**
   * The tokens the crop marks add: one save/restore scope holding only the stroke
   * colour, the line width and the mark lines.
   */
  function MarkTokens(s: Settings, w: real, h: real): (t: seq<Token>)
    ensures |t| == 5 && t[0] == Op(SaveState) && t[4] == Op(RestoreState) && Neutral(t[1..4])
    ensures Op(SetStrokeColor(s.mc)) in t && Op(SetLineWidth(s.mw)) in t
    ensures Op(Lines(MarkSegments(s.bw, s.ml, s.mg, w, h))) in t
  {
    var t := [ Op(SaveState), Op(SetStrokeColor(s.mc)), Op(SetLineWidth(s.mw)),
               Op(Lines(MarkSegments(s.bw, s.ml, s.mg, w, h))), Op(RestoreState) ];
    assert t[1] in t && t[2] in t && t[3] in t;
    t
  }

  /** The bleed scale factor along a page side of length `side`: `1 + 2*bleedW/side`. */
  function BleedScale(bleedW: real, side: real): real
    requires side != 0.0
  {
    1.0 + (2.0 * bleedW) / side
  }

  /**
   * The opening of the wrapper: a save, then only transformations: the translation by
   * `bw - bleedW`, and the scale exactly when there is bleed.
   */
  function WrapperTokens(s: Settings, w: real, h: real): (t: seq<Token>)
    requires s.bleedW != 0.0 ==> w != 0.0 && h != 0.0
    ensures |t| >= 2 && t[0] == Op(SaveState) && Neutral(t[1..])
    ensures t[1] == Op(Translate(s.bw - s.bleedW, s.bw - s.bleedW))
    ensures |t| == 3 <==> s.bleedW != 0.0
  {
    [Op(SaveState), Op(Translate(s.bw - s.bleedW, s.bw - s.bleedW))]
    + (if s.bleedW != 0.0 then [Op(Scale(BleedScale(s.bleedW, w), BleedScale(s.bleedW, h)))] else [])
  }

  /** The exceptions page finalisation can raise. */
  datatype Fault =
    | ZeroDivision   // the bleed scale divides by a zero page side
    | UnboundMarks   // marks are to be drawn last but were never drawn, so there is nothing to append

  /** The outcome of finalising a page. */
  datatype Finish =
    | Finished(code: seq<Token>, width: real, height: real)
    | Raised(fault: Fault, partial: seq<Token>)   // the buffer as it stood when the exception was raised

  /**
   * Page finalisation of a page of size w x h whose buffer holds `content`.
   * Without crop marks, or with a zero border, only the separator is appended.
   * Otherwise the page grows by the border on every side and the buffer becomes
   *   lead marks ++ wrapper ++ content ++ restore ++ held-back marks ++ separator,
   * where the marks lead when they are not to be drawn last, and are held back to
   * the end when they are.
   */
  function Finalize(content: seq<Token>, cropMarks: Option<CropMarks>, w: real, h: real): (f: Finish)
    ensures f.Raised? ==> cropMarks.Some? && Effective(cropMarks.value).bw != 0.0
    ensures f.Finished? ==> |f.code| > |content| && f.code[|f.code| - 1] == Space
    ensures f.Finished? ==> f.width - w == f.height - h >= 0.0
    ensures f.Finished? && f.width == w ==> f.code == content + [Space]
  {
    if cropMarks.None? || Effective(cropMarks.value).bw == 0.0 then
      Finished(content + [Space], w, h)
    else
      var s := Effective(cropMarks.value);
      var marks := if s.Drawn() then MarkTokens(s, w, h) else [];
      if s.bleedW != 0.0 && (w == 0.0 || h == 0.0) then
        Raised(ZeroDivision, content + (if s.markLast then [] else marks)
                             + [Op(SaveState), Op(Translate(s.bw - s.bleedW, s.bw - s.bleedW))])
      else if s.markLast && !s.Drawn() then
        Raised(UnboundMarks, WrapperTokens(s, w, h) + content + [Op(RestoreState)])
      else
        var lead := if s.markLast then [] else marks;
        var held := if s.markLast then marks else [];
        Finished(lead + WrapperTokens(s, w, h) + content + [Op(RestoreState)] + held + [Space],
                 w + 2.0 * s.bw, h + 2.0 * s.bw)
  }

  // ---------------------------------------------------------------------------
  // Properties of page finalisation
  // ---------------------------------------------------------------------------

  /** Without crop-mark processing the buffer only gains the separator and the page keeps its size. */
  lemma NoCropMarksKeepsPage(content: seq<Token>, cropMarks: Option<CropMarks>, w: real, h: real)
    requires cropMarks.None? || Effective(cropMarks.value).bw == 0.0
    ensures Finalize(content, cropMarks, w, h) == Finished(content + [Space], w, h)
  {
  }

  /**
   * Finalisation raises exactly when crop marks are processed and either the bleed
   * scale divides by a zero side, or the marks are to be drawn last but were not drawn.
   */
  lemma RaisesExactlyWhen(content: seq<Token>, cropMarks: Option<CropMarks>, w: real, h: real)
    ensures Finalize(content, cropMarks, w, h).Raised? <==>
      && cropMarks.Some?
      && var s := Effective(cropMarks.value);
      && s.bw != 0.0
      && ((s.bleedW != 0.0 && (w == 0.0 || h == 0.0)) || (s.markLast && !s.Drawn()))
  {
  }

  /**
   * Whenever finalisation succeeds, the buffer ends with the separator and holds the
   * original content as one contiguous run, in its original order.
   */
  lemma ContentKeptInOrder(content: seq<Token>, cropMarks: Option<CropMarks>, w: real, h: real)
    requires Finalize(content, cropMarks, w, h).Finished?
    ensures var code := Finalize(content, cropMarks, w, h).code;
      && code[|code| - 1] == Space
      && exists i :: 0 <= i && RunAt(code, i, content)
  {
    var code := Finalize(content, cropMarks, w, h).code;
    if cropMarks.None? || Effective(cropMarks.value).bw == 0.0 {
      assert RunAt(code, 0, content);
    } else {
      var s := Effective(cropMarks.value);
      var lead := if s.markLast || !s.Drawn() then [] else MarkTokens(s, w, h);
      var held := if s.markLast && s.Drawn() then MarkTokens(s, w, h) else [];
      var pre := lead + WrapperTokens(s, w, h);
      assert code == pre + content + ([Op(RestoreState)] + held + [Space]);
      assert RunAt(code, |pre|, content);
    }
  }

  /** `run` occurs in `code` starting at index `i`. */
  predicate RunAt(code: seq<Token>, i: nat, run: seq<Token>) {
    i + |run| <= |code| && code[i..i + |run|] == run
  }

  // The three cases of a bordered page, one branch of `Finalize` each, for the proof
  // that the canvas performs it.

  /** Finalisation of a bordered page whose bleed scale divides by a zero side. */
  lemma FinalizeBorderedZeroDivision(content: seq<Token>, cm: CropMarks, w: real, h: real)
    requires var s := Effective(cm);
      s.bw != 0.0 && s.bleedW != 0.0 && (w == 0.0 || h == 0.0)
    ensures var s := Effective(cm);
      var marks := if s.Drawn() then MarkTokens(s, w, h) else [];
      Finalize(content, Some(cm), w, h) ==
        Raised(ZeroDivision, content + (if s.markLast then [] else marks)
                             + [Op(SaveState), Op(Translate(s.bw - s.bleedW, s.bw - s.bleedW))])
  {
  }

  /** Finalisation of a bordered page whose marks are to be drawn last but were not drawn. */
  lemma FinalizeBorderedUnbound(content: seq<Token>, cm: CropMarks, w: real, h: real)
    requires var s := Effective(cm);
      s.bw != 0.0 && !(s.bleedW != 0.0 && (w == 0.0 || h == 0.0)) && s.markLast && !s.Drawn()
    ensures var s := Effective(cm);
      Finalize(content, Some(cm), w, h) ==
        Raised(UnboundMarks, WrapperTokens(s, w, h) + content + [Op(RestoreState)])
  {
  }

  /** Finalisation of a bordered page that raises nothing, part by part. */
  lemma FinalizeBorderedFinished(content: seq<Token>, cm: CropMarks, w: real, h: real)
    requires var s := Effective(cm);
      s.bw != 0.0 && !(s.bleedW != 0.0 && (w == 0.0 || h == 0.0)) && !(s.markLast && !s.Drawn())
    ensures var s := Effective(cm);
      var marks := if s.Drawn() then MarkTokens(s, w, h) else [];
      Finalize(content, Some(cm), w, h) ==
        Finished((if s.markLast then [] else marks) + WrapperTokens(s, w, h) + content + [Op(RestoreState)]
                 + (if s.markLast then marks else []) + [Space],
                 w + 2.0 * s.bw, h + 2.0 * s.bw)
  {
  }

  // ---------------------------------------------------------------------------
  // Balance of graphics-state saves and restores
  // ---------------------------------------------------------------------------

  /** How a token changes the depth of the graphics-state stack. */
  function Delta(t: Token): int {
    match t
    case Op(SaveState) => 1
    case Op(RestoreState) => -1
    case _ => 0
  }

  /** The net depth change of a run of tokens. */
  function Depth(code: seq<Token>): int {
    if code == [] then 0 else Depth(code[..|code| - 1]) + Delta(code[|code| - 1])
  }

  /** Every restore matches an earlier save and every save is restored. */
  predicate Balanced(code: seq<Token>) {
    Depth(code) == 0 && forall i :: 0 <= i <= |code| ==> Depth(code[..i]) >= 0
  }

  lemma {:induction false} DepthAppend(a: seq<Token>, b: seq<Token>)
    ensures Depth(a + b) == Depth(a) + Depth(b)
    decreases |b|
  {
    if b == [] {
      assert a + b == a;
    } else {
      var b' := b[..|b| - 1];
      assert (a + b)[..|a + b| - 1] == a + b';
      DepthAppend(a, b');
    }
  }

  /** Prefixes of a concatenation are a prefix of the first part, or all of it plus a prefix of the second. */
  lemma PrefixOfAppend(a: seq<Token>, b: seq<Token>, i: int)
    requires |a| <= i <= |a| + |b|
    ensures (a + b)[..i] == a + b[..i - |a|]
  {
  }

  /** Two balanced runs one after the other are balanced. */
  lemma BalancedAppend(a: seq<Token>, b: seq<Token>)
    requires Balanced(a) && Balanced(b)
    ensures Balanced(a + b)
  {
    DepthAppend(a, b);
    forall i | 0 <= i <= |a + b| ensures Depth((a + b)[..i]) >= 0 {
      if i <= |a| {
        assert (a + b)[..i] == a[..i];
      } else {
        PrefixOfAppend(a, b, i);
        DepthAppend(a, b[..i - |a|]);
      }
    }
  }

  /** Tokens that neither save nor restore the graphics state. */
  predicate Neutral(code: seq<Token>) {
    forall i :: 0 <= i < |code| ==> Delta(code[i]) == 0
  }

  lemma {:induction false} NeutralDepth(code: seq<Token>)
    requires Neutral(code)
    ensures Depth(code) == 0
    decreases |code|
  {
    if code != [] {
      NeutralDepth(code[..|code| - 1]);
    }
  }

  lemma NeutralBalanced(code: seq<Token>)
    requires Neutral(code)
    ensures Balanced(code)
  {
    NeutralDepth(code);
    forall i | 0 <= i <= |code| ensures Depth(code[..i]) >= 0 {
      NeutralDepth(code[..i]);
    }
  }

  /** A save, then a balanced run, then a restore, is balanced. */
  lemma BalancedScope(body: seq<Token>)
    requires Balanced(body)
    ensures Balanced([Op(SaveState)] + body + [Op(RestoreState)])
  {
    var save := [Op(SaveState)];
    var all := save + body + [Op(RestoreState)];
    assert Depth(save) == 1 by { assert save[..0] == []; }
    DepthAppend(save, body);
    assert all[..|all| - 1] == save + body;
    forall i | 0 <= i <= |all| ensures Depth(all[..i]) >= 0 {
      if i == 0 {
        assert all[..i] == [];
      } else if i == |all| {
        assert all[..i] == all;
      } else {
        assert all[..i] == save + body[..i - 1];
        DepthAppend(save, body[..i - 1]);
      }
    }
  }

  lemma MarksBalanced(s: Settings, w: real, h: real)
    ensures Balanced(MarkTokens(s, w, h))
  {
    var inner := [Op(SetStrokeColor(s.mc)), Op(SetLineWidth(s.mw)), Op(Lines(MarkSegments(s.bw, s.ml, s.mg, w, h)))];
    NeutralBalanced(inner);
    BalancedScope(inner);
    assert MarkTokens(s, w, h) == [Op(SaveState)] + inner + [Op(RestoreState)];
  }

  /**
   * If the page's own drawing keeps its saves and restores balanced, so does the
   * finalised buffer: the surgery only adds balanced scopes around and after it.
   */
  lemma FinalizeKeepsBalance(content: seq<Token>, cropMarks: Option<CropMarks>, w: real, h: real)
    requires Balanced(content)
    requires Finalize(content, cropMarks, w, h).Finished?
    ensures Balanced(Finalize(content, cropMarks, w, h).code)
  {
    var space := [Space];
    NeutralBalanced(space);
    if cropMarks.None? || Effective(cropMarks.value).bw == 0.0 {
      BalancedAppend(content, space);
    } else {
      var s := Effective(cropMarks.value);
      var marks := if s.Drawn() then MarkTokens(s, w, h) else [];
      var none: seq<Token> := [];
      NeutralBalanced(none);
      MarksBalanced(s, w, h);
      var lead := if s.markLast then [] else marks;
      var held := if s.markLast then marks else [];
      BalancedAround(lead, WrapperTokens(s, w, h), content, held);
    }
  }

  /** The five parts of a bordered page's buffer, put together, are balanced. */
  lemma BalancedAround(lead: seq<Token>, open: seq<Token>, content: seq<Token>, held: seq<Token>)
    requires Balanced(lead) && Balanced(content) && Balanced(held)
    requires |open| >= 1 && open[0] == Op(SaveState) && Neutral(open[1..])
    ensures Balanced(lead + open + content + [Op(RestoreState)] + held + [Space])
  {
    var wrapped := open + content + [Op(RestoreState)];
    assert Balanced(wrapped) by {
      NeutralBalanced(open[1..]);
      BalancedAppend(open[1..], content);
      BalancedScope(open[1..] + content);
      assert wrapped == [Op(SaveState)] + (open[1..] + content) + [Op(RestoreState)];
    }
    var space := [Space];
    assert Balanced(space) by {
      NeutralBalanced(space);
    }
    assert Balanced(lead + wrapped + held) by {
      BalancedAppend(lead, wrapped);
      BalancedAppend(lead + wrapped, held);
    }
    BalancedAppend(lead + wrapped + held, space);
    assert lead + open + content + [Op(RestoreState)] + held + [Space] == lead + wrapped + held + space;
  }

  // ---------------------------------------------------------------------------
  // Geometry of the bleed wrapper
  // ---------------------------------------------------------------------------

  /**
   * Where a run of drawing tokens sends a point (x, y) of the user space it leaves in
   * force: PDF composes each later transformation inside the earlier ones, so the first
   * token is applied last. Tokens other than translations and scales move nothing.
   */
  function Place(ops: seq<Token>, x: real, y: real): (real, real)
    decreases |ops|
  {
    if ops == [] then (x, y) else Move(ops[0], Place(ops[1..], x, y))
  }

  /** Where one token sends a point. */
  function Move(t: Token, p: (real, real)): (real, real) {
    match t
    case Op(Translate(dx, dy)) => (p.0 + dx, p.1 + dy)
    case Op(Scale(sx, sy)) => (p.0 * sx, p.1 * sy)
    case _ => p
  }

  /**
   * The wrapper the buffer opens with maps the original page [0, w] x [0, h] onto the
   * trim box of the enlarged page grown by the bleed on every side: its corners go to
   * (bw - bleedW, bw - bleedW) and (w + bw + bleedW, h + bw + bleedW).
   */
  lemma BleedFillsTrimBox(s: Settings, w: real, h: real)
    requires s.bleedW != 0.0 ==> w != 0.0 && h != 0.0
    ensures Place(WrapperTokens(s, w, h), 0.0, 0.0) == (s.bw - s.bleedW, s.bw - s.bleedW)
    ensures Place(WrapperTokens(s, w, h), w, h) == (w + s.bw + s.bleedW, h + s.bw + s.bleedW)
  {
    var t := WrapperTokens(s, w, h);
    var d := s.bw - s.bleedW;
    assert t[1..][1..] == t[2..];
    if s.bleedW != 0.0 {
      var sx, sy := BleedScale(s.bleedW, w), BleedScale(s.bleedW, h);
      assert t == [Op(SaveState), Op(Translate(d, d)), Op(Scale(sx, sy))];
      assert t[2..][1..] == [];
      assert Place(t[2..], w, h).0 == w * sx && Place(t[2..], w, h).1 == h * sy;
      assert Place(t[2..], 0.0, 0.0).0 == 0.0 && Place(t[2..], 0.0, 0.0).1 == 0.0;
      calc {
        w * sx;
        w * (1.0 + (2.0 * s.bleedW) / w);
        w + w * ((2.0 * s.bleedW) / w);
        w + 2.0 * s.bleedW;
      }
      calc {
        h * sy;
        h * (1.0 + (2.0 * s.bleedW) / h);
        h + h * ((2.0 * s.bleedW) / h);
        h + 2.0 * s.bleedW;
      }
    } else {
      assert t == [Op(SaveState), Op(Translate(d, d))];
      assert t[2..] == [];
      assert Place(t[1..], w, h) == (w + d, h + d);
      assert Place(t[1..], 0.0, 0.0) == (d, d);
    }
  }
}
